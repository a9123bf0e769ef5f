/** The stop decoder of `parseGrdArrayBuffer`: one colour stop in any of the six colour
    formats, one transparency stop, the boundary duplication, and the two stop loops with the
    cursor they advance. */
module GrdStops {
  import opened Wrappers
  import opened Js
  import opened Bytes
  import opened GrdScan
  import opened Colour
  import opened Seqs

  /** The host services the reader relies on: `DataView.getFloat64(i, false)` of the eight
      bytes at i, `LabToRGB`, and `gradientUtils.getColourFromGradient`. */
  datatype GrdHost = GrdHost(
    getFloat64: seq<byte> -> real,
    labToRgb: (real, real, real) -> Rgb,
    sample: (seq<ColorStop>, real) -> Rgba)

  /** `getFloat64(i, false)`, which throws past the end of the buffer. */
  function F64At(h: GrdHost, buf: seq<byte>, i: int): Result<real, Exception>
    requires 0 <= i
  {
    if i + 8 > |buf| then Err(RangeError) else Ok(h.getFloat64(buf[i..i + 8]))
  }

  /** `getUint32(i, false)`, which throws past the end of the buffer. */
  function U32At(buf: seq<byte>, i: int): (r: Result<nat, Exception>)
    requires 0 <= i
    ensures r.Ok? <==> i + 4 <= |buf|
    ensures r.Ok? ==> r.value < TWO32
  {
    if i + 4 > |buf| then Err(RangeError) else Ok(U32BE(buf, i))
  }

  /** A number read from the file and the cursor it was read at. */
  datatype Field = Field(value: real, at: nat)

  /** `i = GRDSkipToChunkInRange(i, tag, end); i += skip; getFloat64(i)`. */
  function F64Field(h: GrdHost, buf: seq<byte>, i: int, tag: nat, skip: nat, end: int): Result<Field, Exception>
    requires 0 <= i && 0 <= end <= |buf|
  {
    var at := SkipTo(buf, i, tag, end) + skip;
    var v :- F64At(h, buf, at);
    Ok(Field(v, at))
  }

  /** `i = GRDSkipToChunkInRange(i, tag, end); i += skip; getUint32(i)`: never negative. */
  function U32Field(buf: seq<byte>, i: int, tag: nat, skip: nat, end: int): (r: Result<Field, Exception>)
    requires 0 <= i && 0 <= end <= |buf|
    ensures r.Ok? ==> r.value.value >= 0.0
  {
    var at := SkipTo(buf, i, tag, end) + skip;
    var v :- U32At(buf, at);
    Ok(Field(v as real, at))
  }

  /** A decoded colour and the cursor after its last field. */
  datatype StopColour = StopColour(rgb: Rgb, at: nat)

  /** Red at `redAt`, then green and blue by their tags, each divided by 255. */
  function RgbFrom(h: GrdHost, buf: seq<byte>, redAt: int, end: int): Result<StopColour, Exception>
    requires 0 <= redAt && 0 <= end <= |buf|
  {
    var red :- F64At(h, buf, redAt);
    var green :- F64Field(h, buf, redAt, GRN, 4, end);
    var blue :- F64Field(h, buf, green.at, BL, 4, end);
    Ok(StopColour(Rgb(red / 255.0, green.value / 255.0, blue.value / 255.0), blue.at))
  }

  /** Hue in degrees, saturation and brightness in percent, through the hexagonal conversion. */
  function HsbColour(h: GrdHost, buf: seq<byte>, i: int, end: int): Result<StopColour, Exception>
    requires 0 <= i && 0 <= end <= |buf|
  {
    var hue :- F64Field(h, buf, i, HUE, 8, end);
    var sat :- F64Field(h, buf, hue.at, STRT, 4, end);
    var bri :- F64Field(h, buf, sat.at, BRGH, 4, end);
    Ok(StopColour(HsvToRgbWrapped(hue.value / 360.0, sat.value / 100.0, bri.value / 100.0), bri.at))
  }

  /** How far a Book Color stop is searched for an embedded `Rd  `. */
  const BOOK_WINDOW: int := 300

  /** The grey a Book Color stop falls back to. */
  const BOOK_GREY: Rgb := Rgb(0.5, 0.5, 0.5)

  /** A Book Color: the RGB triple embedded within the next 300 bytes, or grey, the cursor
      then staying where it was. */
  function BookColour(h: GrdHost, buf: seq<byte>, i: nat, end: int): Result<StopColour, Exception>
    requires 0 <= end <= |buf|
  {
    var bookEnd := if i + BOOK_WINDOW < end then i + BOOK_WINDOW else end;
    var bookRd := SkipTo(buf, i, RD, bookEnd);
    if bookRd < end && bookRd < i + BOOK_WINDOW then RgbFrom(h, buf, bookRd + 4, end)
    else Ok(StopColour(BOOK_GREY, i))
  }

  /** Four inks in percent, through the naive conversion. */
  function CmykColour(h: GrdHost, buf: seq<byte>, i: int, end: int): Result<StopColour, Exception>
    requires 0 <= i && 0 <= end <= |buf|
  {
    var c :- F64Field(h, buf, i, CYN, 8, end);
    var m :- F64Field(h, buf, c.at, MGNT, 8, end);
    var y :- F64Field(h, buf, m.at, YLW, 8, end);
    var k :- F64Field(h, buf, y.at, BLCK, 8, end);
    Ok(StopColour(CmykToRgb(c.value / 100.0, m.value / 100.0, y.value / 100.0, k.value / 100.0), k.at))
  }

  /** A grey level in percent, on all three channels. */
  function GreyColour(h: GrdHost, buf: seq<byte>, i: int, end: int): Result<StopColour, Exception>
    requires 0 <= i && 0 <= end <= |buf|
  {
    var g :- F64Field(h, buf, i, GRY, 8, end);
    var grey := g.value / 100.0;
    Ok(StopColour(Rgb(grey, grey, grey), g.at))
  }

  /** L, a and b as stored, converted by the host. */
  function LabColour(h: GrdHost, buf: seq<byte>, i: int, end: int): Result<StopColour, Exception>
    requires 0 <= i && 0 <= end <= |buf|
  {
    var l :- F64Field(h, buf, i, LMNC, 8, end);
    var a :- F64Field(h, buf, l.at, A_CH, 4, end);
    var b :- F64Field(h, buf, a.at, B_CH, 4, end);
    Ok(StopColour(h.labToRgb(l.value, a.value, b.value), b.at))
  }

  /** The colour of the stop whose format tag is at i; an unknown format abandons the
      gradient (none). */
  function ColourOfFormat(h: GrdHost, buf: seq<byte>, i: nat, format: nat, end: int): (r: Result<Option<StopColour>, Exception>)
    requires 0 <= end <= |buf|
    ensures r.Ok? && r.value.None? <==>
      format !in {HSBC, RGBC, BKCL, CMYC, GRSC, LBCL}
  {
    if format == HSBC then
      var c :- HsbColour(h, buf, i, end); Ok(Some(c))
    else if format == RGBC then
      var c :- RgbFrom(h, buf, SkipTo(buf, i, RD, end) + 4, end); Ok(Some(c))
    else if format == BKCL then
      var c :- BookColour(h, buf, i, end); Ok(Some(c))
    else if format == CMYC then
      var c :- CmykColour(h, buf, i, end); Ok(Some(c))
    else if format == GRSC then
      var c :- GreyColour(h, buf, i, end); Ok(Some(c))
    else if format == LBCL then
      var c :- LabColour(h, buf, i, end); Ok(Some(c))
    else
      Ok(None)
  }

  /** The 26 bytes between a `Clrt` tag and the colour's format tag. */
  const CLRT_PAD: nat := 26

  /** The colour of the next stop: its `Clrt` is searched from i and the format read 26
      bytes after it; no `Clrt` in range abandons the gradient. */
  function ColourAt(h: GrdHost, buf: seq<byte>, i: int, end: int): Result<Option<StopColour>, Exception>
    requires 0 <= i && 0 <= end <= |buf|
  {
    var at := SkipTo(buf, i, CLRT, end) + CLRT_PAD;
    if at >= end then Ok(None)
    else
      var format :- U32At(buf, at);
      ColourOfFormat(h, buf, at, format, end)
  }

  /** Where a stop sits and how its midpoint is set, and the cursor after them. */
  datatype StopTail = StopTail(location: real, midpoint: real, at: nat)

  /** `Lctn` in 4096ths and `Mdpn` in hundredths; a location is never negative. */
  function StopTailAt(buf: seq<byte>, i: int, end: int): (r: Result<StopTail, Exception>)
    requires 0 <= i && 0 <= end <= |buf|
    ensures r.Ok? ==> r.value.location >= 0.0
  {
    var l :- U32Field(buf, i, LCTN, 4, end);
    var m :- U32Field(buf, l.at, MDPN, 4, end);
    Ok(StopTail(l.value / 4096.0, m.value / 100.0, m.at))
  }

  /** A colour stop as the reader makes it: opaque, and not before 0. */
  predicate OpaqueStop(s: ColorStop) {
    s.Alpha == Some(1.0) && s.Position >= 0.0
  }

  /** A transparency stop as the reader makes it: with an opacity, and not before 0. */
  predicate AlphaStopOk(s: ColorStop) {
    s.Alpha.Some? && s.Position >= 0.0
  }

  /** One colour stop (opaque) and the cursor after it, or none when the gradient is
      abandoned. */
  function ColourStop(h: GrdHost, buf: seq<byte>, i: int, end: int): (r: Result<Option<(ColorStop, nat)>, Exception>)
    requires 0 <= i && 0 <= end <= |buf|
    ensures r.Ok? && r.value.Some? ==> OpaqueStop(r.value.value.0)
  {
    var c :- ColourAt(h, buf, i, end);
    match c
    case None => Ok(None)
    case Some(sc) =>
      var tail :- StopTailAt(buf, sc.at, end);
      Ok(Some((ColorStop(sc.rgb.Red, sc.rgb.Green, sc.rgb.Blue, Some(1.0), tail.location, Some(tail.midpoint)), tail.at)))
  }

  /** One transparency stop: the `TrnS` searched from i, its opacity in percent, its location
      and midpoint; the colour channels are 0. */
  function AlphaStop(h: GrdHost, buf: seq<byte>, i: int, end: int): (r: Result<(ColorStop, nat), Exception>)
    requires 0 <= i && 0 <= end <= |buf|
    ensures r.Ok? ==> AlphaStopOk(r.value.0)
  {
    var o :- F64Field(h, buf, SkipTo(buf, i, TRNS_STOP, end), OPCT, 8, end);
    var tail :- StopTailAt(buf, o.at, end);
    Ok((ColorStop(0.0, 0.0, 0.0, Some(o.value / 100.0), tail.location, Some(tail.midpoint)), tail.at))
  }

  /** An entry of `positionsTrack`. */
  datatype PosMid = PosMid(Position: real, Midpoint: real)

  /** The stops pushed for stop j of n: a copy at 0 before the first stop unless it is at 0,
      the stop, and a copy at 1 after the last unless it is at 1. */
  function WithBoundaries(s: ColorStop, j: nat, n: nat): (r: seq<ColorStop>)
    ensures 1 <= |r| <= 3
    ensures j == 0 ==> r[0] == s.(Position := 0.0)
    ensures j + 1 == n ==> r[|r| - 1] == s.(Position := 1.0)
    ensures j != 0 ==> |r| <= 2
    ensures j + 1 != n ==> |r| <= 2
    ensures j != 0 && j + 1 != n ==> r == [s]
    ensures s in r
  {
    (if j == 0 && s.Position != 0.0 then [s.(Position := 0.0)] else [])
    + [s]
    + (if j + 1 == n && s.Position != 1.0 then [s.(Position := 1.0)] else [])
  }

  /** Every entry pushed for a stop is that stop, with only its position possibly moved. */
  lemma BoundaryEntries(s: ColorStop, j: nat, n: nat)
    ensures var r := WithBoundaries(s, j, n);
      forall k :: 0 <= k < |r| ==> r[k] == s.(Position := r[k].Position)
  {
  }

  function PosMidOf(s: ColorStop): PosMid {
    PosMid(s.Position, MidpointOf(s))
  }

  /** The positions track entries of some stops. */
  function PosMids(ss: seq<ColorStop>): (r: seq<PosMid>)
    ensures |r| == |ss|
  {
    if ss == [] then [] else PosMids(ss[..|ss| - 1]) + [PosMidOf(ss[|ss| - 1])]
  }

  /** Entry k of the positions is that of stop k. */
  lemma {:induction false} PosMidsIndex(ss: seq<ColorStop>)
    ensures forall k :: 0 <= k < |ss| ==> PosMids(ss)[k] == PosMidOf(ss[k])
    decreases |ss|
  {
    if ss != [] {
      PosMidsIndex(ss[..|ss| - 1]);
    }
  }

  /** The colour stops j..n-1 read from the cursor i, appended to those already `read`, and
      the cursor after them; none when the gradient is abandoned. All n stops are read, every
      one opaque and none before 0. */
  function ColourStopsFrom(h: GrdHost, buf: seq<byte>, i: int, end: int, j: nat, n: nat, read: seq<ColorStop>)
    : (r: Result<Option<(seq<ColorStop>, nat)>, Exception>)
    requires 0 <= i && 0 <= end <= |buf| && j <= n
    requires forall k :: 0 <= k < |read| ==> OpaqueStop(read[k])
    ensures r.Ok? && r.value.Some? ==> var stops := r.value.value.0;
      |stops| == |read| + (n - j) && forall k :: 0 <= k < |stops| ==> OpaqueStop(stops[k])
    decreases n - j, 1
  {
    if j == n then Ok(Some((read, i))) else NextColourStop(h, buf, i, end, j, n, read)
  }

  /** One turn of the colour-stop loop: stop j read at i, then the rest from the cursor after
      it. */
  function NextColourStop(h: GrdHost, buf: seq<byte>, i: int, end: int, j: nat, n: nat, read: seq<ColorStop>)
    : (r: Result<Option<(seq<ColorStop>, nat)>, Exception>)
    requires 0 <= i && 0 <= end <= |buf| && j < n
    requires forall k :: 0 <= k < |read| ==> OpaqueStop(read[k])
    ensures r.Ok? && r.value.Some? ==> var stops := r.value.value.0;
      |stops| == |read| + (n - j) && forall k :: 0 <= k < |stops| ==> OpaqueStop(stops[k])
    decreases n - j, 0
  {
    var c :- ColourStop(h, buf, i, end);
    match c
    case None => Ok(None)
    case Some((stop, next)) => ColourStopsFrom(h, buf, next, end, j + 1, n, read + [stop])
  }

  /** The transparency stops j..n-1 read from the cursor i after those already `read`, and
      the cursor after them. None sits before 0 and each has an opacity. */
  function AlphaStopsFrom(h: GrdHost, buf: seq<byte>, i: int, end: int, j: nat, n: nat, read: seq<ColorStop>)
    : (r: Result<(seq<ColorStop>, nat), Exception>)
    requires 0 <= i && 0 <= end <= |buf| && j <= n
    requires forall k :: 0 <= k < |read| ==> AlphaStopOk(read[k])
    ensures r.Ok? ==> var stops := r.value.0;
      |stops| == |read| + (n - j) && forall k :: 0 <= k < |stops| ==> AlphaStopOk(stops[k])
    decreases n - j, 1
  {
    if j == n then Ok((read, i)) else NextAlphaStop(h, buf, i, end, j, n, read)
  }

  /** One turn of the transparency-stop loop. */
  function NextAlphaStop(h: GrdHost, buf: seq<byte>, i: int, end: int, j: nat, n: nat, read: seq<ColorStop>)
    : (r: Result<(seq<ColorStop>, nat), Exception>)
    requires 0 <= i && 0 <= end <= |buf| && j < n
    requires forall k :: 0 <= k < |read| ==> AlphaStopOk(read[k])
    ensures r.Ok? ==> var stops := r.value.0;
      |stops| == |read| + (n - j) && forall k :: 0 <= k < |stops| ==> AlphaStopOk(stops[k])
    decreases n - j, 0
  {
    var (stop, next) :- AlphaStop(h, buf, i, end);
    AlphaStopsFrom(h, buf, next, end, j + 1, n, read + [stop])
  }

  /** The colour-stop loop's turn j as an equation: an exception or an abandoned stop ends
      the reading, a stop read moves it on. */
  lemma ColourStopsStep(h: GrdHost, buf: seq<byte>, i: int, end: int, j: nat, n: nat, read: seq<ColorStop>)
    requires 0 <= i && 0 <= end <= |buf| && j < n
    requires forall k :: 0 <= k < |read| ==> OpaqueStop(read[k])
    ensures var c := ColourStop(h, buf, i, end);
      && (c.Err? ==> ColourStopsFrom(h, buf, i, end, j, n, read) == Err(c.error))
      && (c.Ok? && c.value.None? ==> ColourStopsFrom(h, buf, i, end, j, n, read) == Ok(None))
      && (c.Ok? && c.value.Some? ==>
            (ColourStopsFrom(h, buf, i, end, j, n, read)
             == ColourStopsFrom(h, buf, c.value.value.1, end, j + 1, n, read + [c.value.value.0])))
  {
  }

  /** The transparency-stop loop's turn j as an equation. */
  lemma AlphaStopsStep(h: GrdHost, buf: seq<byte>, i: int, end: int, j: nat, n: nat, read: seq<ColorStop>)
    requires 0 <= i && 0 <= end <= |buf| && j < n
    requires forall k :: 0 <= k < |read| ==> AlphaStopOk(read[k])
    ensures var a := AlphaStop(h, buf, i, end);
      && (a.Err? ==> AlphaStopsFrom(h, buf, i, end, j, n, read) == Err(a.error))
      && (a.Ok? ==>
            (AlphaStopsFrom(h, buf, i, end, j, n, read)
             == AlphaStopsFrom(h, buf, a.value.1, end, j + 1, n, read + [a.value.0])))
  {
  }

  /** A track after the first |stops| of n stops were pushed, each with its boundary copies. */
  function Pushed(stops: seq<ColorStop>, n: nat): (track: seq<ColorStop>)
  {
    if stops == [] then [] else Pushed(stops[..|stops| - 1], n) + WithBoundaries(stops[|stops| - 1], |stops| - 1, n)
  }

  /** `colourTrack`, `transparencyTrack` and `positionsTrack`. */
  datatype Tracks = Tracks(colours: seq<ColorStop>, alphas: seq<ColorStop>, positions: seq<PosMid>)

  /** The tracks once the colour stops are read: no transparency stop yet, and a position
      entry for every colour entry. */
  function ColourTracks(stops: seq<ColorStop>): Tracks {
    var colours := Pushed(stops, |stops|);
    Tracks(colours, [], PosMids(colours))
  }

  /** The tracks once the transparency stops are read too: their positions follow the colour
      positions. */
  function WithAlphaTracks(t: Tracks, stops: seq<ColorStop>): Tracks {
    var alphas := Pushed(stops, |stops|);
    t.(alphas := alphas, positions := t.positions + PosMids(alphas))
  }

  /** The colour stops of a gradient, and the cursor after them, as tracks; none when the
      gradient is abandoned. */
  function ColourTracksAt(h: GrdHost, buf: seq<byte>, i: int, end: int, n: nat): Result<Option<(Tracks, nat)>, Exception>
    requires 0 <= i && 0 <= end <= |buf|
  {
    var read :- ColourStopsFrom(h, buf, i, end, 0, n, []);
    match read
    case None => Ok(None)
    case Some((stops, next)) => Ok(Some((ColourTracks(stops), next)))
  }

  /** The tracks t with the transparency stops of a gradient added, and the cursor after them. */
  function AlphaTracksAt(h: GrdHost, buf: seq<byte>, i: int, end: int, n: nat, t: Tracks): Result<(Tracks, nat), Exception>
    requires 0 <= i && 0 <= end <= |buf|
  {
    var (stops, next) :- AlphaStopsFrom(h, buf, i, end, 0, n, []);
    Ok((WithAlphaTracks(t, stops), next))
  }

  // ---------------------------------------------------------------- what the tracks hold

  /** After stops 0..j-1 of n, a track holds j stops and at most one copy (two once complete),
      it opens at 0 and, once complete, closes at 1, and no position is negative. */
  predicate TrackShape(track: seq<ColorStop>, j: nat, n: nat) {
    && (forall k :: 0 <= k < |track| ==> track[k].Position >= 0.0)
    && j <= |track| <= j + 2
    && (j < n ==> |track| <= j + 1)
    && (j == 0 ==> track == [])
    && (j > 0 ==> track[0].Position == 0.0)
    && (j == n > 0 ==> track[|track| - 1].Position == 1.0)
  }

  lemma AddStopShape(track: seq<ColorStop>, s: ColorStop, j: nat, n: nat)
    requires j < n && TrackShape(track, j, n) && s.Position >= 0.0
    ensures TrackShape(track + WithBoundaries(s, j, n), j + 1, n)
  {
    var w := WithBoundaries(s, j, n);
    var track' := track + w;
    forall k | 0 <= k < |track'|
      ensures track'[k].Position >= 0.0
    {
      if k >= |track| {
        assert track'[k] == w[k - |track|];
      }
    }
    if j == 0 {
      assert track'[0] == w[0];
    }
    if j + 1 == n {
      assert track'[|track'| - 1] == w[|w| - 1];
    }
  }

  /** Pushing stops none of which sits before 0 gives a track in that shape. */
  lemma {:induction false} PushedShape(stops: seq<ColorStop>, n: nat)
    requires |stops| <= n && forall k :: 0 <= k < |stops| ==> stops[k].Position >= 0.0
    ensures TrackShape(Pushed(stops, n), |stops|, n)
  {
    if stops != [] {
      var init, last := stops[..|stops| - 1], stops[|stops| - 1];
      PushedShape(init, n);
      AddStopShape(Pushed(init, n), last, |init|, n);
    }
  }

  /** Each entry of a pushed track is one of the stops, moved or not. */
  lemma {:induction false} PushedFrom(stops: seq<ColorStop>, n: nat)
    ensures forall x :: x in Pushed(stops, n) ==> exists k :: 0 <= k < |stops| && x == stops[k].(Position := x.Position)
  {
    if stops != [] {
      var init, last := stops[..|stops| - 1], stops[|stops| - 1];
      PushedFrom(init, n);
      var w := WithBoundaries(last, |init|, n);
      assert Pushed(stops, n) == Pushed(init, n) + w;
      forall x | x in Pushed(stops, n)
        ensures exists k :: 0 <= k < |stops| && x == stops[k].(Position := x.Position)
      {
        if x in Pushed(init, n) {
          var k :| 0 <= k < |init| && x == init[k].(Position := x.Position);
          assert stops[k] == init[k];
        } else {
          assert x in w;
          assert stops[|init|] == last;
        }
      }
    }
  }

  /** The first entry of a track is the first stop moved to 0, and once every stop is pushed
      the last entry is the last stop moved to 1, colour, opacity and midpoint unchanged. */
  lemma {:induction false} PushedEnds(stops: seq<ColorStop>, n: nat)
    requires 0 < |stops| <= n
    ensures Pushed(stops, n) != [] && Pushed(stops, n)[0] == stops[0].(Position := 0.0)
    ensures |stops| == n ==> Pushed(stops, n)[|Pushed(stops, n)| - 1] == stops[n - 1].(Position := 1.0)
  {
    var init, last := stops[..|stops| - 1], stops[|stops| - 1];
    var w := WithBoundaries(last, |init|, n);
    assert Pushed(stops, n) == Pushed(init, n) + w;
    if init == [] {
      assert Pushed(stops, n)[0] == w[0];
    } else {
      PushedEnds(init, n);
      assert Pushed(stops, n)[0] == Pushed(init, n)[0];
      assert init[0] == stops[0];
    }
  }

  /** Pushing opaque stops gives opaque entries. */
  lemma {:induction false} PushedOpaque(stops: seq<ColorStop>, n: nat)
    requires forall k :: 0 <= k < |stops| ==> OpaqueStop(stops[k])
    ensures forall k :: 0 <= k < |Pushed(stops, n)| ==> Pushed(stops, n)[k].Alpha == Some(1.0)
  {
    if stops != [] {
      var init, last := stops[..|stops| - 1], stops[|stops| - 1];
      PushedOpaque(init, n);
      var w := WithBoundaries(last, |init|, n);
      BoundaryEntries(last, |init|, n);
      assert Pushed(stops, n) == Pushed(init, n) + w;
      forall k | 0 <= k < |Pushed(stops, n)|
        ensures Pushed(stops, n)[k].Alpha == Some(1.0)
      {
        if k >= |Pushed(init, n)| {
          assert Pushed(stops, n)[k] == w[k - |Pushed(init, n)|];
        }
      }
    }
  }

  /** Pushing transparency stops gives entries that all have an opacity. */
  lemma {:induction false} PushedWithAlpha(stops: seq<ColorStop>, n: nat)
    requires forall k :: 0 <= k < |stops| ==> AlphaStopOk(stops[k])
    ensures forall k :: 0 <= k < |Pushed(stops, n)| ==> Pushed(stops, n)[k].Alpha.Some?
  {
    if stops != [] {
      var init, last := stops[..|stops| - 1], stops[|stops| - 1];
      PushedWithAlpha(init, n);
      var w := WithBoundaries(last, |init|, n);
      BoundaryEntries(last, |init|, n);
      assert Pushed(stops, n) == Pushed(init, n) + w;
      forall k | 0 <= k < |Pushed(stops, n)|
        ensures Pushed(stops, n)[k].Alpha.Some?
      {
        if k >= |Pushed(init, n)| {
          assert Pushed(stops, n)[k] == w[k - |Pushed(init, n)|];
        }
      }
    }
  }

  /** A complete colour track runs from 0 to 1 through n to n + 2 opaque entries, and the
      positions track lists exactly their positions and midpoints. */
  lemma ColourTracksShape(h: GrdHost, buf: seq<byte>, i: int, end: int, n: nat)
    requires 0 <= i && 0 <= end <= |buf|
    ensures var r := ColourTracksAt(h, buf, i, end, n);
      r.Ok? && r.value.Some? ==> var t := r.value.value.0;
        && TrackShape(t.colours, n, n) && t.alphas == [] && t.positions == PosMids(t.colours)
        && (forall k :: 0 <= k < |t.colours| ==> t.colours[k].Alpha == Some(1.0))
        && (n > 0 ==> var stops := ColourStopsFrom(h, buf, i, end, 0, n, []).value.value.0;
              && t.colours[0] == stops[0].(Position := 0.0)
              && t.colours[|t.colours| - 1] == stops[n - 1].(Position := 1.0))
  {
    var read := ColourStopsFrom(h, buf, i, end, 0, n, []);
    if read.Ok? && read.value.Some? {
      var stops := read.value.value.0;
      PushedShape(stops, n);
      PushedOpaque(stops, n);
      if n > 0 {
        PushedEnds(stops, n);
      }
    }
  }

  /** Adding the transparency stops keeps the colour track, gives a transparency track in the
      same shape, and lists the colour positions first and the transparency positions after. */
  lemma AlphaTracksShape(h: GrdHost, buf: seq<byte>, i: int, end: int, n: nat, t: Tracks)
    requires 0 <= i && 0 <= end <= |buf|
    ensures var r := AlphaTracksAt(h, buf, i, end, n, t);
      r.Ok? ==> var t' := r.value.0;
        && t'.colours == t.colours && t'.positions == t.positions + PosMids(t'.alphas)
        && TrackShape(t'.alphas, n, n)
        && (forall k :: 0 <= k < |t'.alphas| ==> t'.alphas[k].Alpha.Some?)
        && (n > 0 ==> var stops := AlphaStopsFrom(h, buf, i, end, 0, n, []).value.0;
              && t'.alphas[0] == stops[0].(Position := 0.0)
              && t'.alphas[|t'.alphas| - 1] == stops[n - 1].(Position := 1.0))
  {
    var read := AlphaStopsFrom(h, buf, i, end, 0, n, []);
    if read.Ok? {
      var stops := read.value.0;
      PushedShape(stops, n);
      PushedWithAlpha(stops, n);
      if n > 0 {
        PushedEnds(stops, n);
      }
    }
  }

  lemma PosMidsAppend(a: seq<ColorStop>, b: seq<ColorStop>)
    ensures PosMids(a + b) == PosMids(a) + PosMids(b)
  {
    assert |PosMids(a + b)| == |PosMids(a) + PosMids(b)|;
    PosMidsIndex(a + b);
    PosMidsIndex(a);
    PosMidsIndex(b);
    forall k | 0 <= k < |a + b|
      ensures PosMids(a + b)[k] == (PosMids(a) + PosMids(b))[k]
    {
      if k >= |a| {
        assert (a + b)[k] == b[k - |a|];
      }
    }
  }

  /** Pushing one more stop appends its boundary copies to the track and their entries to the
      positions. */
  lemma PushedSnoc(stops: seq<ColorStop>, s: ColorStop, n: nat)
    ensures Pushed(stops + [s], n) == Pushed(stops, n) + WithBoundaries(s, |stops|, n)
    ensures PosMids(Pushed(stops + [s], n)) == PosMids(Pushed(stops, n)) + PosMids(WithBoundaries(s, |stops|, n))
  {
    assert (stops + [s])[..|stops|] == stops;
    PosMidsAppend(Pushed(stops, n), WithBoundaries(s, |stops|, n));
  }

  // ---------------------------------------------------------------- what the colour fields hold

  /** The eight bytes at `at` lie within the buffer and the host reads them as x. */
  predicate HoldsDouble(h: GrdHost, buf: seq<byte>, at: int, x: real) {
    0 <= at && at + 8 <= |buf| && h.getFloat64(buf[at..at + 8]) == x
  }

  /** A field sits `skip` bytes after the first `tag` the scan finds from i (or after the end
      of the range when there is none) and is the double stored there; reading it fails, with
      a RangeError, exactly when those eight bytes run past the buffer. */
  lemma F64FieldValue(h: GrdHost, buf: seq<byte>, i: int, tag: nat, skip: nat, end: int)
    requires 0 <= i && 0 <= end <= |buf|
    ensures var r := F64Field(h, buf, i, tag, skip, end);
      && (r.Ok? <==> SkipTo(buf, i, tag, end) + skip + 8 <= |buf|)
      && (r.Err? ==> r.error == RangeError)
      && (r.Ok? ==> r.value.at >= skip && IsSkipResult(buf, i, tag, end, r.value.at - skip)
                    && HoldsDouble(h, buf, r.value.at, r.value.value))
  {
    SkipToIsSkipResult(buf, i, tag, end);
  }

  /** What a field read gives, without where its tag was found: the double at the cursor it
      returns, or a RangeError. */
  lemma F64FieldRead(h: GrdHost, buf: seq<byte>, i: int, tag: nat, skip: nat, end: int)
    requires 0 <= i && 0 <= end <= |buf|
    ensures var r := F64Field(h, buf, i, tag, skip, end);
      && (r.Err? ==> r.error == RangeError)
      && (r.Ok? ==> HoldsDouble(h, buf, r.value.at, r.value.value))
  {
  }

  /** An RGB colour's channels are the three doubles stored at the red cursor and after the
      next `Grn ` and `Bl  ` tags, each divided by 255. */
  lemma RgbFromValues(h: GrdHost, buf: seq<byte>, redAt: int, end: int)
    requires 0 <= redAt && 0 <= end <= |buf|
    ensures var r := RgbFrom(h, buf, redAt, end);
      && (r.Err? ==> r.error == RangeError)
      && (r.Ok? ==> var c := r.value.rgb;
            && HoldsDouble(h, buf, redAt, c.Red * 255.0)
            && HoldsDouble(h, buf, r.value.at, c.Blue * 255.0)
            && exists g, x :: HoldsDouble(h, buf, g, x) && c.Green == x / 255.0
                 && IsSkipResult(buf, redAt, GRN, end, g - 4)
                 && IsSkipResult(buf, g, BL, end, r.value.at - 4))
  {
    var r := RgbFrom(h, buf, redAt, end);
    F64FieldValue(h, buf, redAt, GRN, 4, end);
    var green := F64Field(h, buf, redAt, GRN, 4, end);
    if green.Ok? {
      F64FieldValue(h, buf, green.value.at, BL, 4, end);
      if r.Ok? {
        assert HoldsDouble(h, buf, green.value.at, green.value.value);
      }
    }
  }

  /** Against `HSVtoRGB` as written: where the stored hue is at least 0 the colour is the one
      it returns; a stored hue in [-60, 0) degrees is where it leaves the channels undefined.
      With saturation and brightness within 0..100 every channel lies in [0, 1]. */
  lemma HsbColourAsWritten(h: GrdHost, buf: seq<byte>, i: int, end: int)
    requires 0 <= i && 0 <= end <= |buf|
    ensures var r := HsbColour(h, buf, i, end);
      && (r.Err? ==> r.error == RangeError)
      && (r.Ok? ==>
            var hue := F64Field(h, buf, i, HUE, 8, end).value;
            var sat := F64Field(h, buf, hue.at, STRT, 4, end).value;
            var bri := F64Field(h, buf, sat.at, BRGH, 4, end).value;
            var c := r.value.rgb;
            && bri.at == r.value.at
            && (hue.value >= 0.0 ==> HsvToRgb(hue.value / 360.0, sat.value / 100.0, bri.value / 100.0) == Some(c))
            && (-60.0 <= hue.value < 0.0 ==> HsvToRgb(hue.value / 360.0, sat.value / 100.0, bri.value / 100.0) == None)
            && (0.0 <= sat.value <= 100.0 && 0.0 <= bri.value <= 100.0 ==>
                  InUnit(c.Red) && InUnit(c.Green) && InUnit(c.Blue)))
  {
    var r := HsbColour(h, buf, i, end);
    F64FieldRead(h, buf, i, HUE, 8, end);
    if r.Ok? {
      var hue := F64Field(h, buf, i, HUE, 8, end).value;
      var sat := F64Field(h, buf, hue.at, STRT, 4, end).value;
      var bri := F64Field(h, buf, sat.at, BRGH, 4, end).value;
      HsvToRgbWrappedTurn(hue.value / 360.0, sat.value / 100.0, bri.value / 100.0);
    } else {
      var hue := F64Field(h, buf, i, HUE, 8, end);
      if hue.Ok? {
        F64FieldRead(h, buf, hue.value.at, STRT, 4, end);
        var sat := F64Field(h, buf, hue.value.at, STRT, 4, end);
        if sat.Ok? {
          F64FieldRead(h, buf, sat.value.at, BRGH, 4, end);
        }
      }
    }
  }

  /** Reading an RGB triple that starts less than four bytes past the record end moves the
      cursor past the red field. */
  lemma RgbFromAdvances(h: GrdHost, buf: seq<byte>, redAt: int, end: int)
    requires 0 <= redAt && 0 <= end <= |buf|
    ensures RgbFrom(h, buf, redAt, end).Ok? && redAt < end + 4 ==> RgbFrom(h, buf, redAt, end).value.at > redAt
  {
    var r := RgbFrom(h, buf, redAt, end);
    if r.Ok? && redAt < end + 4 {
      var green := F64Field(h, buf, redAt, GRN, 4, end).value;
      assert green.at > redAt;
    }
  }

  /** A Book Color falls back to grey, the cursor staying where it was, exactly when no `Rd  `
      starts before the last four bytes of the window of 300 bytes (cut at the record end). */
  lemma BookColourGrey(h: GrdHost, buf: seq<byte>, i: nat, end: int)
    requires 0 <= end <= |buf|
    ensures var bookEnd := if i + BOOK_WINDOW < end then i + BOOK_WINDOW else end;
      BookColour(h, buf, i, end) == Ok(StopColour(BOOK_GREY, i)) <==> NoTagIn(buf, i, bookEnd - 4, RD)
  {
    var bookEnd := if i + BOOK_WINDOW < end then i + BOOK_WINDOW else end;
    var bookRd := SkipTo(buf, i, RD, bookEnd);
    SkipToIsSkipResult(buf, i, RD, bookEnd);
    if bookRd < end && bookRd < i + BOOK_WINDOW {
      RgbFromAdvances(h, buf, bookRd + 4, end);
      assert TagAt(buf, bookRd - 4, RD);
    }
  }

  /** The four inks give channels in [0, 1], and a stored black of 100 percent, the last field
      read, gives black. */
  lemma CmykColourValues(h: GrdHost, buf: seq<byte>, i: int, end: int)
    requires 0 <= i && 0 <= end <= |buf|
    ensures var r := CmykColour(h, buf, i, end);
      && (r.Err? ==> r.error == RangeError)
      && (r.Ok? ==> var c := r.value.rgb;
            && InUnit(c.Red) && InUnit(c.Green) && InUnit(c.Blue)
            && (HoldsDouble(h, buf, r.value.at, 100.0) ==> c == Rgb(0.0, 0.0, 0.0)))
  {
    var cy := F64Field(h, buf, i, CYN, 8, end);
    F64FieldRead(h, buf, i, CYN, 8, end);
    if cy.Ok? {
      var mg := F64Field(h, buf, cy.value.at, MGNT, 8, end);
      F64FieldRead(h, buf, cy.value.at, MGNT, 8, end);
      if mg.Ok? {
        var yl := F64Field(h, buf, mg.value.at, YLW, 8, end);
        F64FieldRead(h, buf, mg.value.at, YLW, 8, end);
        if yl.Ok? {
          F64FieldRead(h, buf, yl.value.at, BLCK, 8, end);
        }
      }
    }
  }

  /** A grey stop has three equal channels: the double stored after `Gry ` divided by 100. */
  lemma GreyColourValues(h: GrdHost, buf: seq<byte>, i: int, end: int)
    requires 0 <= i && 0 <= end <= |buf|
    ensures var r := GreyColour(h, buf, i, end);
      && (r.Err? ==> r.error == RangeError)
      && (r.Ok? ==> var c := r.value.rgb;
            && c.Red == c.Green == c.Blue
            && HoldsDouble(h, buf, r.value.at, c.Red * 100.0)
            && IsSkipResult(buf, i, GRY, end, r.value.at - 8))
  {
    F64FieldValue(h, buf, i, GRY, 8, end);
  }

  /** A Lab stop is the host's conversion of the three doubles stored after `Lmnc`, `A   `
      and `B   `, unscaled. */
  lemma LabColourValues(h: GrdHost, buf: seq<byte>, i: int, end: int)
    requires 0 <= i && 0 <= end <= |buf|
    ensures var r := LabColour(h, buf, i, end);
      && (r.Err? ==> r.error == RangeError)
      && (r.Ok? ==>
            var l := F64Field(h, buf, i, LMNC, 8, end).value;
            var a := F64Field(h, buf, l.at, A_CH, 4, end).value;
            && HoldsDouble(h, buf, l.at, l.value)
            && HoldsDouble(h, buf, a.at, a.value)
            && exists b :: HoldsDouble(h, buf, r.value.at, b) && r.value.rgb == h.labToRgb(l.value, a.value, b))
  {
    var l := F64Field(h, buf, i, LMNC, 8, end);
    F64FieldRead(h, buf, i, LMNC, 8, end);
    if l.Ok? {
      var a := F64Field(h, buf, l.value.at, A_CH, 4, end);
      F64FieldRead(h, buf, l.value.at, A_CH, 4, end);
      if a.Ok? {
        F64FieldRead(h, buf, a.value.at, B_CH, 4, end);
      }
    }
  }

  // ---------------------------------------------------------------- the methods

  method ReadF64Field(h: GrdHost, buf: seq<byte>, i: int, tag: nat, skip: nat, end: int) returns (r: Result<Field, Exception>)
    requires 0 <= i && 0 <= end <= |buf|
    ensures r == F64Field(h, buf, i, tag, skip, end)
  {
    var at := SkipToChunkInRange(buf, i, tag, end);
    at := at + skip;
    if at + 8 > |buf| {
      return Err(RangeError);
    }
    return Ok(Field(h.getFloat64(buf[at..at + 8]), at));
  }

  method ReadU32Field(buf: seq<byte>, i: int, tag: nat, skip: nat, end: int) returns (r: Result<Field, Exception>)
    requires 0 <= i && 0 <= end <= |buf|
    ensures r == U32Field(buf, i, tag, skip, end)
  {
    var at := SkipToChunkInRange(buf, i, tag, end);
    at := at + skip;
    if at + 4 > |buf| {
      return Err(RangeError);
    }
    return Ok(Field(U32BE(buf, at) as real, at));
  }

  method ReadRgb(h: GrdHost, buf: seq<byte>, redAt: int, end: int) returns (r: Result<StopColour, Exception>)
    requires 0 <= redAt && 0 <= end <= |buf|
    ensures r == RgbFrom(h, buf, redAt, end)
  {
    if redAt + 8 > |buf| {
      return Err(RangeError);
    }
    var red := h.getFloat64(buf[redAt..redAt + 8]) / 255.0;
    var green :- ReadF64Field(h, buf, redAt, GRN, 4, end);
    var blue :- ReadF64Field(h, buf, green.at, BL, 4, end);
    return Ok(StopColour(Rgb(red, green.value / 255.0, blue.value / 255.0), blue.at));
  }

  method ReadHsb(h: GrdHost, buf: seq<byte>, i: int, end: int) returns (r: Result<StopColour, Exception>)
    requires 0 <= i && 0 <= end <= |buf|
    ensures r == HsbColour(h, buf, i, end)
  {
    var hue :- ReadF64Field(h, buf, i, HUE, 8, end);
    var sat :- ReadF64Field(h, buf, hue.at, STRT, 4, end);
    var bri :- ReadF64Field(h, buf, sat.at, BRGH, 4, end);
    return Ok(StopColour(HsvToRgbWrapped(hue.value / 360.0, sat.value / 100.0, bri.value / 100.0), bri.at));
  }

  method ReadBook(h: GrdHost, buf: seq<byte>, i: nat, end: int) returns (r: Result<StopColour, Exception>)
    requires 0 <= end <= |buf|
    ensures r == BookColour(h, buf, i, end)
  {
    var bookRd := SkipToChunkInRange(buf, i, RD, if i + BOOK_WINDOW < end then i + BOOK_WINDOW else end);
    if bookRd < end && bookRd < i + BOOK_WINDOW {
      r := ReadRgb(h, buf, bookRd + 4, end);
    } else {
      r := Ok(StopColour(BOOK_GREY, i));
    }
  }

  method ReadCmyk(h: GrdHost, buf: seq<byte>, i: int, end: int) returns (r: Result<StopColour, Exception>)
    requires 0 <= i && 0 <= end <= |buf|
    ensures r == CmykColour(h, buf, i, end)
  {
    var c :- ReadF64Field(h, buf, i, CYN, 8, end);
    var m :- ReadF64Field(h, buf, c.at, MGNT, 8, end);
    var y :- ReadF64Field(h, buf, m.at, YLW, 8, end);
    var k :- ReadF64Field(h, buf, y.at, BLCK, 8, end);
    return Ok(StopColour(CmykToRgb(c.value / 100.0, m.value / 100.0, y.value / 100.0, k.value / 100.0), k.at));
  }

  method ReadGrey(h: GrdHost, buf: seq<byte>, i: int, end: int) returns (r: Result<StopColour, Exception>)
    requires 0 <= i && 0 <= end <= |buf|
    ensures r == GreyColour(h, buf, i, end)
  {
    var g :- ReadF64Field(h, buf, i, GRY, 8, end);
    var grey := g.value / 100.0;
    return Ok(StopColour(Rgb(grey, grey, grey), g.at));
  }

  method ReadLab(h: GrdHost, buf: seq<byte>, i: int, end: int) returns (r: Result<StopColour, Exception>)
    requires 0 <= i && 0 <= end <= |buf|
    ensures r == LabColour(h, buf, i, end)
  {
    var l :- ReadF64Field(h, buf, i, LMNC, 8, end);
    var a :- ReadF64Field(h, buf, l.at, A_CH, 4, end);
    var b :- ReadF64Field(h, buf, a.at, B_CH, 4, end);
    return Ok(StopColour(h.labToRgb(l.value, a.value, b.value), b.at));
  }

  /** The `if (format == ...)` chain of the stop loop. */
  method ReadColourOfFormat(h: GrdHost, buf: seq<byte>, i: nat, format: nat, end: int) returns (r: Result<Option<StopColour>, Exception>)
    requires 0 <= end <= |buf|
    ensures r == ColourOfFormat(h, buf, i, format, end)
  {
    var c: Result<StopColour, Exception>;
    if format == HSBC {
      c := ReadHsb(h, buf, i, end);
    } else if format == RGBC {
      var rd := SkipToChunkInRange(buf, i, RD, end);
      c := ReadRgb(h, buf, rd + 4, end);
    } else if format == BKCL {
      c := ReadBook(h, buf, i, end);
    } else if format == CMYC {
      c := ReadCmyk(h, buf, i, end);
    } else if format == GRSC {
      c := ReadGrey(h, buf, i, end);
    } else if format == LBCL {
      c := ReadLab(h, buf, i, end);
    } else {
      return Ok(None);
    }
    var colour :- c;
    return Ok(Some(colour));
  }

  method ReadColour(h: GrdHost, buf: seq<byte>, i: int, end: int) returns (r: Result<Option<StopColour>, Exception>)
    requires 0 <= i && 0 <= end <= |buf|
    ensures r == ColourAt(h, buf, i, end)
  {
    var at := SkipToChunkInRange(buf, i, CLRT, end);
    at := at + CLRT_PAD;
    if at >= end {
      return Ok(None);
    }
    if at + 4 > |buf| {
      return Err(RangeError);
    }
    var format := U32BE(buf, at);
    r := ReadColourOfFormat(h, buf, at, format, end);
  }

  method ReadStopTail(buf: seq<byte>, i: int, end: int) returns (r: Result<StopTail, Exception>)
    requires 0 <= i && 0 <= end <= |buf|
    ensures r == StopTailAt(buf, i, end)
  {
    var l :- ReadU32Field(buf, i, LCTN, 4, end);
    var m :- ReadU32Field(buf, l.at, MDPN, 4, end);
    return Ok(StopTail(l.value / 4096.0, m.value / 100.0, m.at));
  }

  method ReadColourStop(h: GrdHost, buf: seq<byte>, i: int, end: int) returns (r: Result<Option<(ColorStop, nat)>, Exception>)
    requires 0 <= i && 0 <= end <= |buf|
    ensures r == ColourStop(h, buf, i, end)
  {
    var c :- ReadColour(h, buf, i, end);
    if c.None? {
      return Ok(None);
    }
    var rgb := c.value.rgb;
    var tail :- ReadStopTail(buf, c.value.at, end);
    return Ok(Some((ColorStop(rgb.Red, rgb.Green, rgb.Blue, Some(1.0), tail.location, Some(tail.midpoint)), tail.at)));
  }

  method ReadAlphaStop(h: GrdHost, buf: seq<byte>, i: int, end: int) returns (r: Result<(ColorStop, nat), Exception>)
    requires 0 <= i && 0 <= end <= |buf|
    ensures r == AlphaStop(h, buf, i, end)
  {
    var at := SkipToChunkInRange(buf, i, TRNS_STOP, end);
    var o :- ReadF64Field(h, buf, at, OPCT, 8, end);
    var tail :- ReadStopTail(buf, o.at, end);
    return Ok((ColorStop(0.0, 0.0, 0.0, Some(o.value / 100.0), tail.location, Some(tail.midpoint)), tail.at));
  }

  /** One stop's pushes onto a track and onto `positionsTrack`, in the source's order. */
  method PushStop(track: seq<ColorStop>, positions: seq<PosMid>, s: ColorStop, j: nat, n: nat)
    returns (track': seq<ColorStop>, positions': seq<PosMid>)
    ensures track' == track + WithBoundaries(s, j, n)
    ensures positions' == positions + PosMids(WithBoundaries(s, j, n))
  {
    track', positions' := track, positions;
    if j == 0 && s.Position != 0.0 {
      track' := track' + [s.(Position := 0.0)];
      positions' := positions' + [PosMid(0.0, MidpointOf(s))];
    }
    track' := track' + [s];
    positions' := positions' + [PosMidOf(s)];
    if j + 1 == n && s.Position != 1.0 {
      track' := track' + [s.(Position := 1.0)];
      positions' := positions' + [PosMid(1.0, MidpointOf(s))];
    }
    PosMidsOfBoundaries(positions, s, j, n, positions');
  }

  /** The positions pushed one by one are those of the stops pushed. */
  lemma PosMidsOfBoundaries(positions: seq<PosMid>, s: ColorStop, j: nat, n: nat, positions': seq<PosMid>)
    requires positions' == positions
      + (if j == 0 && s.Position != 0.0 then [PosMid(0.0, MidpointOf(s))] else [])
      + [PosMidOf(s)]
      + (if j + 1 == n && s.Position != 1.0 then [PosMid(1.0, MidpointOf(s))] else [])
    ensures positions' == positions + PosMids(WithBoundaries(s, j, n))
  {
    var pre := if j == 0 && s.Position != 0.0 then [PosMid(0.0, MidpointOf(s))] else [];
    var post := if j + 1 == n && s.Position != 1.0 then [PosMid(1.0, MidpointOf(s))] else [];
    var before := if j == 0 && s.Position != 0.0 then [s.(Position := 0.0)] else [];
    var after := if j + 1 == n && s.Position != 1.0 then [s.(Position := 1.0)] else [];
    assert WithBoundaries(s, j, n) == before + [s] + after;
    PosMidsAround(before, s, after);
    BoundaryPosMid(s, 0.0, before, j == 0 && s.Position != 0.0);
    BoundaryPosMid(s, 1.0, after, j + 1 == n && s.Position != 1.0);
    AppendAssoc(positions, pre + [PosMidOf(s)], post);
    AppendAssoc(positions, pre, [PosMidOf(s)]);
  }

  /** The positions of a stop between two runs of stops. */
  lemma PosMidsAround(before: seq<ColorStop>, s: ColorStop, after: seq<ColorStop>)
    ensures PosMids(before + [s] + after) == PosMids(before) + [PosMidOf(s)] + PosMids(after)
  {
    PosMidsAppend(before + [s], after);
    PosMidsAppend(before, [s]);
    PosMidsSingle(s);
  }

  /** The positions of a boundary copy of s at p, present or not. */
  lemma BoundaryPosMid(s: ColorStop, p: real, copy: seq<ColorStop>, present: bool)
    requires copy == if present then [s.(Position := p)] else []
    ensures PosMids(copy) == if present then [PosMid(p, MidpointOf(s))] else []
  {
    if present {
      PosMidsSingle(s.(Position := p));
    }
  }

  /** The positions entry of a single stop. */
  lemma PosMidsSingle(s: ColorStop)
    ensures PosMids([s]) == [PosMidOf(s)]
  {
    assert [s][..0] == [];
  }

  /** Colour stop j read at i, and what it leaves of the rest of the reading. */
  method ReadColourTurn(h: GrdHost, buf: seq<byte>, i: int, end: int, j: nat, n: nat, ghost read: seq<ColorStop>)
    returns (c: Result<Option<(ColorStop, nat)>, Exception>)
    requires 0 <= i && 0 <= end <= |buf| && j < n
    requires forall k :: 0 <= k < |read| ==> OpaqueStop(read[k])
    ensures c.Err? ==> ColourStopsFrom(h, buf, i, end, j, n, read) == Err(c.error)
    ensures c.Ok? && c.value.None? ==> ColourStopsFrom(h, buf, i, end, j, n, read) == Ok(None)
    ensures c.Ok? && c.value.Some? ==> OpaqueStop(c.value.value.0)
    ensures c.Ok? && c.value.Some? ==>
      ColourStopsFrom(h, buf, i, end, j, n, read)
        == ColourStopsFrom(h, buf, c.value.value.1, end, j + 1, n, read + [c.value.value.0])
  {
    ColourStopsStep(h, buf, i, end, j, n, read);
    c := ReadColourStop(h, buf, i, end);
  }

  /** One colour stop pushed onto the tracks, which hold the stops read before it. */
  method PushColourTurn(ghost read: seq<ColorStop>, stop: ColorStop, track: seq<ColorStop>, positions: seq<PosMid>, j: nat, n: nat)
    returns (track': seq<ColorStop>, positions': seq<PosMid>)
    requires j == |read| && track == Pushed(read, n) && positions == PosMids(track)
    ensures track' == Pushed(read + [stop], n) && positions' == PosMids(track')
  {
    PushedSnoc(read, stop, n);
    track', positions' := PushStop(track, positions, stop, j, n);
  }

  /** The colour-stop loop, `j < colourCount`, which breaks with `shouldAbort` set. */
  method ReadColourStops(h: GrdHost, buf: seq<byte>, i0: int, end: int, n: nat)
    returns (r: Result<Option<(Tracks, nat)>, Exception>)
    requires 0 <= i0 && 0 <= end <= |buf|
    ensures r == ColourTracksAt(h, buf, i0, end, n)
  {
    var i := i0;
    var colourTrack: seq<ColorStop> := [];
    var positionsTrack: seq<PosMid> := [];
    ghost var read: seq<ColorStop> := [];
    for j := 0 to n
      invariant 0 <= i && |read| == j && forall k :: 0 <= k < |read| ==> OpaqueStop(read[k])
      invariant ColourStopsFrom(h, buf, i0, end, 0, n, []) == ColourStopsFrom(h, buf, i, end, j, n, read)
      invariant colourTrack == Pushed(read, n) && positionsTrack == PosMids(colourTrack)
    {
      var c :- ReadColourTurn(h, buf, i, end, j, n, read);
      if c.None? {
        return Ok(None);
      }
      var (stop, next) := c.value;
      colourTrack, positionsTrack := PushColourTurn(read, stop, colourTrack, positionsTrack, j, n);
      read := read + [stop];
      i := next;
    }
    return Ok(Some((Tracks(colourTrack, [], positionsTrack), i)));
  }

  /** Transparency stop j read at i, and what it leaves of the rest of the reading. */
  method ReadAlphaTurn(h: GrdHost, buf: seq<byte>, i: int, end: int, j: nat, n: nat, ghost read: seq<ColorStop>)
    returns (a: Result<(ColorStop, nat), Exception>)
    requires 0 <= i && 0 <= end <= |buf| && j < n
    requires forall k :: 0 <= k < |read| ==> AlphaStopOk(read[k])
    ensures a.Err? ==> AlphaStopsFrom(h, buf, i, end, j, n, read) == Err(a.error)
    ensures a.Ok? ==> AlphaStopOk(a.value.0)
    ensures a.Ok? ==>
      AlphaStopsFrom(h, buf, i, end, j, n, read) == AlphaStopsFrom(h, buf, a.value.1, end, j + 1, n, read + [a.value.0])
  {
    AlphaStopsStep(h, buf, i, end, j, n, read);
    a := ReadAlphaStop(h, buf, i, end);
  }

  /** One transparency stop pushed onto the tracks, whose positions hold those of the
      colour track in front. */
  method PushAlphaTurn(ghost read: seq<ColorStop>, stop: ColorStop, track: seq<ColorStop>, positions: seq<PosMid>,
                       ghost front: seq<PosMid>, j: nat, n: nat)
    returns (track': seq<ColorStop>, positions': seq<PosMid>)
    requires j == |read| && track == Pushed(read, n) && positions == front + PosMids(track)
    ensures track' == Pushed(read + [stop], n) && positions' == front + PosMids(track')
  {
    PushedSnoc(read, stop, n);
    track', positions' := PushStop(track, positions, stop, j, n);
    AppendAssoc(front, PosMids(track), PosMids(WithBoundaries(stop, j, n)));
  }

  /** The transparency-stop loop, `j < transparencyCount`, pushing onto the tracks t. */
  method ReadAlphaStops(h: GrdHost, buf: seq<byte>, i0: int, end: int, n: nat, t: Tracks)
    returns (r: Result<(Tracks, nat), Exception>)
    requires 0 <= i0 && 0 <= end <= |buf|
    ensures r == AlphaTracksAt(h, buf, i0, end, n, t)
  {
    var i := i0;
    var transparencyTrack: seq<ColorStop> := [];
    var positionsTrack := t.positions;
    ghost var read: seq<ColorStop> := [];
    for j := 0 to n
      invariant 0 <= i && |read| == j && forall k :: 0 <= k < |read| ==> AlphaStopOk(read[k])
      invariant AlphaStopsFrom(h, buf, i0, end, 0, n, []) == AlphaStopsFrom(h, buf, i, end, j, n, read)
      invariant transparencyTrack == Pushed(read, n) && positionsTrack == t.positions + PosMids(transparencyTrack)
    {
      var a :- ReadAlphaTurn(h, buf, i, end, j, n, read);
      var (stop, next) := a;
      transparencyTrack, positionsTrack := PushAlphaTurn(read, stop, transparencyTrack, positionsTrack, t.positions, j, n);
      read := read + [stop];
      i := next;
    }
    return Ok((t.(alphas := transparencyTrack, positions := positionsTrack), i));
  }
}
