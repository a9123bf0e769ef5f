/** `parseGrdArrayBuffer`: the header checks, then one gradient per `Grdn` record (its name,
    its colour stops and, when present, its transparency stops merged with them), each given
    the group the preset hierarchy assigns it, and the group summary. */
module GrdReader {
  import opened Wrappers
  import opened Js
  import opened Bytes
  import opened GrdScan
  import opened Colour
  import opened GrdStops
  import opened GrdMerge
  import opened GrdHierarchy
  import opened GrdGroups

  /** Why the reader gives up on a file. The first three are reported to the user; the last is
      an exception from a read past the end of the buffer, which ends the parse as well. */
  datatype LoadError = NotRecognised | OldVersion | UnsupportedVersion | Thrown(e: Exception)

  const GRD_VERSION: nat := 5
  /** The version Photoshop 5 and earlier write, which gets a message of its own. */
  const OLD_GRD_VERSION: nat := 3
  const DESCRIPTOR_MAGIC: nat := 16

  /** The header: '8BGR', a 16-bit version that must be 5, and a 32-bit descriptor marker
      that must be 16. A buffer too short for the field the checks reach throws. */
  function Header(buf: seq<byte>): (r: Result<(), LoadError>)
    ensures r.Ok? <==>
      |buf| >= 10 && U32BE(buf, 0) == MAGIC_8BGR && U16BE(buf, 4) == GRD_VERSION && U32BE(buf, 6) == DESCRIPTOR_MAGIC
    ensures r == Err(OldVersion) <==> |buf| >= 6 && U32BE(buf, 0) == MAGIC_8BGR && U16BE(buf, 4) == OLD_GRD_VERSION
    ensures r == Err(Thrown(RangeError)) <==>
      || |buf| < 4
      || (U32BE(buf, 0) == MAGIC_8BGR && |buf| < 6)
      || (U32BE(buf, 0) == MAGIC_8BGR && U16BE(buf, 4) == GRD_VERSION && |buf| < 10)
  {
    if |buf| < 4 then Err(Thrown(RangeError))
    else if U32BE(buf, 0) != MAGIC_8BGR then Err(NotRecognised)
    else if |buf| < 6 then Err(Thrown(RangeError))
    else if U16BE(buf, 4) != GRD_VERSION then
      if U16BE(buf, 4) == OLD_GRD_VERSION then Err(OldVersion) else Err(UnsupportedVersion)
    else if |buf| < 10 then Err(Thrown(RangeError))
    else if U32BE(buf, 6) != DESCRIPTOR_MAGIC then Err(NotRecognised)
    else Ok(())
  }

  // ---------------------------------------------------------------- what a gradient holds

  /** Some stop of cs sits at x. */
  predicate HasStopAt(cs: seq<ColorStop>, x: real) {
    exists k :: 0 <= k < |cs| && cs[k].Position == x
  }

  /** The stops of a gradient the reader keeps: one at 0 and one at 1 (the source adds them
      because Affinity Designer needs them), none before 0, and every one with an opacity. */
  ghost predicate SpansUnit(cs: seq<ColorStop>) {
    && HasStopAt(cs, 0.0) && HasStopAt(cs, 1.0)
    && (forall k :: 0 <= k < |cs| ==> cs[k].Position >= 0.0 && cs[k].Alpha.Some?)
  }

  /** The tracks after a non-empty colour list: an opaque colour track from 0 to 1 and its
      positions, no transparency track yet. */
  ghost predicate ColourTracksOk(t: Tracks) {
    && t.colours != []
    && t.colours[0].Position == 0.0 && t.colours[|t.colours| - 1].Position == 1.0
    && (forall k :: 0 <= k < |t.colours| ==> t.colours[k].Position >= 0.0 && t.colours[k].Alpha == Some(1.0))
    && t.alphas == []
    && t.positions == PosMids(t.colours)
  }

  lemma ColourTracksOkAt(h: GrdHost, buf: seq<byte>, i: int, end: int, n: nat)
    requires 0 <= i && 0 <= end <= |buf|
    requires ColourTracksAt(h, buf, i, end, n).Ok? && ColourTracksAt(h, buf, i, end, n).value.Some?
    requires ColourTracksAt(h, buf, i, end, n).value.value.0.colours != []
    ensures ColourTracksOk(ColourTracksAt(h, buf, i, end, n).value.value.0)
  {
    ColourTracksShape(h, buf, i, end, n);
  }

  /** The stops of a gradient once its colour tracks t are read: merged with its transparency
      stops when a `Trns` list follows in the record, the colour track as it is otherwise. */
  function GradientColours(h: GrdHost, buf: seq<byte>, i: nat, end: nat, t: Tracks): Result<seq<ColorStop>, Exception>
    requires end <= |buf|
  {
    var trns := SkipTo(buf, i, TRNS, end);
    if trns >= end then Ok(t.colours) else TrnsColours(h, buf, trns, end, t)
  }

  /** The colour track t merged with the transparency stops of the `Trns` list at trns. */
  function TrnsColours(h: GrdHost, buf: seq<byte>, trns: nat, end: nat, t: Tracks): Result<seq<ColorStop>, Exception>
    requires end <= |buf|
  {
    var n :- U32At(buf, trns + 4);
    var read :- AlphaTracksAt(h, buf, trns + 8, end, n, t);
    Ok(Merged(h, read.0))
  }

  /** The positions of some stops are those of their positions-track entries. */
  lemma PosMidsPositions(ss: seq<ColorStop>, k: nat)
    requires k < |ss|
    ensures PosMids(ss)[k] == PosMidOf(ss[k]) && PosMidOf(ss[k]) in PosMids(ss)
  {
    PosMidsIndex(ss);
  }

  /** A merged gradient spans 0 to 1 when both tracks do. */
  lemma MergedSpansUnit(h: GrdHost, t: Tracks)
    requires t.colours != [] && t.colours[0].Position == 0.0 && t.colours[|t.colours| - 1].Position == 1.0
    requires forall e :: e in t.positions ==> e.Position >= 0.0
    requires PosMidOf(t.colours[0]) in t.positions && PosMidOf(t.colours[|t.colours| - 1]) in t.positions
    ensures SpansUnit(Merged(h, t))
  {
    var r := Merged(h, t);
    MergedCoversTracks(h, t);
    MergedStopsOk(h, t);
    var z := PosMidOf(t.colours[0]);
    var o := PosMidOf(t.colours[|t.colours| - 1]);
    var x0 :| 0 <= x0 < |r| && r[x0].Position == z.Position;
    var x1 :| 0 <= x1 < |r| && r[x1].Position == o.Position;
  }

  /** Once the transparency stops are added, no entry of the positions track sits before 0. */
  lemma AlphaPositionsNonNegative(t: Tracks, t': Tracks, n: nat)
    requires ColourTracksOk(t) && TrackShape(t'.alphas, n, n)
    requires t'.positions == t.positions + PosMids(t'.alphas)
    ensures forall e :: e in t'.positions ==> e.Position >= 0.0
  {
    PosMidsIndex(t.colours);
    PosMidsIndex(t'.alphas);
    forall e | e in t'.positions
      ensures e.Position >= 0.0
    {
      var x :| 0 <= x < |t'.positions| && t'.positions[x] == e;
      if x < |t.positions| {
        assert e == PosMidOf(t.colours[x]);
      } else {
        assert e == PosMidOf(t'.alphas[x - |t.positions|]);
      }
    }
  }

  /** Merging in the transparency stops read from i keeps the gradient spanning 0 to 1. */
  lemma AlphaMergeSpan(h: GrdHost, buf: seq<byte>, i: nat, end: nat, n: nat, t: Tracks)
    requires end <= |buf| && ColourTracksOk(t)
    requires AlphaTracksAt(h, buf, i, end, n, t).Ok?
    ensures SpansUnit(Merged(h, AlphaTracksAt(h, buf, i, end, n, t).value.0))
  {
    var last := |t.colours| - 1;
    PosMidsPositions(t.colours, 0);
    PosMidsPositions(t.colours, last);
    AlphaTracksShape(h, buf, i, end, n, t);
    var t' := AlphaTracksAt(h, buf, i, end, n, t).value.0;
    AlphaPositionsNonNegative(t, t', n);
    assert t'.positions[0] == t.positions[0] && t'.positions[last] == t.positions[last];
    MergedSpansUnit(h, t');
  }

  /** The stops read for a gradient span 0 to 1. */
  lemma GradientColoursSpan(h: GrdHost, buf: seq<byte>, i: nat, end: nat, t: Tracks)
    requires end <= |buf| && ColourTracksOk(t)
    requires GradientColours(h, buf, i, end, t).Ok?
    ensures SpansUnit(GradientColours(h, buf, i, end, t).value)
  {
    var trns := SkipTo(buf, i, TRNS, end);
    if trns >= end {
      ColourTrackSpans(t);
    } else {
      TrnsColoursSpan(h, buf, trns, end, t);
    }
  }

  /** The colour track merged with transparency stops spans 0 to 1. */
  lemma TrnsColoursSpan(h: GrdHost, buf: seq<byte>, trns: nat, end: nat, t: Tracks)
    requires end <= |buf| && ColourTracksOk(t)
    requires TrnsColours(h, buf, trns, end, t).Ok?
    ensures SpansUnit(TrnsColours(h, buf, trns, end, t).value)
  {
    var n := U32At(buf, trns + 4).value;
    TrnsColoursMerged(h, buf, trns, end, t);
    AlphaMergeSpan(h, buf, trns + 8, end, n, t);
  }

  lemma TrnsColoursMerged(h: GrdHost, buf: seq<byte>, trns: nat, end: nat, t: Tracks)
    requires end <= |buf|
    requires TrnsColours(h, buf, trns, end, t).Ok?
    ensures U32At(buf, trns + 4).Ok?
    ensures var read := AlphaTracksAt(h, buf, trns + 8, end, U32At(buf, trns + 4).value, t);
      read.Ok? && TrnsColours(h, buf, trns, end, t).value == Merged(h, read.value.0)
  {
  }

  /** A colour track read alone spans 0 to 1. */
  lemma ColourTrackSpans(t: Tracks)
    requires ColourTracksOk(t)
    ensures SpansUnit(t.colours)
  {
    var last := |t.colours| - 1;
    assert t.colours[0].Position == 0.0 && t.colours[last].Position == 1.0;
  }

  // ---------------------------------------------------------------- one gradient record

  /** The stops of the record from the cursor i (just after its name): the `Clrs` list and
      what follows it. None when the record has no `Clrs` in range, when a stop has no `Clrt`
      in range or a format the reader does not know, and when the list is empty. */
  function StopsAt(h: GrdHost, buf: seq<byte>, i: nat, end: nat): (r: Result<Option<seq<ColorStop>>, Exception>)
    requires end <= |buf|
  {
    var clrs := SkipTo(buf, i, CLRS, end) + 4;
    if clrs >= end then Ok(None)
    else
      var n :- U32At(buf, clrs);
      var read :- ColourTracksAt(h, buf, clrs + 4, end, n);
      match read
      case None => Ok(None)
      case Some((t, next)) =>
        if t.colours == [] then Ok(None)
        else
          var colours :- GradientColours(h, buf, next, end, t);
          Ok(Some(colours))
  }

  lemma StopsAtSpan(h: GrdHost, buf: seq<byte>, i: nat, end: nat)
    requires end <= |buf|
    requires StopsAt(h, buf, i, end).Ok? && StopsAt(h, buf, i, end).value.Some?
    ensures SpansUnit(StopsAt(h, buf, i, end).value.value)
  {
    var clrs := SkipTo(buf, i, CLRS, end) + 4;
    var n := U32At(buf, clrs).value;
    var (t, next) := ColourTracksAt(h, buf, clrs + 4, end, n).value.value;
    ColourTracksOkAt(h, buf, clrs + 4, end, n);
    GradientColoursSpan(h, buf, next, end, t);
  }

  /** The name of the gradient: the text read, or, when it is empty, the file name, a space
      and the number the gradient would have among those kept. */
  function PaletteName(text: JsString, fileName: JsString, kept: nat): (r: JsString)
    ensures r != []
    ensures text != [] ==> r == text
    ensures text == [] ==> r == fileName + S(" ") + DecimalString(kept + 1)
  {
    if text != [] then text else fileName + S(" ") + DecimalString(kept + 1)
  }

  /** The gradient of the record from `start` to `end`, the `kept` gradients before it kept,
      in the given group; none when the record has no `Nm  ` in range or no usable stops. */
  function GradientAt(h: GrdHost, buf: seq<byte>, start: nat, end: nat, fileName: JsString, kept: nat, group: Option<JsString>)
    : (r: Result<Option<Palette>, Exception>)
    requires end <= |buf|
  {
    var nm := SkipTo(buf, start, NM, end);
    if nm >= end then Ok(None)
    else
      var (text, afterName) := UnicodeStringAt(buf, nm + 4, end);
      NamedGradient(h, buf, text, afterName, end, fileName, kept, group)
  }

  /** The gradient named `text` whose stops are read from `afterName`; none when it has no
      usable stops. */
  function NamedGradient(h: GrdHost, buf: seq<byte>, text: JsString, afterName: nat, end: nat, fileName: JsString,
                         kept: nat, group: Option<JsString>): (r: Result<Option<Palette>, Exception>)
    requires end <= |buf|
  {
    var stops :- StopsAt(h, buf, afterName, end);
    match stops
    case None => Ok(None)
    case Some(colours) => Ok(Some(Palette(PaletteName(text, fileName, kept), colours, group)))
  }

  /** Every gradient the reader keeps has a name, the group it was given, and stops that span
      0 to 1. */
  ghost predicate KeptGradient(p: Palette, group: Option<JsString>) {
    p.Name != [] && p.Group == group && SpansUnit(p.Colours)
  }

  lemma GradientAtKept(h: GrdHost, buf: seq<byte>, start: nat, end: nat, fileName: JsString, kept: nat, group: Option<JsString>)
    requires end <= |buf|
    requires GradientAt(h, buf, start, end, fileName, kept, group).Ok?
    requires GradientAt(h, buf, start, end, fileName, kept, group).value.Some?
    ensures KeptGradient(GradientAt(h, buf, start, end, fileName, kept, group).value.value, group)
  {
    var nm := SkipTo(buf, start, NM, end);
    var (text, afterName) := UnicodeStringAt(buf, nm + 4, end);
    StopsAtSpan(h, buf, afterName, end);
  }

  // ---------------------------------------------------------------- the whole file

  /** The `Grdn` offsets lie between 4 and the end of the buffer. */
  ghost predicate RecordOffsets(buf: seq<byte>, offsets: seq<nat>) {
    forall k :: 0 <= k < |offsets| ==> 4 <= offsets[k] <= |buf|
  }

  lemma AllChunksInBuffer(buf: seq<byte>, tag: nat)
    ensures RecordOffsets(buf, AllChunks(buf, tag))
  {
  }

  /** Where record `index` ends: where the next `Grdn` tag starts, or at the end of the
      buffer for the last. */
  function RecordEnd(buf: seq<byte>, offsets: seq<nat>, index: nat): (r: nat)
    requires index < |offsets| && RecordOffsets(buf, offsets)
    ensures r <= |buf|
  {
    if index + 1 < |offsets| then offsets[index + 1] - 4 else |buf|
  }

  /** The group of record `index`: a preset has two `Grdn` records, so it is entry
      `index / 2` of the group map, and none past the map's end. */
  function GroupOf(groupMap: seq<JsString>, index: nat): (r: Option<JsString>)
    ensures r.Some? <==> index / 2 < |groupMap|
    ensures r.Some? ==> r.value in groupMap
  {
    if |groupMap| > 0 && index / 2 < |groupMap| then Some(groupMap[index / 2]) else None
  }

  /** The gradients of records index.. after those already kept. */
  function GradientsFrom(h: GrdHost, buf: seq<byte>, fileName: JsString, offsets: seq<nat>, groupMap: seq<JsString>,
                         index: nat, kept: seq<Palette>): Result<seq<Palette>, Exception>
    requires index <= |offsets| && RecordOffsets(buf, offsets)
    decreases |offsets| - index
  {
    if index == |offsets| then Ok(kept)
    else
      var end := RecordEnd(buf, offsets, index);
      var p :- GradientAt(h, buf, offsets[index], end, fileName, |kept|, GroupOf(groupMap, index));
      GradientsFrom(h, buf, fileName, offsets, groupMap, index + 1, kept + (if p.Some? then [p.value] else []))
  }

  /** A gradient the reader keeps, in a group of the map or in none. */
  ghost predicate Grouped(p: Palette, groupMap: seq<JsString>) {
    p.Name != [] && SpansUnit(p.Colours) && (p.Group.Some? ==> p.Group.value in groupMap)
  }

  ghost predicate AllGrouped(ps: seq<Palette>, groupMap: seq<JsString>) {
    forall k :: 0 <= k < |ps| ==> Grouped(ps[k], groupMap)
  }

  /** One record of `GradientsFrom` when it succeeds: at most one gradient is added, and one
      added is named, grouped from the map and spans 0 to 1. */
  lemma GradientsFromNext(h: GrdHost, buf: seq<byte>, fileName: JsString, offsets: seq<nat>,
                          groupMap: seq<JsString>, index: nat, kept: seq<Palette>) returns (kept': seq<Palette>)
    requires index < |offsets| && RecordOffsets(buf, offsets)
    requires GradientsFrom(h, buf, fileName, offsets, groupMap, index, kept).Ok?
    ensures GradientsFrom(h, buf, fileName, offsets, groupMap, index, kept)
      == GradientsFrom(h, buf, fileName, offsets, groupMap, index + 1, kept')
    ensures |kept| <= |kept'| <= |kept| + 1 && kept'[..|kept|] == kept
    ensures AllGrouped(kept, groupMap) ==> AllGrouped(kept', groupMap)
  {
    var end := RecordEnd(buf, offsets, index);
    var group := GroupOf(groupMap, index);
    var p := GradientAt(h, buf, offsets[index], end, fileName, |kept|, group);
    GradientsFromStep(h, buf, fileName, offsets, groupMap, index, kept, p);
    kept' := kept + (if p.value.Some? then [p.value.value] else []);
    if p.value.Some? {
      GradientAtKept(h, buf, offsets[index], end, fileName, |kept|, group);
      assert kept'[|kept|] == p.value.value;
    }
  }

  /** Every record adds at most one gradient, and every gradient kept is named, grouped from
      the map and spans 0 to 1. */
  lemma GradientsFromKept(h: GrdHost, buf: seq<byte>, fileName: JsString, offsets: seq<nat>,
                          groupMap: seq<JsString>, index: nat, kept: seq<Palette>)
    requires index <= |offsets| && RecordOffsets(buf, offsets)
    requires AllGrouped(kept, groupMap)
    requires GradientsFrom(h, buf, fileName, offsets, groupMap, index, kept).Ok?
    ensures var ps := GradientsFrom(h, buf, fileName, offsets, groupMap, index, kept).value;
      |kept| <= |ps| <= |kept| + (|offsets| - index) && ps[..|kept|] == kept && AllGrouped(ps, groupMap)
  {
    GradientsFromPrefix(h, buf, fileName, offsets, groupMap, index, kept);
    GradientsFromGrouped(h, buf, fileName, offsets, groupMap, index, kept);
  }

  /** The record loop keeps the gradients already read and adds at most one per record. */
  lemma {:induction false} GradientsFromPrefix(h: GrdHost, buf: seq<byte>, fileName: JsString, offsets: seq<nat>,
                                               groupMap: seq<JsString>, index: nat, kept: seq<Palette>)
    requires index <= |offsets| && RecordOffsets(buf, offsets)
    requires GradientsFrom(h, buf, fileName, offsets, groupMap, index, kept).Ok?
    ensures var ps := GradientsFrom(h, buf, fileName, offsets, groupMap, index, kept).value;
      |kept| <= |ps| <= |kept| + (|offsets| - index) && ps[..|kept|] == kept
    decreases |offsets| - index
  {
    if index < |offsets| {
      var kept' := GradientsFromNext(h, buf, fileName, offsets, groupMap, index, kept);
      GradientsFromPrefix(h, buf, fileName, offsets, groupMap, index + 1, kept');
      var ps := GradientsFrom(h, buf, fileName, offsets, groupMap, index + 1, kept').value;
      PrefixOfPrefix(kept, kept', ps);
    } else {
      assert GradientsFrom(h, buf, fileName, offsets, groupMap, index, kept) == Ok(kept);
    }
  }

  /** Every gradient the record loop keeps is named, grouped from the map and spans 0 to 1. */
  lemma {:induction false} GradientsFromGrouped(h: GrdHost, buf: seq<byte>, fileName: JsString, offsets: seq<nat>,
                                                groupMap: seq<JsString>, index: nat, kept: seq<Palette>)
    requires index <= |offsets| && RecordOffsets(buf, offsets)
    requires AllGrouped(kept, groupMap)
    requires GradientsFrom(h, buf, fileName, offsets, groupMap, index, kept).Ok?
    ensures AllGrouped(GradientsFrom(h, buf, fileName, offsets, groupMap, index, kept).value, groupMap)
    decreases |offsets| - index
  {
    if index < |offsets| {
      var kept' := GradientsFromNext(h, buf, fileName, offsets, groupMap, index, kept);
      GradientsFromGrouped(h, buf, fileName, offsets, groupMap, index + 1, kept');
    } else {
      assert GradientsFrom(h, buf, fileName, offsets, groupMap, index, kept) == Ok(kept);
    }
  }

  /** A prefix of a prefix is a prefix. */
  lemma PrefixOfPrefix(a: seq<Palette>, b: seq<Palette>, c: seq<Palette>)
    requires |a| <= |b| <= |c| && b[..|a|] == a && c[..|b|] == b
    ensures c[..|a|] == a
  {
    assert c[..|a|] == c[..|b|][..|a|];
  }

  /** What `parseGrdArrayBuffer` reads from a file: the header is checked, the hierarchy read,
      then every `Grdn` record in turn; the group summary is made only when the file has a
      hierarchy. */
  function LoadGrd(h: GrdHost, buf: seq<byte>, fileName: JsString): (r: Result<PaletteData, LoadError>)
    ensures Header(buf).Err? ==> r == Err(Header(buf).error)
    ensures Header(buf).Ok? && Hierarchy(buf).Err? ==> r == Err(Thrown(Hierarchy(buf).error))
    ensures r.Ok? ==> r.value.Name == fileName
    ensures r.Ok? && Hierarchy(buf).Ok? && Hierarchy(buf).value == [] ==> r.value.Groups == []
  {
    var _ :- Header(buf);
    match Hierarchy(buf)
    case Err(e) => Err(Thrown(e))
    case Ok(groupMap) =>
      var offsets := AllChunks(buf, GRDN);
      AllChunksInBuffer(buf, GRDN);
      match GradientsFrom(h, buf, fileName, offsets, groupMap, 0, [])
      case Err(e) => Err(Thrown(e))
      case Ok(ps) => Ok(PaletteData(fileName, ps, if |groupMap| > 0 then Summary(ps) else []))
  }

  /** A file is read only past a valid header; then at most one gradient per `Grdn` record is
      kept, each named, grouped from the hierarchy and spanning 0 to 1, and the summary, when
      there is one, counts the kept gradients by group. That summary is the corrected one; it
      is the count `groupCounts` gives as written whenever no group is named after an inherited
      property of a plain object. */
  lemma LoadGrdKept(h: GrdHost, buf: seq<byte>, fileName: JsString)
    requires LoadGrd(h, buf, fileName).Ok?
    ensures Header(buf).Ok? && Hierarchy(buf).Ok?
    ensures var d := LoadGrd(h, buf, fileName).value;
      && d.Name == fileName
      && |d.Palettes| <= |AllChunks(buf, GRDN)|
      && AllGrouped(d.Palettes, Hierarchy(buf).value)
      && (d.Groups == [] || d.Groups == Summary(d.Palettes))
      && (Hierarchy(buf).value != [] ==> d.Groups == Summary(d.Palettes))
    ensures var d := LoadGrd(h, buf, fileName).value;
      Hierarchy(buf).value != [] && (forall k :: 0 <= k < |d.Palettes| ==> GroupName(d.Palettes[k]) !in INHERITED) ==>
        d.Groups == AsWrittenSummary(d.Palettes)
  {
    AllChunksInBuffer(buf, GRDN);
    GradientsFromKept(h, buf, fileName, AllChunks(buf, GRDN), Hierarchy(buf).value, 0, []);
    var d := LoadGrd(h, buf, fileName).value;
    if forall k :: 0 <= k < |d.Palettes| ==> GroupName(d.Palettes[k]) !in INHERITED {
      AsWrittenAgrees(d.Palettes);
    }
  }

  // ---------------------------------------------------------------- the reader as written

  /** The transparency part of a record: the `Trns` list when there is one, then the merge. */
  method ReadGradientColours(h: GrdHost, buf: seq<byte>, i: nat, end: nat, t: Tracks)
    returns (r: Result<seq<ColorStop>, Exception>)
    requires end <= |buf|
    ensures r == GradientColours(h, buf, i, end, t)
  {
    var trnsPos := SkipToChunkInRange(buf, i, TRNS, end);
    if trnsPos >= end {
      return Ok(t.colours);
    }
    r := ReadTrnsColours(h, buf, trnsPos, end, t);
  }

  /** The `Trns` list at trnsPos, merged into the colour track. */
  method ReadTrnsColours(h: GrdHost, buf: seq<byte>, trnsPos: nat, end: nat, t: Tracks)
    returns (r: Result<seq<ColorStop>, Exception>)
    requires end <= |buf|
    ensures r == TrnsColours(h, buf, trnsPos, end, t)
  {
    var transparencyCount :- U32At(buf, trnsPos + 4);
    var read :- ReadAlphaStops(h, buf, trnsPos + 8, end, transparencyCount, t);
    var colours := Merge(h, read.0);
    return Ok(colours);
  }

  /** The `Clrs` list of a record and what follows it. */
  method ReadStops(h: GrdHost, buf: seq<byte>, i: nat, end: nat) returns (r: Result<Option<seq<ColorStop>>, Exception>)
    requires end <= |buf|
    ensures r == StopsAt(h, buf, i, end)
  {
    var clrs := SkipToChunkInRange(buf, i, CLRS, end);
    clrs := clrs + 4;
    if clrs >= end {
      return Ok(None);
    }
    var colourCount :- U32At(buf, clrs);
    var read :- ReadColourStops(h, buf, clrs + 4, end, colourCount);
    if read.None? {
      return Ok(None);
    }
    var (t, next) := read.value;
    if t.colours == [] {
      return Ok(None);
    }
    var colours :- ReadGradientColours(h, buf, next, end, t);
    return Ok(Some(colours));
  }

  /** One turn of the record loop: the name, then the stops. */
  method ReadGradient(h: GrdHost, buf: seq<byte>, start: nat, end: nat, fileName: JsString, kept: nat, group: Option<JsString>)
    returns (r: Result<Option<Palette>, Exception>)
    requires end <= |buf|
    ensures r == GradientAt(h, buf, start, end, fileName, kept, group)
  {
    var i := SkipToChunkInRange(buf, start, NM, end);
    if i >= end {
      return Ok(None);
    }
    r := ReadNameAndStops(h, buf, i + 4, end, fileName, kept, group);
    GradientAtNamed(h, buf, start, end, fileName, kept, group);
  }

  /** The name string at `at`, then the stops after it. */
  method ReadNameAndStops(h: GrdHost, buf: seq<byte>, at: nat, end: nat, fileName: JsString, kept: nat, group: Option<JsString>)
    returns (r: Result<Option<Palette>, Exception>)
    requires end <= |buf|
    ensures var (text, afterName) := UnicodeStringAt(buf, at, end);
      r == NamedGradient(h, buf, text, afterName, end, fileName, kept, group)
  {
    var text, newIndex := ReadUnicodeString(buf, at, end);
    r := ReadNamedGradient(h, buf, text, newIndex, end, fileName, kept, group);
  }

  /** A record with a `Nm  ` in range yields the gradient named by the string after it. */
  lemma GradientAtNamed(h: GrdHost, buf: seq<byte>, start: nat, end: nat, fileName: JsString, kept: nat, group: Option<JsString>)
    requires end <= |buf|
    ensures var nm := SkipTo(buf, start, NM, end);
      nm < end ==> var (text, afterName) := UnicodeStringAt(buf, nm + 4, end);
        GradientAt(h, buf, start, end, fileName, kept, group)
          == NamedGradient(h, buf, text, afterName, end, fileName, kept, group)
  {
  }

  /** The stops of a named gradient, and the gradient when they are usable. */
  method ReadNamedGradient(h: GrdHost, buf: seq<byte>, text: JsString, newIndex: nat, end: nat, fileName: JsString,
                           kept: nat, group: Option<JsString>) returns (r: Result<Option<Palette>, Exception>)
    requires end <= |buf|
    ensures r == NamedGradient(h, buf, text, newIndex, end, fileName, kept, group)
  {
    var stops :- ReadStops(h, buf, newIndex, end);
    if stops.None? {
      return Ok(None);
    }
    var paletteName := if text != [] then text else fileName + S(" ") + DecimalString(kept + 1);
    return Ok(Some(Palette(paletteName, stops.value, group)));
  }

  /** The header checks, each reporting its own error. */
  method ReadHeader(buf: seq<byte>) returns (r: Result<(), LoadError>)
    ensures r == Header(buf)
  {
    if |buf| < 4 {
      return Err(Thrown(RangeError));
    }
    var magicNumber := U32BE(buf, 0);
    if magicNumber != MAGIC_8BGR {
      return Err(NotRecognised);
    }
    if |buf| < 6 {
      return Err(Thrown(RangeError));
    }
    var fileVersion := U16BE(buf, 4);
    if fileVersion != GRD_VERSION {
      if fileVersion == OLD_GRD_VERSION {
        return Err(OldVersion);
      }
      return Err(UnsupportedVersion);
    }
    if |buf| < 10 {
      return Err(Thrown(RangeError));
    }
    var descriptorMagic := U32BE(buf, 6);
    if descriptorMagic != DESCRIPTOR_MAGIC {
      return Err(NotRecognised);
    }
    return Ok(());
  }

  /** One record of the loop: an exception ends it, a gradient found is kept. */
  lemma GradientsFromStep(h: GrdHost, buf: seq<byte>, fileName: JsString, offsets: seq<nat>, groupMap: seq<JsString>,
                          index: nat, kept: seq<Palette>, p: Result<Option<Palette>, Exception>)
    requires index < |offsets| && RecordOffsets(buf, offsets)
    requires p == GradientAt(h, buf, offsets[index], RecordEnd(buf, offsets, index), fileName, |kept|, GroupOf(groupMap, index))
    ensures p.Err? ==> GradientsFrom(h, buf, fileName, offsets, groupMap, index, kept) == Err(p.error)
    ensures p.Ok? ==> (GradientsFrom(h, buf, fileName, offsets, groupMap, index, kept)
      == GradientsFrom(h, buf, fileName, offsets, groupMap, index + 1, kept + (if p.value.Some? then [p.value.value] else [])))
  {
  }

  /** One turn of the record loop: the record's end and group, then its gradient, kept when
      there is one. */
  method ReadRecord(h: GrdHost, buf: seq<byte>, fileName: JsString, gradientOffsets: seq<nat>, groupMap: seq<JsString>,
                    index: nat, palettes: seq<Palette>) returns (r: Result<seq<Palette>, Exception>)
    requires index < |gradientOffsets| && RecordOffsets(buf, gradientOffsets)
    ensures r.Err? ==> GradientsFrom(h, buf, fileName, gradientOffsets, groupMap, index, palettes) == Err(r.error)
    ensures r.Ok? ==> (GradientsFrom(h, buf, fileName, gradientOffsets, groupMap, index, palettes)
      == GradientsFrom(h, buf, fileName, gradientOffsets, groupMap, index + 1, r.value))
  {
    var gradientEnd := if index + 1 < |gradientOffsets| then gradientOffsets[index + 1] - 4 else |buf|;
    var group := if |groupMap| > 0 && index / 2 < |groupMap| then Some(groupMap[index / 2]) else None;
    var palette := ReadGradient(h, buf, gradientOffsets[index], gradientEnd, fileName, |palettes|, group);
    GradientsFromStep(h, buf, fileName, gradientOffsets, groupMap, index, palettes, palette);
    if palette.Err? {
      return Err(palette.error);
    }
    if palette.value.Some? {
      return Ok(palettes + [palette.value.value]);
    }
    assert palettes + [] == palettes;
    return Ok(palettes);
  }

  /** The record loop over the `Grdn` offsets. */
  method ReadGradients(h: GrdHost, buf: seq<byte>, fileName: JsString, gradientOffsets: seq<nat>, groupMap: seq<JsString>)
    returns (r: Result<seq<Palette>, Exception>)
    requires RecordOffsets(buf, gradientOffsets)
    ensures r == GradientsFrom(h, buf, fileName, gradientOffsets, groupMap, 0, [])
  {
    var palettes: seq<Palette> := [];
    for index := 0 to |gradientOffsets|
      invariant GradientsFrom(h, buf, fileName, gradientOffsets, groupMap, 0, [])
        == GradientsFrom(h, buf, fileName, gradientOffsets, groupMap, index, palettes)
    {
      palettes :- ReadRecord(h, buf, fileName, gradientOffsets, groupMap, index, palettes);
    }
    return Ok(palettes);
  }

  /** `parseGrdArrayBuffer` on the bytes of a file. */
  method ParseGrd(h: GrdHost, buf: seq<byte>, fileName: JsString) returns (r: Result<PaletteData, LoadError>)
    ensures r == LoadGrd(h, buf, fileName)
  {
    var header := ReadHeader(buf);
    if header.Err? {
      return Err(header.error);
    }
    var hierarchy := ParseHierarchy(buf);
    if hierarchy.Err? {
      return Err(Thrown(hierarchy.error));
    }
    var groupMap := hierarchy.value;
    var gradientOffsets := FindAllChunks(buf, GRDN);
    AllChunksInBuffer(buf, GRDN);
    var palettes := ReadGradients(h, buf, fileName, gradientOffsets, groupMap);
    if palettes.Err? {
      return Err(Thrown(palettes.error));
    }
    var groups: seq<GroupCount> := [];
    if |groupMap| > 0 {
      groups := SummariseGroups(palettes.value);
    }
    return Ok(PaletteData(fileName, palettes.value, groups));
  }
}
