/** The GIMP gradient (.ggr) text writer of palette-js/write_ggr.js: a header of three lines,
    then one line per segment between consecutive stops, each line followed by a newline. */
module Ggr {
  import opened Wrappers
  import opened Js
  import opened Seqs
  import opened Colour

  function Fixed6(fmt: NumberFormat, x: real): JsString {
    fmt.toFixed(x, 6)
  }

  const NL: JsString := [10]
  const SP: JsString := [32]

  /** The stop written when the list is empty: opaque black at position 0. */
  const DefaultStop: ColorStop := ColorStop(0.0, 0.0, 0.0, Some(1.0), 0.0, None)

  /** `toFixed` is called on every Alpha the writer formats, so an undefined one throws. */
  predicate HasAlpha(c: ColorStop) {
    c.Alpha.Some?
  }

  /** The first n stops all carry an Alpha. */
  predicate AlphasUpTo(cs: seq<ColorStop>, n: nat)
    requires n <= |cs|
  {
    forall k :: 0 <= k < n ==> HasAlpha(cs[k])
  }

  /** Both ends of each of the first n segments carry an Alpha. */
  predicate SegmentsWritable(cs: seq<ColorStop>, n: nat)
    requires n < |cs|
  {
    n == 0 || AlphasUpTo(cs, n + 1)
  }

  /** Red, green, blue and alpha, to six decimals. */
  function ChannelFields(fmt: NumberFormat, c: ColorStop): (r: seq<JsString>)
    requires HasAlpha(c)
    ensures |r| == 4
  {
    [Fixed6(fmt, c.Red), Fixed6(fmt, c.Green), Fixed6(fmt, c.Blue), Fixed6(fmt, c.Alpha.value)]
  }

  /** The absolute midpoint of a segment: the right stop's Midpoint (0.5 when absent) of the
      way from the left position to the right one. */
  function MidPos(left: ColorStop, right: ColorStop): real {
    left.Position + MidpointOf(right) * (right.Position - left.Position)
  }

  /** The thirteen fields of a GIMP segment: left, middle and right positions, the left and
      right colours, blend function 0 (linear) and colour type 0 (RGB). */
  function SegmentFields(fmt: NumberFormat, left: ColorStop, right: ColorStop): (r: seq<JsString>)
    requires HasAlpha(left) && HasAlpha(right)
    ensures |r| == 13
  {
    [Fixed6(fmt, left.Position), Fixed6(fmt, MidPos(left, right)), Fixed6(fmt, right.Position)]
    + ChannelFields(fmt, left) + ChannelFields(fmt, right) + [S("0"), S("0")]
  }

  /** The fields of the one segment written for fewer than two stops: 0, 0.5 and 1, and the
      same colour on both sides. */
  function SingleFields(fmt: NumberFormat, c: ColorStop): (r: seq<JsString>)
    requires HasAlpha(c)
    ensures |r| == 13
  {
    [S("0.000000"), S("0.500000"), S("1.000000")]
    + ChannelFields(fmt, c) + ChannelFields(fmt, c) + [S("0"), S("0")]
  }

  /** The lines of the first n segments: segment i runs from stop i to stop i + 1. */
  function SegmentLines(fmt: NumberFormat, cs: seq<ColorStop>, n: nat): (r: seq<JsString>)
    requires n < |cs| && SegmentsWritable(cs, n)
    ensures |r| == n
  {
    if n == 0 then []
    else SegmentLines(fmt, cs, n - 1) + [Join(SegmentFields(fmt, cs[n - 1], cs[n]), SP)]
  }

  function Header(name: JsString): seq<JsString> {
    [S("GIMP Gradient"), S("Name: ") + name]
  }

  /** The number of segments written. */
  function SegmentCount(cs: seq<ColorStop>): nat {
    if |cs| < 2 then 1 else |cs| - 1
  }

  /** The lines of the file for stops that all carry an Alpha. */
  function GgrLines(name: JsString, cs: seq<ColorStop>, fmt: NumberFormat): seq<JsString>
    requires AlphasUpTo(cs, |cs|)
  {
    if |cs| < 2 then
      Header(name) + [S("1"), Join(SingleFields(fmt, if |cs| == 0 then DefaultStop else cs[0]), SP)]
    else
      Header(name) + [DecimalString(|cs| - 1)] + SegmentLines(fmt, cs, |cs| - 1)
  }

  /** What `buildGgrText` returns, or the TypeError it throws on a stop without Alpha. */
  function GgrText(name: JsString, cs: seq<ColorStop>, fmt: NumberFormat): Result<JsString, Exception>
  {
    if AlphasUpTo(cs, |cs|) then Ok(Join(GgrLines(name, cs, fmt), NL) + NL) else Err(TypeError)
  }

  /** The line of one segment, concatenated field by field as the writer does. */
  function SegmentLine(fmt: NumberFormat, left: ColorStop, right: ColorStop): (r: JsString)
    requires HasAlpha(left) && HasAlpha(right)
    ensures r == Join(SegmentFields(fmt, left, right), SP)
  {
    var fields := SegmentFields(fmt, left, right);
    JoinFields(fields, SP);
    fields[0] + SP + fields[1] + SP + fields[2] + SP
    + fields[3] + SP + fields[4] + SP + fields[5] + SP + fields[6] + SP
    + fields[7] + SP + fields[8] + SP + fields[9] + SP + fields[10] + SP
    + S("0 0")
  }

  /** The single segment's line, concatenated as the writer does. */
  function SingleLine(fmt: NumberFormat, c: ColorStop): (r: JsString)
    requires HasAlpha(c)
    ensures r == Join(SingleFields(fmt, c), SP)
  {
    var fields := SingleFields(fmt, c);
    JoinFields(fields, SP);
    S("0.000000") + SP + S("0.500000") + SP + S("1.000000") + SP
    + fields[3] + SP + fields[4] + SP + fields[5] + SP + fields[6] + SP
    + fields[7] + SP + fields[8] + SP + fields[9] + SP + fields[10] + SP
    + S("0 0")
  }

  lemma JoinSnoc<T>(parts: seq<seq<T>>, x: seq<T>, sep: seq<T>)
    requires parts != []
    ensures Join(parts + [x], sep) == Join(parts, sep) + sep + x
  {
    assert (parts + [x])[..|parts|] == parts;
  }

  /** The first k fields joined, written as a left-nested concatenation. */
  function JoinPrefix<T>(f: seq<seq<T>>, sep: seq<T>, k: nat): seq<T>
    requires 1 <= k <= |f|
  {
    if k == 1 then f[0] else JoinPrefix(f, sep, k - 1) + sep + f[k - 1]
  }

  lemma {:induction false} JoinIsPrefix<T>(f: seq<seq<T>>, sep: seq<T>, k: nat)
    requires 1 <= k <= |f|
    ensures Join(f[..k], sep) == JoinPrefix(f, sep, k)
  {
    if k > 1 {
      JoinIsPrefix(f, sep, k - 1);
      JoinSnoc(f[..k - 1], f[k - 1], sep);
      assert f[..k] == f[..k - 1] + [f[k - 1]];
    }
  }

  /** Thirteen fields joined by a separator, written out. */
  lemma JoinFields<T>(f: seq<seq<T>>, sep: seq<T>)
    requires |f| == 13
    ensures Join(f, sep)
         == f[0] + sep + f[1] + sep + f[2] + sep + f[3] + sep + f[4] + sep + f[5] + sep + f[6] + sep
          + f[7] + sep + f[8] + sep + f[9] + sep + f[10] + sep + f[11] + sep + f[12]
  {
    JoinIsPrefix(f, sep, 13);
    assert f[..13] == f;
    assert JoinPrefix(f, sep, 2) == f[0] + sep + f[1];
    assert JoinPrefix(f, sep, 3) == JoinPrefix(f, sep, 2) + sep + f[2];
    assert JoinPrefix(f, sep, 4) == JoinPrefix(f, sep, 3) + sep + f[3];
    assert JoinPrefix(f, sep, 5) == JoinPrefix(f, sep, 4) + sep + f[4];
    assert JoinPrefix(f, sep, 6) == JoinPrefix(f, sep, 5) + sep + f[5];
    assert JoinPrefix(f, sep, 7) == JoinPrefix(f, sep, 6) + sep + f[6];
    assert JoinPrefix(f, sep, 8) == JoinPrefix(f, sep, 7) + sep + f[7];
    assert JoinPrefix(f, sep, 9) == JoinPrefix(f, sep, 8) + sep + f[8];
    assert JoinPrefix(f, sep, 10) == JoinPrefix(f, sep, 9) + sep + f[9];
    assert JoinPrefix(f, sep, 11) == JoinPrefix(f, sep, 10) + sep + f[10];
    assert JoinPrefix(f, sep, 12) == JoinPrefix(f, sep, 11) + sep + f[11];
  }

  /** Segment line i joins the fields of stops i and i + 1. */
  lemma {:induction false} SegmentLinesAt(fmt: NumberFormat, cs: seq<ColorStop>, n: nat)
    requires n < |cs| && SegmentsWritable(cs, n)
    ensures forall i :: 0 <= i < n ==> SegmentLines(fmt, cs, n)[i] == Join(SegmentFields(fmt, cs[i], cs[i + 1]), SP)
  {
    if n > 0 {
      assert SegmentsWritable(cs, n - 1);
      SegmentLinesAt(fmt, cs, n - 1);
    }
  }

  /** The file is its lines each followed by a newline: "GIMP Gradient", "Name: " and the name,
      the segment count, and one line per segment. */
  lemma GgrLayout(name: JsString, cs: seq<ColorStop>, fmt: NumberFormat)
    requires AlphasUpTo(cs, |cs|)
    ensures var lines := GgrLines(name, cs, fmt);
      && GgrText(name, cs, fmt) == Ok(Terminated(lines, NL))
      && |lines| == 3 + SegmentCount(cs)
      && lines[0] == S("GIMP Gradient") && lines[1] == S("Name: ") + name
      && lines[2] == DecimalString(SegmentCount(cs))
  {
    JoinThenTerminate(GgrLines(name, cs, fmt), NL);
    assert S("1") == DecimalString(1);
  }

  /** The reader's `parseInt` of the count line gives back the number of segment lines. */
  lemma SegmentCountReads(name: JsString, cs: seq<ColorStop>, fmt: NumberFormat)
    requires AlphasUpTo(cs, |cs|)
    ensures var lines := GgrLines(name, cs, fmt);
      (forall i :: 0 <= i < |lines[2]| ==> IsDigit(lines[2][i]))
      && DigitsValue(lines[2]) == |lines| - 3
  {
    GgrLayout(name, cs, fmt);
    DigitsRoundTrip(SegmentCount(cs));
  }

  /** With two stops or more, segment i goes from stop i (left) to stop i + 1 (right): its
      positions are theirs with the absolute midpoint between, and it ends with blend
      function 0 and colour type 0. */
  lemma GgrSegmentAt(name: JsString, cs: seq<ColorStop>, fmt: NumberFormat, i: nat)
    requires AlphasUpTo(cs, |cs|) && 2 <= |cs| && i < |cs| - 1
    ensures var lines, f := GgrLines(name, cs, fmt), SegmentFields(fmt, cs[i], cs[i + 1]);
      && lines[3 + i] == Join(f, SP)
      && f[0] == Fixed6(fmt, cs[i].Position) && f[1] == Fixed6(fmt, MidPos(cs[i], cs[i + 1]))
      && f[2] == Fixed6(fmt, cs[i + 1].Position)
      && f[3..7] == ChannelFields(fmt, cs[i]) && f[7..11] == ChannelFields(fmt, cs[i + 1])
      && f[11] == f[12] == S("0")
  {
    SegmentLinesAt(fmt, cs, |cs| - 1);
    var left, right := cs[i], cs[i + 1];
    var f := SegmentFields(fmt, left, right);
    var a, b := ChannelFields(fmt, left), ChannelFields(fmt, right);
    var front := [Fixed6(fmt, left.Position), Fixed6(fmt, MidPos(left, right)), Fixed6(fmt, right.Position)];
    assert f == front + a + b + [S("0"), S("0")];
    assert f[3..7] == a;
    assert f[7..11] == b;
  }

  /** With fewer than two stops, the one segment runs from 0 to 1 with the same colour on both
      sides: the only stop's, or opaque black when there is none. */
  lemma GgrSingleSegment(name: JsString, cs: seq<ColorStop>, fmt: NumberFormat)
    requires AlphasUpTo(cs, |cs|) && |cs| < 2
    ensures var lines, c := GgrLines(name, cs, fmt), if |cs| == 0 then DefaultStop else cs[0];
      var f := SingleFields(fmt, c);
      && lines[3] == Join(f, SP)
      && f[3..7] == f[7..11] == ChannelFields(fmt, c)
      && f[11] == f[12] == S("0")
  {
  }

  /** The absolute midpoint lies between the two positions when the stops are in order and the
      Midpoint is in [0, 1]. */
  lemma MidPosBetween(left: ColorStop, right: ColorStop)
    requires left.Position <= right.Position && InUnit(MidpointOf(right))
    ensures left.Position <= MidPos(left, right) <= right.Position
  {
    var d := right.Position - left.Position;
    assert 0.0 <= MidpointOf(right) * d <= d by {
      assert MidpointOf(right) * d <= 1.0 * d;
    }
  }

  /** The tolerance of the GIMP gradient reader. */
  const EPSILON: real := 0.000001

  /** How the reader of load_gradients.js recovers the right stop's Midpoint from a segment:
      the clamped fraction of the way the middle lies between the ends, or 0.5 for a segment
      too short to tell. */
  function ReaderMidpoint(leftPos: real, middlePos: real, rightPos: real): (r: real)
    ensures InUnit(r)
  {
    if rightPos > leftPos + EPSILON then Clamp01((middlePos - leftPos) / (rightPos - leftPos)) else 1.0 / 2.0
  }

  /** Reading a written segment back gives the right stop's Midpoint (clamped to [0, 1]) when
      the segment is longer than the reader's tolerance, in exact arithmetic. */
  lemma MidpointRoundTrip(left: ColorStop, right: ColorStop)
    requires right.Position > left.Position + EPSILON
    ensures ReaderMidpoint(left.Position, MidPos(left, right), right.Position) == Clamp01(MidpointOf(right))
  {
    var d := right.Position - left.Position;
    assert (MidPos(left, right) - left.Position) / d == MidpointOf(right) by {
      assert MidPos(left, right) - left.Position == MidpointOf(right) * d;
    }
  }

  /** `buildGgrText`: push the header lines, then either the single default segment or one
      line per pair of consecutive stops, and join the lines with newlines plus a final one. */
  method BuildGgrText(paletteName: JsString, colours: seq<ColorStop>, fmt: NumberFormat)
    returns (r: Result<JsString, Exception>)
    ensures r == GgrText(paletteName, colours, fmt)
  {
    var lines := [S("GIMP Gradient")];
    lines := lines + [S("Name: ") + paletteName];
    if |colours| < 2 {
      lines := lines + [S("1")];
      var c := if |colours| == 0 then DefaultStop else colours[0];
      if c.Alpha.None? {
        return Err(TypeError);
      }
      lines := lines + [SingleLine(fmt, c)];
      assert AlphasUpTo(colours, |colours|);
      assert lines == GgrLines(paletteName, colours, fmt);
      return Ok(Join(lines, NL) + NL);
    }
    var segmentCount := |colours| - 1;
    lines := lines + [DecimalString(segmentCount)];
    var pushed := PushSegmentLines(lines, colours, fmt);
    if pushed.None? {
      return Err(TypeError);
    }
    assert pushed.value == GgrLines(paletteName, colours, fmt);
    return Ok(Join(pushed.value, NL) + NL);
  }

  /** The segment loop of `buildGgrText`: one line per pair of consecutive stops appended to
      lines, or the TypeError of the first stop without Alpha. */
  method PushSegmentLines(lines: seq<JsString>, colours: seq<ColorStop>, fmt: NumberFormat)
    returns (r: Option<seq<JsString>>)
    requires |colours| >= 2
    ensures r.Some? <==> AlphasUpTo(colours, |colours|)
    ensures r.Some? ==> r.value == lines + SegmentLines(fmt, colours, |colours| - 1)
  {
    var out := lines;
    var segmentCount := |colours| - 1;
    for i := 0 to segmentCount
      invariant SegmentsWritable(colours, i)
      invariant out == lines + SegmentLines(fmt, colours, i)
    {
      var left := colours[i];
      var right := colours[i + 1];
      if left.Alpha.None? || right.Alpha.None? {
        return None;
      }
      var line := SegmentLine(fmt, left, right);
      out := out + [line];
    }
    return Some(out);
  }
}
