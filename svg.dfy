/** The SVG writer of palette-js/write_svg.js: one `linearGradient` per gradient inside
    `<defs>`, optionally followed by a labelled preview bar per gradient, all as lines joined
    with newlines; and `escapeXml`. */
module Svg {
  import opened Wrappers
  import opened Js
  import opened Seqs
  import opened Colour

  // ---------------------------------------------------------------- escapeXml

  const AMP: Unit := 38
  const LT: Unit := 60
  const GT: Unit := 62
  const QUOT: Unit := 34

  /** "&amp;", "&lt;", "&gt;" and "&quot;". */
  const AMP_ENTITY: JsString := [38, 97, 109, 112, 59]
  const LT_ENTITY: JsString := [38, 108, 116, 59]
  const GT_ENTITY: JsString := [38, 103, 116, 59]
  const QUOT_ENTITY: JsString := [38, 113, 117, 111, 116, 59]

  /** `s.replace(/u/g, rep)` for a pattern of one code unit: every u replaced by rep. */
  function ReplaceAll(s: JsString, u: Unit, rep: JsString): JsString
  {
    if s == [] then [] else (if s[0] == u then rep else [s[0]]) + ReplaceAll(s[1..], u, rep)
  }

  /** `escapeXml`: '&' first, then '<', '>' and '"'. */
  function EscapeXml(s: JsString): JsString
  {
    ReplaceAll(ReplaceAll(ReplaceAll(ReplaceAll(s, AMP, AMP_ENTITY), LT, LT_ENTITY), GT, GT_ENTITY), QUOT, QUOT_ENTITY)
  }

  predicate IsSpecial(u: Unit) {
    u == AMP || u == LT || u == GT || u == QUOT
  }

  /** The escape of one code unit. */
  function EscapeUnit(u: Unit): JsString
  {
    if u == AMP then AMP_ENTITY
    else if u == LT then LT_ENTITY
    else if u == GT then GT_ENTITY
    else if u == QUOT then QUOT_ENTITY
    else [u]
  }

  /** The reference escape: each code unit escaped on its own. */
  function EscapeEach(s: JsString): JsString
  {
    if s == [] then [] else EscapeUnit(s[0]) + EscapeEach(s[1..])
  }

  lemma {:induction false} ReplaceAllAppend(a: JsString, b: JsString, u: Unit, rep: JsString)
    ensures ReplaceAll(a + b, u, rep) == ReplaceAll(a, u, rep) + ReplaceAll(b, u, rep)
  {
    if a != [] {
      assert (a + b)[1..] == a[1..] + b;
      ReplaceAllAppend(a[1..], b, u, rep);
    } else {
      assert a + b == b;
    }
  }

  lemma {:induction false} ReplaceAllAbsent(s: JsString, u: Unit, rep: JsString)
    requires forall i :: 0 <= i < |s| ==> s[i] != u
    ensures ReplaceAll(s, u, rep) == s
  {
    if s != [] {
      ReplaceAllAbsent(s[1..], u, rep);
    }
  }

  /** Replacing in a text of one code unit. */
  lemma ReplaceOne(u: Unit, x: Unit, rep: JsString)
    ensures ReplaceAll([u], x, rep) == if u == x then rep else [u]
  {
    assert [u][1..] == [];
  }

  /** The four replacements applied to one code unit give its own escape: an entity put in by
      one replacement holds none of the units the later ones look for. */
  lemma EscapeOneUnit(u: Unit)
    ensures EscapeXml([u]) == EscapeUnit(u)
  {
    ReplaceOne(u, AMP, AMP_ENTITY);
    if u == AMP {
      ReplaceAllAbsent(AMP_ENTITY, LT, LT_ENTITY);
      ReplaceAllAbsent(AMP_ENTITY, GT, GT_ENTITY);
      ReplaceAllAbsent(AMP_ENTITY, QUOT, QUOT_ENTITY);
    } else {
      ReplaceOne(u, LT, LT_ENTITY);
      if u == LT {
        ReplaceAllAbsent(LT_ENTITY, GT, GT_ENTITY);
        ReplaceAllAbsent(LT_ENTITY, QUOT, QUOT_ENTITY);
      } else {
        ReplaceOne(u, GT, GT_ENTITY);
        if u == GT {
          ReplaceAllAbsent(GT_ENTITY, QUOT, QUOT_ENTITY);
        } else {
          ReplaceOne(u, QUOT, QUOT_ENTITY);
        }
      }
    }
  }

  /** The chain of four replacements escapes each code unit on its own: replacing '&' first
      means no '&' of a later entity is escaped again. */
  lemma {:induction false} EscapeXmlIsEach(s: JsString)
    ensures EscapeXml(s) == EscapeEach(s)
  {
    if s != [] {
      var x, t := [s[0]], s[1..];
      assert s == x + t;
      ReplaceAllAppend(x, t, AMP, AMP_ENTITY);
      var a1, b1 := ReplaceAll(x, AMP, AMP_ENTITY), ReplaceAll(t, AMP, AMP_ENTITY);
      ReplaceAllAppend(a1, b1, LT, LT_ENTITY);
      var a2, b2 := ReplaceAll(a1, LT, LT_ENTITY), ReplaceAll(b1, LT, LT_ENTITY);
      ReplaceAllAppend(a2, b2, GT, GT_ENTITY);
      var a3, b3 := ReplaceAll(a2, GT, GT_ENTITY), ReplaceAll(b2, GT, GT_ENTITY);
      ReplaceAllAppend(a3, b3, QUOT, QUOT_ENTITY);
      assert EscapeXml(s) == EscapeXml(x) + EscapeXml(t);
      EscapeOneUnit(s[0]);
      EscapeXmlIsEach(t);
    }
  }

  /** One of the four entities starts at position i of e. */
  predicate EntityAt(e: JsString, i: nat)
    requires i <= |e|
  {
    AMP_ENTITY <= e[i..] || LT_ENTITY <= e[i..] || GT_ENTITY <= e[i..] || QUOT_ENTITY <= e[i..]
  }

  /** Position i of an escaped text e holds no '<', '>' or '"', and an '&' there opens one of
      the four entities. */
  predicate Safe(e: JsString, i: nat)
    requires i < |e|
  {
    e[i] != LT && e[i] != GT && e[i] != QUOT && (e[i] == AMP ==> EntityAt(e, i))
  }

  /** An escaped text holds no '<', '>' or '"', and every '&' in it opens one of the four
      entities. */
  lemma {:induction false} EscapedIsSafe(s: JsString)
    ensures forall i :: 0 <= i < |EscapeXml(s)| ==> Safe(EscapeXml(s), i)
  {
    EscapeXmlIsEach(s);
    EachIsSafe(s);
  }

  /** The escape of one unit holds no '<', '>' or '"', and an '&' only as the first unit of
      an entity. */
  lemma UnitEscapeSafe(u: Unit)
    ensures var e := EscapeUnit(u);
      && |e| >= 1
      && (forall i :: 0 <= i < |e| ==> e[i] != LT && e[i] != GT && e[i] != QUOT)
      && (forall i :: 1 <= i < |e| ==> e[i] != AMP)
      && (e[0] == AMP ==> e == AMP_ENTITY || e == LT_ENTITY || e == GT_ENTITY || e == QUOT_ENTITY)
  {
  }

  lemma {:induction false} EachIsSafe(s: JsString)
    ensures forall i :: 0 <= i < |EscapeEach(s)| ==> Safe(EscapeEach(s), i)
  {
    if s != [] {
      EachIsSafe(s[1..]);
      UnitEscapeSafe(s[0]);
      var head, rest := EscapeUnit(s[0]), EscapeEach(s[1..]);
      var e := head + rest;
      assert e == EscapeEach(s);
      forall i | 0 <= i < |e|
        ensures Safe(e, i)
      {
        if i < |head| {
          assert e[i] == head[i];
          if i == 0 && e[i] == AMP {
            assert e[0..][..|head|] == head;
          }
        } else {
          assert e[i] == rest[i - |head|];
          assert Safe(rest, i - |head|);
          assert e[i..] == rest[i - |head|..];
        }
      }
    }
  }

  /** A text without any of the four special units is left as it is. */
  lemma {:induction false} EscapePlain(s: JsString)
    requires forall i :: 0 <= i < |s| ==> !IsSpecial(s[i])
    ensures EscapeXml(s) == s
  {
    EscapeXmlIsEach(s);
    EachPlain(s);
  }

  lemma {:induction false} EachPlain(s: JsString)
    requires forall i :: 0 <= i < |s| ==> !IsSpecial(s[i])
    ensures EscapeEach(s) == s
  {
    if s != [] {
      EachPlain(s[1..]);
    }
  }

  // ---------------------------------------------------------------- ids

  /** A code unit of [A-Za-z0-9_-]. */
  predicate IsIdUnit(u: Unit) {
    (65 <= u <= 90) || (97 <= u <= 122) || (48 <= u <= 57) || u == 95 || u == 45
  }

  /** `name.replace(/[^a-zA-Z0-9_-]/g, '_')`: the same length, every unit outside the id set
      turned into '_' and every other kept. */
  function SafeId(s: JsString): (r: JsString)
    ensures |r| == |s|
    ensures forall i :: 0 <= i < |s| ==> IsIdUnit(r[i]) && (IsIdUnit(s[i]) ==> r[i] == s[i])
  {
    if s == [] then []
    else [if IsIdUnit(s[0]) then s[0] else 95] + SafeId(s[1..])
  }

  /** Escaping a safe id changes nothing. */
  lemma SafeIdUnescaped(s: JsString)
    ensures EscapeXml(SafeId(s)) == SafeId(s)
  {
    EscapePlain(SafeId(s));
  }

  /** "gradient-" followed by the index. */
  function GradientId(i: nat): JsString {
    S("gradient-") + DecimalString(i)
  }

  /** Two gradients never share a numbered id. */
  lemma GradientIdsDistinct(i: nat, j: nat)
    requires GradientId(i) == GradientId(j)
    ensures i == j
  {
    var p := S("gradient-");
    assert DecimalString(i) == GradientId(i)[|p|..];
    assert DecimalString(j) == GradientId(j)[|p|..];
    DecimalStringInjective(i, j);
  }

  // ---------------------------------------------------------------- lines

  const BAR_HEIGHT: int := 40
  const BAR_WIDTH: int := 600
  const GAP: int := 8
  const LABEL_HEIGHT: int := 16
  const ROW_HEIGHT: int := BAR_HEIGHT + LABEL_HEIGHT + GAP

  const NL: JsString := [10]

  /** One line the writers push, by what it holds; Text renders it. */
  datatype SvgLine =
    | XmlDecl
    | SvgOpen(width: int, height: int)
    | SvgOpenPlain
    | DefsOpen
    | GradientOpen(id: JsString)
    | Stop(colour: ColorStop)
    | GradientClose
    | DefsClose
    | Blank
    | Label(baseline: int, name: JsString)
    | Bar(top: int, gradient: nat)
    | SvgClose

  /** The text of a line. The id and the label are escaped; a stop gives its offset in percent
      to two decimals, its channels scaled to 0..255 and rounded, and its opacity to three
      decimals, 1 when Alpha is absent; a bar is painted with the numbered gradient it names. */
  function Text(fmt: NumberFormat, l: SvgLine): JsString
  {
    match l
    case XmlDecl => S("<?xml version=\"1.0\" encoding=\"UTF-8\"?>")
    case SvgOpen(w, h) =>
      S("<svg xmlns=\"http://www.w3.org/2000/svg\" width=\"") + DecimalString(w)
      + S("\" height=\"") + DecimalString(h)
      + S("\" viewBox=\"0 0 ") + DecimalString(w) + S(" ") + DecimalString(h) + S("\">")
    case SvgOpenPlain => S("<svg xmlns=\"http://www.w3.org/2000/svg\">")
    case DefsOpen => S("  <defs>")
    case GradientOpen(id) =>
      S("    <linearGradient id=\"") + EscapeXml(id) + S("\" x1=\"0%\" y1=\"0%\" x2=\"100%\" y2=\"0%\">")
    case Stop(c) =>
      S("      <stop offset=\"") + fmt.toFixed(c.Position * 100.0, 2)
      + S("%\" stop-color=\"rgb(") + DecimalString(Round(c.Red * 255.0))
      + S(",") + DecimalString(Round(c.Green * 255.0))
      + S(",") + DecimalString(Round(c.Blue * 255.0))
      + S(")\" stop-opacity=\"") + fmt.toFixed(AlphaOf(c), 3) + S("\"/>")
    case GradientClose => S("    </linearGradient>")
    case DefsClose => S("  </defs>")
    case Blank => []
    case Label(y, name) =>
      S("  <text x=\"4\" y=\"") + DecimalString(y)
      + S("\" font-family=\"sans-serif\" font-size=\"11\" fill=\"#333\">") + EscapeXml(name) + S("</text>")
    case Bar(y, i) =>
      S("  <rect x=\"0\" y=\"") + DecimalString(y) + S("\" width=\"") + DecimalString(BAR_WIDTH)
      + S("\" height=\"") + DecimalString(BAR_HEIGHT) + S("\" fill=\"url(#") + GradientId(i) + S(")\" rx=\"4\"/>")
    case SvgClose => S("</svg>")
  }

  /** The texts of the lines, in order. */
  function Texts(fmt: NumberFormat, ls: seq<SvgLine>): seq<JsString>
  {
    seq(|ls|, i requires 0 <= i < |ls| => Text(fmt, ls[i]))
  }

  /** `lines.join('\n')`. */
  function Document(fmt: NumberFormat, ls: seq<SvgLine>): JsString
  {
    Join(Texts(fmt, ls), NL)
  }

  /** The stops of the first n colours. */
  function StopLines(cs: seq<ColorStop>, n: nat): (r: seq<SvgLine>)
    requires n <= |cs|
    ensures |r| == n
  {
    if n == 0 then [] else StopLines(cs, n - 1) + [Stop(cs[n - 1])]
  }

  /** The `linearGradient` element of one gradient. */
  function GradientBlock(id: JsString, cs: seq<ColorStop>): (r: seq<SvgLine>)
    ensures |r| == |cs| + 2
  {
    [GradientOpen(id)] + StopLines(cs, |cs|) + [GradientClose]
  }

  /** The id of gradient i: numbered in `buildSvgGradients`, its sanitised name in
      `buildSvgDefsOnly`. */
  function IdOf(ps: seq<Palette>, numbered: bool, i: nat): JsString
    requires i < |ps|
  {
    if numbered then GradientId(i) else SafeId(ps[i].Name)
  }

  /** The `linearGradient` elements of the first n gradients. */
  function DefsBlocks(ps: seq<Palette>, numbered: bool, n: nat): seq<SvgLine>
    requires n <= |ps|
  {
    if n == 0 then []
    else DefsBlocks(ps, numbered, n - 1) + GradientBlock(IdOf(ps, numbered, n - 1), ps[n - 1].Colours)
  }

  /** The top of row i. */
  function RowY(i: nat): int {
    i * ROW_HEIGHT + GAP
  }

  /** The preview row of gradient i: its label, then its bar. */
  function PreviewRow(ps: seq<Palette>, i: nat): seq<SvgLine>
    requires i < |ps|
  {
    [Label(RowY(i) + LABEL_HEIGHT - 3, ps[i].Name), Bar(RowY(i) + LABEL_HEIGHT, i)]
  }

  /** The preview rows of the first n gradients. */
  function PreviewLines(ps: seq<Palette>, n: nat): (r: seq<SvgLine>)
    requires n <= |ps|
    ensures |r| == 2 * n
  {
    if n == 0 then [] else PreviewLines(ps, n - 1) + PreviewRow(ps, n - 1)
  }

  /** The lines of `buildSvgGradients`. */
  function SvgLines(pd: PaletteData): seq<SvgLine>
  {
    var ps := pd.Palettes;
    [XmlDecl, SvgOpen(BAR_WIDTH, |ps| * ROW_HEIGHT + GAP), DefsOpen]
    + DefsBlocks(ps, true, |ps|)
    + [DefsClose, Blank]
    + PreviewLines(ps, |ps|)
    + [SvgClose]
  }

  /** The lines of `buildSvgDefsOnly`. */
  function SvgDefsLines(pd: PaletteData): seq<SvgLine>
  {
    var ps := pd.Palettes;
    [XmlDecl, SvgOpenPlain, DefsOpen] + DefsBlocks(ps, false, |ps|) + [DefsClose, SvgClose]
  }

  // ---------------------------------------------------------------- writers

  /** The inner loop of both writers: the `linearGradient` of one gradient, one `<stop>` per
      colour in order. */
  method PushGradientBlock(lines: seq<SvgLine>, id: JsString, cs: seq<ColorStop>) returns (out: seq<SvgLine>)
    ensures out == lines + GradientBlock(id, cs)
  {
    out := lines + [GradientOpen(id)];
    ghost var started := out;
    for j := 0 to |cs|
      invariant out == started + StopLines(cs, j)
    {
      out := out + [Stop(cs[j])];
    }
    out := out + [GradientClose];
  }

  /** The definitions loop of both writers. */
  method PushDefs(lines: seq<SvgLine>, ps: seq<Palette>, numbered: bool) returns (out: seq<SvgLine>)
    ensures out == lines + DefsBlocks(ps, numbered, |ps|)
  {
    out := lines;
    for i := 0 to |ps|
      invariant out == lines + DefsBlocks(ps, numbered, i)
    {
      var id := if numbered then GradientId(i) else SafeId(ps[i].Name);
      out := PushGradientBlock(out, id, ps[i].Colours);
    }
  }

  /** The preview loop of `buildSvgGradients`. */
  method PushPreviews(lines: seq<SvgLine>, ps: seq<Palette>) returns (out: seq<SvgLine>)
    ensures out == lines + PreviewLines(ps, |ps|)
  {
    out := lines;
    for i := 0 to |ps|
      invariant out == lines + PreviewLines(ps, i)
    {
      var y := i * ROW_HEIGHT + GAP;
      out := out + [Label(y + LABEL_HEIGHT - 3, ps[i].Name), Bar(y + LABEL_HEIGHT, i)];
    }
  }

  /** `buildSvgGradients`. */
  method BuildSvgGradients(pd: PaletteData, fmt: NumberFormat) returns (text: JsString)
    ensures text == Document(fmt, SvgLines(pd))
  {
    var palettes := pd.Palettes;
    var svgHeight := |palettes| * ROW_HEIGHT + GAP;
    var lines := [XmlDecl, SvgOpen(BAR_WIDTH, svgHeight), DefsOpen];
    lines := PushDefs(lines, palettes, true);
    lines := lines + [DefsClose, Blank];
    lines := PushPreviews(lines, palettes);
    lines := lines + [SvgClose];
    text := Document(fmt, lines);
  }

  /** `buildSvgDefsOnly`. */
  method BuildSvgDefsOnly(pd: PaletteData, fmt: NumberFormat) returns (text: JsString)
    ensures text == Document(fmt, SvgDefsLines(pd))
  {
    var lines := [XmlDecl, SvgOpenPlain, DefsOpen];
    lines := PushDefs(lines, pd.Palettes, false);
    lines := lines + [DefsClose, SvgClose];
    text := Document(fmt, lines);
  }

  // ---------------------------------------------------------------- properties

  /** Line j + 1 of a gradient's element is the stop of its colour j. */
  lemma {:induction false} StopLinesAt(cs: seq<ColorStop>, n: nat)
    requires n <= |cs|
    ensures forall j :: 0 <= j < n ==> StopLines(cs, n)[j] == Stop(cs[j])
  {
    if n > 0 {
      StopLinesAt(cs, n - 1);
    }
  }

  /** A gradient's element opens with its id, holds one `<stop>` per colour in order, and
      closes. */
  lemma GradientBlockShape(id: JsString, cs: seq<ColorStop>)
    ensures var b := GradientBlock(id, cs);
      && b[0] == GradientOpen(id) && b[|cs| + 1] == GradientClose
      && forall j :: 0 <= j < |cs| ==> b[j + 1] == Stop(cs[j])
  {
    var b, mid := GradientBlock(id, cs), StopLines(cs, |cs|);
    StopLinesAt(cs, |cs|);
    assert b == [GradientOpen(id)] + mid + [GradientClose];
    forall j | 0 <= j < |cs|
      ensures b[j + 1] == Stop(cs[j])
    {
      assert b[j + 1] == mid[j];
    }
  }

  lemma {:induction false} DefsBlocksPrefix(ps: seq<Palette>, numbered: bool, k: nat, n: nat)
    requires k <= n <= |ps|
    ensures DefsBlocks(ps, numbered, k) <= DefsBlocks(ps, numbered, n)
    decreases n - k
  {
    if k < n {
      DefsBlocksPrefix(ps, numbered, k, n - 1);
      PrefixGrows(DefsBlocks(ps, numbered, k), DefsBlocks(ps, numbered, n - 1),
        GradientBlock(IdOf(ps, numbered, n - 1), ps[n - 1].Colours));
    }
  }

  /** The element of gradient i follows those of the gradients before it: one element per
      gradient, in order, with the id of gradient i. */
  lemma DefsBlockAt(ps: seq<Palette>, numbered: bool, i: nat)
    requires i < |ps|
    ensures DefsBlocks(ps, numbered, i) + GradientBlock(IdOf(ps, numbered, i), ps[i].Colours)
         <= DefsBlocks(ps, numbered, |ps|)
  {
    DefsBlocksPrefix(ps, numbered, i + 1, |ps|);
  }

  /** Row i of the previews: its label's baseline at 64 i + 21 with the gradient's name, its
      bar's top at 64 i + 24, the bar painted with gradient i. */
  lemma {:induction false} PreviewRowAt(ps: seq<Palette>, n: nat, i: nat)
    requires i < n <= |ps|
    ensures var r := PreviewLines(ps, n);
      r[2 * i] == Label(64 * i + 21, ps[i].Name) && r[2 * i + 1] == Bar(64 * i + 24, i)
  {
    if i < n - 1 {
      PreviewRowAt(ps, n - 1, i);
    }
  }

  /** The picture is 600 wide and 64 per gradient plus 8 high, and the last line closes it. */
  lemma SvgSize(pd: PaletteData)
    ensures SvgLines(pd)[1] == SvgOpen(600, 64 * |pd.Palettes| + 8)
    ensures SvgLines(pd)[|SvgLines(pd)| - 1] == SvgClose
  {
  }
}
