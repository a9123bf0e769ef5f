/** The top-level comma split of `parseCssGradientStops` (load_gradients.js): the arguments
    of a CSS gradient cut at the commas that lie outside every parenthesis, so the commas
    inside `rgba(...)` stay with their colour. */
module CssSplit {
  import opened Js
  import opened Seqs

  const OPEN: Unit := 0x28
  const CLOSE: Unit := 0x29
  const COMMA: Unit := 0x2C

  /** The parenthesis depth after reading s: one up for each `(`, one down for each `)`,
      going below zero when a `)` has no partner. */
  function Depth(s: JsString): int {
    if s == [] then 0
    else
      var c := s[|s| - 1];
      Depth(s[..|s| - 1]) + (if c == OPEN then 1 else if c == CLOSE then -1 else 0)
  }

  /** The unit at i is a comma outside every parenthesis. */
  predicate TopComma(s: JsString, i: nat)
    requires i < |s|
  {
    s[i] == COMMA && Depth(s[..i]) == 0
  }

  /** The number of top-level commas in s. */
  function TopCommas(s: JsString): nat {
    if s == [] then 0
    else TopCommas(s[..|s| - 1]) + (if TopComma(s, |s| - 1) then 1 else 0)
  }

  /** The pieces of s between its top-level commas, untrimmed; there is always one more
      piece than top-level commas. */
  function Segments(s: JsString): (r: seq<JsString>)
    ensures |r| == TopCommas(s) + 1
  {
    if s == [] then [[]]
    else
      var init := Segments(s[..|s| - 1]);
      var c := s[|s| - 1];
      if TopComma(s, |s| - 1) then init + [[]]
      else init[..|init| - 1] + [init[|init| - 1] + [c]]
  }

  /** Every piece trimmed. */
  function TrimAll(ps: seq<JsString>): (r: seq<JsString>)
    ensures |r| == |ps|
    ensures forall k :: 0 <= k < |ps| ==> r[k] == Trim(ps[k])
  {
    if ps == [] then [] else TrimAll(ps[..|ps| - 1]) + [Trim(ps[|ps| - 1])]
  }

  /** The split the loader keeps: every piece before the last top-level comma trimmed, and the
      piece after it only when something is left once it is trimmed. */
  function StopTexts(s: JsString): seq<JsString> {
    var segs := Segments(s);
    var last := Trim(segs[|segs| - 1]);
    TrimAll(segs[..|segs| - 1]) + (if last != [] then [last] else [])
  }

  /** Nothing but the cut commas is lost: the pieces joined with commas are s again. */
  lemma {:induction false} SegmentsJoin(s: JsString)
    ensures Join(Segments(s), [COMMA]) == s
    decreases |s|
  {
    if s != [] {
      var s' := s[..|s| - 1];
      var init := Segments(s');
      var c := s[|s| - 1];
      SegmentsJoin(s');
      assert s == s' + [c];
      if TopComma(s, |s| - 1) {
        var r := init + [[]];
        assert Segments(s) == r;
        assert r[..|r| - 1] == init;
        assert Join(r, [COMMA]) == s' + [COMMA] + [];
      } else {
        var n := |init|;
        var r := init[..n - 1] + [init[n - 1] + [c]];
        assert Segments(s) == r;
        assert r[..|r| - 1] == init[..n - 1];
        if n >= 2 {
          var front := Join(init[..n - 1], [COMMA]);
          assert init[..n - 1] == init[..|init| - 1];
          assert s' == front + [COMMA] + init[n - 1];
          assert Join(r, [COMMA]) == front + [COMMA] + (init[n - 1] + [c]);
        } else {
          assert Join(r, [COMMA]) == init[0] + [c];
        }
      }
    }
  }

  /** How many texts the split yields: one per top-level comma, and one more when the text
      after the last of them is not blank. */
  lemma StopTextsCount(s: JsString)
    ensures var segs := Segments(s);
      |StopTexts(s)| == TopCommas(s) + (if Trim(segs[|segs| - 1]) != [] then 1 else 0)
  {
    var segs := Segments(s);
    var last := Trim(segs[|segs| - 1]);
    assert StopTexts(s) == TrimAll(segs[..|segs| - 1]) + (if last != [] then [last] else []);
  }

  /** Every text the split yields is trimmed: trimming it again changes nothing, and it
      does not start with white space. */
  lemma StopTextsTrimmed(s: JsString)
    ensures forall k :: 0 <= k < |StopTexts(s)| ==> StopTexts(s)[k] == Trim(StopTexts(s)[k])
    ensures forall k :: 0 <= k < |StopTexts(s)| && StopTexts(s)[k] != [] ==>
      !IsWhiteSpace(StopTexts(s)[k][0])
  {
    var r := StopTexts(s);
    forall k | 0 <= k < |r|
      ensures r[k] == Trim(r[k])
      ensures r[k] != [] ==> !IsWhiteSpace(r[k][0])
    {
      var src := TrimmedSource(s, k);
      TrimIdempotent(src);
      TrimKeepsMiddle(src);
    }
  }

  /** The piece the k-th text of the split was trimmed from. */
  lemma TrimmedSource(s: JsString, k: nat) returns (src: JsString)
    requires k < |StopTexts(s)|
    ensures StopTexts(s)[k] == Trim(src)
  {
    var segs := Segments(s);
    src := if k < |segs| - 1 then segs[k] else segs[|segs| - 1];
  }

  /** Trimming twice is trimming once. */
  lemma TrimIdempotent(s: JsString)
    ensures Trim(Trim(s)) == Trim(s)
  {
    var t := Trim(s);
    TrimKeepsMiddle(s);
    SkipSpaceFromSpec(t, 0);
    var a := SkipSpaceFrom(t, 0);
    if t != [] {
      assert a == 0;
      SkipSpaceBackSpec(t, 0, |t|);
      assert SkipSpaceBack(t, 0, |t|) == |t|;
    }
    assert t[0..|t|] == t;
  }

  /** One turn of the loop: the unit at i either moves the depth, cuts the current piece at
      a top-level comma, or joins the current piece. */
  lemma SegmentsStep(s: JsString, i: nat)
    requires i < |s|
    ensures Depth(s[..i + 1]) == Depth(s[..i]) + (if s[i] == OPEN then 1 else if s[i] == CLOSE then -1 else 0)
    ensures var init := Segments(s[..i]);
      Segments(s[..i + 1]) ==
        if s[i] == COMMA && Depth(s[..i]) == 0 then init + [[]]
        else init[..|init| - 1] + [init[|init| - 1] + [s[i]]]
  {
    assert s[..i + 1][..i] == s[..i];
  }

  /** The loop of `parseCssGradientStops` that splits its arguments at the top-level commas. */
  method SplitTopLevel(inner: JsString) returns (parts: seq<JsString>)
    ensures parts == StopTexts(inner)
  {
    parts := [];
    var depth := 0;
    var current: JsString := [];
    ghost var raw: seq<JsString> := [];
    var i := 0;
    while i < |inner|
      invariant 0 <= i <= |inner|
      invariant depth == Depth(inner[..i])
      invariant Segments(inner[..i]) == raw + [current]
      invariant parts == TrimAll(raw)
    {
      var ch := inner[i];
      SegmentsStep(inner, i);
      if ch == OPEN {
        depth := depth + 1;
        current := current + [ch];
      } else if ch == CLOSE {
        depth := depth - 1;
        current := current + [ch];
      } else if ch == COMMA && depth == 0 {
        parts := parts + [Trim(current)];
        raw := raw + [current];
        current := [];
      } else {
        current := current + [ch];
      }
      i := i + 1;
    }
    assert inner[..i] == inner;
    var last := Trim(current);
    if last != [] {
      parts := parts + [last];
    }
  }
}
