/** The group summary of `parseGrdArrayBuffer`: once a preset hierarchy was found, every group
    name once, in the order the gradients first show it, with the number of gradients in it. */
module GrdGroups {
  import opened Wrappers
  import opened Js
  import opened Colour

  /** `Group || '(Ungrouped)'`: a gradient without a group, or with an empty group name, is
      counted under "(Ungrouped)". */
  function GroupName(p: Palette): (r: JsString)
    ensures r != []
    ensures p.Group.Some? && p.Group.value != [] ==> r == p.Group.value
  {
    if p.Group.None? || p.Group.value == [] then S("(Ungrouped)") else p.Group.value
  }

  /** How many of the gradients ps are counted under g. */
  function Carrying(ps: seq<Palette>, g: JsString): (r: nat)
    ensures r <= |ps|
  {
    if ps == [] then 0
    else Carrying(ps[..|ps| - 1], g) + (if GroupName(ps[|ps| - 1]) == g then 1 else 0)
  }

  /** The group names of a summary, in order. */
  function Names(gs: seq<GroupCount>): (r: seq<JsString>)
    ensures |r| == |gs| && forall k :: 0 <= k < |gs| ==> r[k] == gs[k].name
  {
    if gs == [] then [] else [gs[0].name] + Names(gs[1..])
  }

  /** The count a summary gives g: 0 when g is not listed. */
  function Listed(gs: seq<GroupCount>, g: JsString): nat {
    if gs == [] then 0 else if gs[0].name == g then gs[0].count else Listed(gs[1..], g)
  }

  predicate NoRepeats(names: seq<JsString>) {
    forall a, b :: 0 <= a < b < |names| ==> names[a] != names[b]
  }

  predicate DistinctNames(gs: seq<GroupCount>) {
    NoRepeats(Names(gs))
  }

  predicate Positive(gs: seq<GroupCount>) {
    forall k :: 0 <= k < |gs| ==> gs[k].count >= 1
  }

  /** One more gradient in group g: g's count goes up, or g is listed last with 1. */
  function Tally(gs: seq<GroupCount>, g: JsString): seq<GroupCount> {
    if gs == [] then [GroupCount(g, 1)]
    else if gs[0].name == g then [gs[0].(count := gs[0].count + 1)] + gs[1..]
    else [gs[0]] + Tally(gs[1..], g)
  }

  /** The summary of the gradients ps, one `Tally` per gradient. */
  function Summary(ps: seq<Palette>): seq<GroupCount> {
    if ps == [] then [] else Tally(Summary(ps[..|ps| - 1]), GroupName(ps[|ps| - 1]))
  }

  // ---------------------------------------------------------------- what a summary says

  /** A tally lists g last when it was not listed, and otherwise keeps the names. */
  lemma {:induction false} TallyNames(gs: seq<GroupCount>, g: JsString)
    ensures Names(Tally(gs, g)) == if g in Names(gs) then Names(gs) else Names(gs) + [g]
  {
    if gs != [] {
      var rest := gs[1..];
      assert Names(gs) == [gs[0].name] + Names(rest);
      if gs[0].name != g {
        TallyNames(rest, g);
        assert Names(Tally(gs, g)) == [gs[0].name] + Names(Tally(rest, g));
        assert (g in Names(gs)) == (g in Names(rest));
      } else {
        assert Tally(gs, g)[1..] == rest;
        assert Names(Tally(gs, g)) == [g] + Names(rest);
        assert g in Names(gs);
      }
    }
  }

  /** A tally adds one to g's count and changes no other. */
  lemma {:induction false} TallyListed(gs: seq<GroupCount>, g: JsString, x: JsString)
    ensures Listed(Tally(gs, g), x) == Listed(gs, x) + (if x == g then 1 else 0)
  {
    if gs != [] {
      if gs[0].name != g {
        TallyListed(gs[1..], g, x);
      } else {
        assert Tally(gs, g)[1..] == gs[1..];
      }
    }
  }

  /** A tally keeps every count positive. */
  lemma {:induction false} TallyPositive(gs: seq<GroupCount>, g: JsString)
    requires Positive(gs)
    ensures Positive(Tally(gs, g))
  {
    if gs != [] {
      assert Positive(gs[1..]);
      if gs[0].name != g {
        TallyPositive(gs[1..], g);
        assert Tally(gs, g) == [gs[0]] + Tally(gs[1..], g);
      } else {
        assert Tally(gs, g)[1..] == gs[1..];
      }
    }
  }

  /** A tally keeps the names distinct and the counts positive, adds one to g's count and
      lists g last when it was not listed. */
  lemma TallyCounts(gs: seq<GroupCount>, g: JsString)
    requires DistinctNames(gs) && Positive(gs)
    ensures DistinctNames(Tally(gs, g)) && Positive(Tally(gs, g))
    ensures forall x :: Listed(Tally(gs, g), x) == Listed(gs, x) + (if x == g then 1 else 0)
    ensures Names(Tally(gs, g)) == if g in Names(gs) then Names(gs) else Names(gs) + [g]
  {
    TallyNames(gs, g);
    TallyPositive(gs, g);
    forall x
      ensures Listed(Tally(gs, g), x) == Listed(gs, x) + (if x == g then 1 else 0)
    {
      TallyListed(gs, g, x);
    }
  }

  /** A listed name has a positive count; an unlisted one has none. */
  lemma {:induction false} ListedMeansNamed(gs: seq<GroupCount>, x: JsString)
    requires Positive(gs)
    ensures Listed(gs, x) > 0 <==> x in Names(gs)
  {
    if gs != [] {
      assert Positive(gs[1..]);
      ListedMeansNamed(gs[1..], x);
      assert Names(gs) == [gs[0].name] + Names(gs[1..]);
    }
  }

  /** The summary lists every group once, with the number of gradients in it. */
  lemma {:induction false} SummaryCounts(ps: seq<Palette>)
    ensures DistinctNames(Summary(ps)) && Positive(Summary(ps))
    ensures forall x :: Listed(Summary(ps), x) == Carrying(ps, x)
  {
    if ps != [] {
      SummaryCounts(ps[..|ps| - 1]);
      TallyCounts(Summary(ps[..|ps| - 1]), GroupName(ps[|ps| - 1]));
    }
  }

  /** A name is listed exactly when some gradient is counted under it. */
  lemma SummaryNames(ps: seq<Palette>, x: JsString)
    ensures x in Names(Summary(ps)) <==> exists k :: 0 <= k < |ps| && GroupName(ps[k]) == x
  {
    SummaryCounts(ps);
    ListedMeansNamed(Summary(ps), x);
    CarryingMeansSome(ps, x);
  }

  lemma {:induction false} CarryingMeansSome(ps: seq<Palette>, x: JsString)
    ensures Carrying(ps, x) > 0 <==> exists k :: 0 <= k < |ps| && GroupName(ps[k]) == x
  {
    if ps != [] {
      var init := ps[..|ps| - 1];
      CarryingMeansSome(init, x);
      if Carrying(init, x) > 0 {
        var k :| 0 <= k < |init| && GroupName(init[k]) == x;
        assert ps[k] == init[k];
      }
      if exists k :: 0 <= k < |ps| && GroupName(ps[k]) == x {
        var k :| 0 <= k < |ps| && GroupName(ps[k]) == x;
        if k < |init| {
          assert init[k] == ps[k];
        }
      }
    }
  }

  /** Names are listed in the order the gradients first show them: more gradients only add
      names at the end. */
  lemma {:induction false} SummaryGrowsAtEnd(ps: seq<Palette>, more: seq<Palette>)
    ensures |Summary(ps)| <= |Summary(ps + more)|
    ensures Names(Summary(ps)) == Names(Summary(ps + more))[..|Summary(ps)|]
    decreases |more|
  {
    if more == [] {
      assert ps + more == ps;
    } else {
      var front := ps + more[..|more| - 1];
      SummaryGrowsAtEnd(ps, more[..|more| - 1]);
      assert (ps + more)[..|ps + more| - 1] == front;
      var g := GroupName(more[|more| - 1]);
      assert Summary(ps + more) == Tally(Summary(front), g);
      TallyNames(Summary(front), g);
      var a, b := Names(Summary(front)), Names(Summary(ps + more));
      assert b[..|a|] == a;
    }
  }

  // ---------------------------------------------------------------- the loop of the source

  /** `seenGroups` with the counts of `groupCounts`, as a summary. */
  function Zip(seen: seq<JsString>, counts: map<JsString, nat>): (r: seq<GroupCount>)
    requires forall g :: g in seen ==> g in counts
    ensures |r| == |seen|
  {
    if seen == [] then [] else [GroupCount(seen[0], counts[seen[0]])] + Zip(seen[1..], counts)
  }

  /** No name comes up twice. */
  predicate Distinct(s: seq<JsString>) {
    s == [] || (s[0] !in s[1..] && Distinct(s[1..]))
  }

  /** A new name added at the end keeps the names distinct. */
  lemma {:induction false} DistinctSnoc(s: seq<JsString>, g: JsString)
    requires Distinct(s) && g !in s
    ensures Distinct(s + [g])
  {
    if s != [] {
      assert (s + [g])[1..] == s[1..] + [g];
      DistinctSnoc(s[1..], g);
    }
  }

  /** A name is a key of the counts exactly when it has been seen, once. */
  ghost predicate CounterState(seen: seq<JsString>, counts: map<JsString, nat>) {
    (forall g :: g in counts <==> g in seen) && Distinct(seen)
  }

  /** One turn of the loop on a name already seen is one tally. */
  lemma {:induction false} ZipTallyListed(seen: seq<JsString>, counts: map<JsString, nat>, g: JsString)
    requires forall x :: x in seen ==> x in counts
    requires Distinct(seen) && g in seen
    ensures Tally(Zip(seen, counts), g) == Zip(seen, counts[g := counts[g] + 1])
  {
    var rest := seen[1..];
    assert forall x :: x in rest ==> x in seen;
    if seen[0] == g {
      ZipUnchanged(rest, counts, g, counts[g] + 1);
      ZipTallyHere(seen, counts, g);
    } else {
      assert g in rest by {
        var k :| 0 <= k < |seen| && seen[k] == g;
        assert rest[k - 1] == g;
      }
      ZipTallyListed(rest, counts, g);
      ZipTallyLater(seen, counts, g, counts[g := counts[g] + 1]);
    }
  }

  /** A tally of the first name listed bumps its count alone. */
  lemma ZipTallyHere(seen: seq<JsString>, counts: map<JsString, nat>, g: JsString)
    requires forall x :: x in seen ==> x in counts
    requires seen != [] && seen[0] == g
    requires Zip(seen[1..], counts[g := counts[g] + 1]) == Zip(seen[1..], counts)
    ensures Tally(Zip(seen, counts), g) == Zip(seen, counts[g := counts[g] + 1])
  {
    var zs := Zip(seen, counts);
    assert zs == [GroupCount(g, counts[g])] + Zip(seen[1..], counts);
    assert zs[1..] == Zip(seen[1..], counts);
  }

  /** A tally of a name listed later keeps the first entry and tallies the rest. */
  lemma ZipTallyLater(seen: seq<JsString>, counts: map<JsString, nat>, g: JsString, counts': map<JsString, nat>)
    requires forall x :: x in seen ==> x in counts
    requires seen != [] && seen[0] != g && g in counts && counts' == counts[g := counts[g] + 1]
    requires Tally(Zip(seen[1..], counts), g) == Zip(seen[1..], counts')
    ensures Tally(Zip(seen, counts), g) == Zip(seen, counts')
  {
    var head := GroupCount(seen[0], counts[seen[0]]);
    var zs := Zip(seen, counts);
    assert zs == [head] + Zip(seen[1..], counts);
    assert zs[0] == head && zs[1..] == Zip(seen[1..], counts);
    assert Zip(seen, counts') == [head] + Zip(seen[1..], counts');
  }

  /** One turn of the loop on a name not yet seen is one tally. */
  lemma {:induction false} ZipTallyNew(seen: seq<JsString>, counts: map<JsString, nat>, g: JsString)
    requires forall x :: x in seen ==> x in counts
    requires g !in seen
    ensures Tally(Zip(seen, counts), g) == Zip(seen + [g], counts[g := 1])
  {
    if seen == [] {
      assert Zip([g], counts[g := 1]) == [GroupCount(g, 1)] + Zip([], counts[g := 1]);
    } else {
      var rest, head := seen[1..], GroupCount(seen[0], counts[seen[0]]);
      assert forall x :: x in rest ==> x in seen;
      var zs := Zip(seen, counts);
      assert zs == [head] + Zip(rest, counts);
      ZipTallyNew(rest, counts, g);
      assert Tally(zs, g) == [head] + Tally(Zip(rest, counts), g);
      assert (seen + [g])[0] == seen[0] && (seen + [g])[1..] == rest + [g];
    }
  }

  /** Changing the count of a name not among `seen` leaves their summary alone. */
  lemma {:induction false} ZipUnchanged(seen: seq<JsString>, counts: map<JsString, nat>, g: JsString, n: nat)
    requires forall x :: x in seen ==> x in counts
    requires g !in seen
    ensures Zip(seen, counts[g := n]) == Zip(seen, counts)
  {
    if seen != [] {
      ZipUnchanged(seen[1..], counts, g, n);
    }
  }

  /** One turn of the loop keeps the counter consistent and tallies g. */
  lemma CountTurn(seen: seq<JsString>, counts: map<JsString, nat>, g: JsString,
                  seen': seq<JsString>, counts': map<JsString, nat>)
    requires CounterState(seen, counts)
    requires seen' == if g in counts then seen else seen + [g]
    requires counts' == counts[g := (if g in counts then counts[g] else 0) + 1]
    ensures CounterState(seen', counts')
    ensures Zip(seen', counts') == Tally(Zip(seen, counts), g)
  {
    KeysTurn(seen, counts, g, seen', counts');
    if g in counts {
      assert seen' == seen && counts' == counts[g := counts[g] + 1];
      ZipTallyListed(seen, counts, g);
    } else {
      assert seen' == seen + [g] && counts' == counts[g := 1];
      ZipTallyNew(seen, counts, g);
      DistinctSnoc(seen, g);
    }
  }

  /** One turn of the loop keeps the keys of the counts those seen. */
  lemma KeysTurn(seen: seq<JsString>, counts: map<JsString, nat>, g: JsString,
                 seen': seq<JsString>, counts': map<JsString, nat>)
    requires forall x :: x in counts <==> x in seen
    requires seen' == if g in counts then seen else seen + [g]
    requires counts' == counts[g := (if g in counts then counts[g] else 0) + 1]
    ensures forall x :: x in counts' <==> x in seen'
  {
    forall x
      ensures x in counts' <==> x in seen'
    {
      assert x in counts' <==> x in counts || x == g;
      assert x in seen' <==> x in seen || x == g;
    }
  }

  lemma SummarySnoc(ps: seq<Palette>, p: nat)
    requires p < |ps|
    ensures Summary(ps[..p + 1]) == Tally(Summary(ps[..p]), GroupName(ps[p]))
  {
    assert ps[..p + 1][..p] == ps[..p];
  }

  /** One turn of the summary loop: g is listed when new, and its count goes up. */
  method CountGroup(seen: seq<JsString>, counts: map<JsString, nat>, g: JsString)
    returns (seen': seq<JsString>, counts': map<JsString, nat>)
    requires CounterState(seen, counts)
    ensures CounterState(seen', counts')
    ensures Zip(seen', counts') == Tally(Zip(seen, counts), g)
  {
    seen', counts' := seen, counts;
    if g !in counts' {
      counts' := counts'[g := 0];
      seen' := seen' + [g];
    }
    counts' := counts'[g := counts'[g] + 1];
    CountTurn(seen, counts, g, seen', counts');
  }

  /** The loop that lists `seenGroups` with their counts. */
  method ListGroups(seen: seq<JsString>, counts: map<JsString, nat>) returns (groups: seq<GroupCount>)
    requires forall g :: g in seen ==> g in counts
    ensures groups == Zip(seen, counts)
  {
    groups := [];
    for k := 0 to |seen|
      invariant groups + Zip(seen[k..], counts) == Zip(seen, counts)
    {
      assert seen[k..] == [seen[k]] + seen[k + 1..];
      groups := groups + [GroupCount(seen[k], counts[seen[k]])];
    }
  }

  /** The summary loop of `parseGrdArrayBuffer`, with `groupCounts` a map from names to counts,
      followed by the loop that lists `seenGroups` with their counts. */
  method SummariseGroups(palettes: seq<Palette>) returns (groups: seq<GroupCount>)
    ensures groups == Summary(palettes)
  {
    var seenGroups: seq<JsString> := [];
    var groupCounts: map<JsString, nat> := map[];
    for p := 0 to |palettes|
      invariant CounterState(seenGroups, groupCounts)
      invariant Zip(seenGroups, groupCounts) == Summary(palettes[..p])
    {
      SummarySnoc(palettes, p);
      seenGroups, groupCounts := CountGroup(seenGroups, groupCounts, GroupName(palettes[p]));
    }
    assert palettes[..|palettes|] == palettes;
    groups := ListGroups(seenGroups, groupCounts);
  }

  // ---------------------------------------------------------------- the summary as written

  /** The names a plain object inherits from `Object.prototype`: `groupCounts[g]` is a function,
      so truthy, before anything is stored under them. */
  const INHERITED: set<JsString> := {
    S("constructor"), S("hasOwnProperty"), S("isPrototypeOf"), S("propertyIsEnumerable"),
    S("toLocaleString"), S("toString"), S("valueOf"), S("__defineGetter__"),
    S("__defineSetter__"), S("__lookupGetter__"), S("__lookupSetter__"), S("__proto__")}

  /** Storing under "__proto__" sets the object's prototype, which ignores a number. */
  const PROTO: JsString := S("__proto__")

  /** `seenGroups` and the own properties of `groupCounts`: the names holding a number, and
      those holding `NaN`, which an inherited function becomes once incremented. */
  datatype Counter = Counter(seen: seq<JsString>, counts: map<JsString, nat>, nan: set<JsString>)

  /** `groupCounts[g]` as a condition: 0 and `NaN` are false, an inherited function true. */
  predicate Truthy(c: Counter, g: JsString) {
    if g in c.counts then c.counts[g] != 0 else g !in c.nan && g in INHERITED
  }

  /** `groupCounts[g]++`: a number goes up, a function becomes `NaN`, which stays `NaN`. */
  function Increment(c: Counter, g: JsString): Counter {
    if g in c.counts then c.(counts := c.counts[g := c.counts[g] + 1])
    else if g in c.nan || g == PROTO then c
    else c.(nan := c.nan + {g})
  }

  /** One turn of the loop as written. */
  function CountStep(c: Counter, g: JsString): Counter {
    var c' := if !Truthy(c, g) then Counter(c.seen + [g], c.counts[g := 0], c.nan - {g}) else c;
    Increment(c', g)
  }

  /** The loop as written over the gradients ps; every seen name holds a number. */
  function CountAll(ps: seq<Palette>): (c: Counter)
    ensures forall g :: g in c.seen ==> g in c.counts
  {
    if ps == [] then Counter([], map[], {}) else CountStep(CountAll(ps[..|ps| - 1]), GroupName(ps[|ps| - 1]))
  }

  /** The summary as the source computes it, with `groupCounts` a plain object. */
  function AsWrittenSummary(ps: seq<Palette>): seq<GroupCount> {
    var c := CountAll(ps);
    Zip(c.seen, c.counts)
  }

  /** A gradient in a group named "toString" is left out of the summary as written: the
      inherited `toString` makes the first test true, and the increment stores `NaN`. */
  lemma InheritedNameDropped()
    ensures var ps := [Palette(S("g"), [], Some(S("toString")))];
      AsWrittenSummary(ps) == [] && Summary(ps) == [GroupCount(S("toString"), 1)]
  {
    var ps := [Palette(S("g"), [], Some(S("toString")))];
    assert ps[..0] == [];
    assert S("toString") != [];
    assert S("toString") in INHERITED;
  }

  /** With two gradients in the group "toString", the summary as written lists it once the
      second is met, with a count of 1. */
  lemma InheritedNameUndercounted()
    ensures var p := Palette(S("g"), [], Some(S("toString")));
      AsWrittenSummary([p, p]) == [GroupCount(S("toString"), 1)]
      && Summary([p, p]) == [GroupCount(S("toString"), 2)]
  {
    var p := Palette(S("g"), [], Some(S("toString")));
    var t := S("toString");
    assert [p, p][..1] == [p] && [p][..0] == [];
    assert t != [] && t in INHERITED;
    assert CountAll([p]) == Counter([], map[], {t});
  }

  /** "__proto__" never holds a number nor `NaN` and is never seen: the object's prototype
      keeps the inherited truthy value, so the group is never listed, however many gradients
      it has. */
  lemma {:induction false} ProtoNeverSeen(ps: seq<Palette>)
    ensures var c := CountAll(ps);
      PROTO !in c.seen && PROTO !in c.counts && PROTO !in c.nan
  {
    if ps != [] {
      ProtoNeverSeen(ps[..|ps| - 1]);
      assert PROTO in INHERITED;
    }
  }

  /** A group named "__proto__" is missing from the summary as written. */
  lemma ProtoNeverListed(ps: seq<Palette>)
    ensures PROTO !in Names(AsWrittenSummary(ps))
  {
    var c := CountAll(ps);
    ProtoNeverSeen(ps);
    ZipNames(c.seen, c.counts);
  }

  lemma {:induction false} ZipNames(seen: seq<JsString>, counts: map<JsString, nat>)
    requires forall g :: g in seen ==> g in counts
    ensures Names(Zip(seen, counts)) == seen
  {
    if seen != [] {
      ZipNames(seen[1..], counts);
      assert Zip(seen, counts) == [GroupCount(seen[0], counts[seen[0]])] + Zip(seen[1..], counts);
      assert Names(Zip(seen, counts)) == [seen[0]] + Names(Zip(seen[1..], counts));
    }
  }

  /** How the counter as written stands while no inherited name has come up: as the map of the
      intended loop, no `NaN`, and every count positive. */
  ghost predicate PlainCounter(c: Counter) {
    && CounterState(c.seen, c.counts)
    && c.nan == {}
    && (forall g :: g in c.counts ==> c.counts[g] >= 1)
  }

  /** One turn as written, on a name not inherited, is one turn of the intended loop. */
  lemma CountStepPlain(c: Counter, g: JsString)
    requires PlainCounter(c) && g !in INHERITED
    ensures CountStep(c, g).nan == {}
    ensures CountStep(c, g).seen == if g in c.counts then c.seen else c.seen + [g]
    ensures CountStep(c, g).counts == c.counts[g := (if g in c.counts then c.counts[g] else 0) + 1]
  {
    if g !in c.counts {
      assert c.counts[g := 0][g := 1] == c.counts[g := 1];
    }
  }

  /** One turn as written, on a name not inherited, keeps the counter plain and tallies g. */
  lemma AgreesStep(c: Counter, g: JsString)
    requires PlainCounter(c) && g !in INHERITED
    ensures PlainCounter(CountStep(c, g))
    ensures Zip(CountStep(c, g).seen, CountStep(c, g).counts) == Tally(Zip(c.seen, c.counts), g)
  {
    CountStepPlain(c, g);
    var c' := CountStep(c, g);
    CountTurn(c.seen, c.counts, g, c'.seen, c'.counts);
    forall x | x in c'.counts
      ensures c'.counts[x] >= 1
    {
      if x != g {
        assert x in c.counts && c'.counts[x] == c.counts[x];
      }
    }
  }

  /** As long as no gradient is in a group whose name `Object.prototype` has, the summary as
      written is the intended one. */
  lemma {:induction false} AsWrittenAgrees(ps: seq<Palette>)
    requires forall k :: 0 <= k < |ps| ==> GroupName(ps[k]) !in INHERITED
    ensures PlainCounter(CountAll(ps))
    ensures AsWrittenSummary(ps) == Summary(ps)
  {
    if ps != [] {
      var init, g := ps[..|ps| - 1], GroupName(ps[|ps| - 1]);
      AsWrittenAgrees(init);
      AgreesStep(CountAll(init), g);
      assert ps[..|ps| - 1] == init;
    }
  }
}
