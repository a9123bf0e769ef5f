/** The track merge of `parseGrdArrayBuffer`: the positions of the colour and transparency
    stops sorted (stably) by position, then one output stop per distinct position, its colour
    sampled from the colour track and its opacity from the transparency track. */
module GrdMerge {
  import opened Wrappers
  import opened Colour
  import opened GrdStops

  predicate SortedByPosition(ps: seq<PosMid>) {
    forall a, b :: 0 <= a < b < |ps| ==> ps[a].Position <= ps[b].Position
  }

  /** The entries of ps at position p, in their order in ps. */
  function AtPosition(ps: seq<PosMid>, p: real): (r: seq<PosMid>)
    ensures |r| <= |ps|
  {
    if ps == [] then []
    else AtPosition(ps[..|ps| - 1], p) + (if ps[|ps| - 1].Position == p then [ps[|ps| - 1]] else [])
  }

  /** x placed after every entry of s whose position is at most its own, scanning from the
      back. */
  function InsertByPosition(s: seq<PosMid>, x: PosMid): (r: seq<PosMid>)
    ensures |r| == |s| + 1
  {
    if s == [] || s[|s| - 1].Position <= x.Position then s + [x]
    else InsertByPosition(s[..|s| - 1], x) + [s[|s| - 1]]
  }

  /** Inserting adds x and loses nothing. */
  lemma {:induction false} InsertPermutes(s: seq<PosMid>, x: PosMid)
    ensures multiset(InsertByPosition(s, x)) == multiset(s) + multiset{x}
  {
    if s != [] && s[|s| - 1].Position > x.Position {
      var init := s[..|s| - 1];
      InsertPermutes(init, x);
      assert s == init + [s[|s| - 1]];
    }
  }

  lemma {:induction false} InsertSorted(s: seq<PosMid>, x: PosMid)
    requires SortedByPosition(s)
    ensures SortedByPosition(InsertByPosition(s, x))
  {
    if s != [] && s[|s| - 1].Position > x.Position {
      var init, last := s[..|s| - 1], s[|s| - 1];
      InsertSorted(init, x);
      var front := InsertByPosition(init, x);
      InsertPermutes(init, x);
      forall y | y in front
        ensures y.Position <= last.Position
      {
        assert y in multiset(init) + multiset{x};
        if y in init {
          var a :| 0 <= a < |init| && init[a] == y;
          assert s[a] == y;
        }
      }
      var r := front + [last];
      forall a, b | 0 <= a < b < |r|
        ensures r[a].Position <= r[b].Position
      {
        assert r[a] == front[a];
        if b < |front| {
          assert r[b] == front[b];
        }
      }
    }
  }

  /** `positionsTrack.sort((a, b) => a.Position - b.Position)`: a stable sort by position,
      written as an insertion sort (every stable sort gives the same order). */
  function SortByPosition(ps: seq<PosMid>): (r: seq<PosMid>)
    ensures |r| == |ps| && SortedByPosition(r)
  {
    if ps == [] then []
    else
      var init, last := ps[..|ps| - 1], ps[|ps| - 1];
      InsertSorted(SortByPosition(init), last);
      InsertByPosition(SortByPosition(init), last)
  }

  /** The sort is a permutation of its input. */
  lemma {:induction false} SortPermutes(ps: seq<PosMid>)
    ensures multiset(SortByPosition(ps)) == multiset(ps)
  {
    if ps != [] {
      var init, last := ps[..|ps| - 1], ps[|ps| - 1];
      SortPermutes(init);
      InsertPermutes(SortByPosition(init), last);
      assert ps == init + [last];
    }
  }

  lemma AtPositionSnoc(s: seq<PosMid>, y: PosMid, p: real)
    ensures AtPosition(s + [y], p) == AtPosition(s, p) + (if y.Position == p then [y] else [])
  {
    assert (s + [y])[..|s|] == s;
  }

  lemma {:induction false} InsertAtPosition(s: seq<PosMid>, x: PosMid, p: real)
    requires SortedByPosition(s)
    ensures AtPosition(InsertByPosition(s, x), p) == AtPosition(s, p) + (if x.Position == p then [x] else [])
  {
    if s == [] || s[|s| - 1].Position <= x.Position {
      AtPositionSnoc(s, x, p);
    } else {
      var init := s[..|s| - 1];
      assert SortedByPosition(init);
      InsertAtPosition(init, x, p);
      InsertBeforeLast(s, x, p);
    }
  }

  /** Inserting before the last entry s ends with: that entry and x swap places among the
      entries at p, which cannot hold both, the last being after x. */
  lemma InsertBeforeLast(s: seq<PosMid>, x: PosMid, p: real)
    requires s != [] && s[|s| - 1].Position > x.Position
    requires AtPosition(InsertByPosition(s[..|s| - 1], x), p) == AtPosition(s[..|s| - 1], p) + (if x.Position == p then [x] else [])
    ensures AtPosition(InsertByPosition(s, x), p) == AtPosition(s, p) + (if x.Position == p then [x] else [])
  {
    var init, last := s[..|s| - 1], s[|s| - 1];
    var xs: seq<PosMid> := if x.Position == p then [x] else [];
    var ls: seq<PosMid> := if last.Position == p then [last] else [];
    var a := AtPosition(init, p);
    assert InsertByPosition(s, x) == InsertByPosition(init, x) + [last];
    AtPositionSnoc(InsertByPosition(init, x), last, p);
    assert AtPosition(InsertByPosition(s, x), p) == a + xs + ls;
    assert init + [last] == s;
    AtPositionSnoc(init, last, p);
    assert AtPosition(s, p) == a + ls;
    if xs == [] {
      assert a + xs + ls == a + ls + xs;
    } else {
      assert ls == [];
      assert a + xs + ls == a + ls + xs;
    }
  }

  /** The sort is stable: at every position, the entries keep the order they had. */
  lemma {:induction false} SortKeepsOrderAtEachPosition(ps: seq<PosMid>, p: real)
    ensures AtPosition(SortByPosition(ps), p) == AtPosition(ps, p)
  {
    if ps != [] {
      var init, last := ps[..|ps| - 1], ps[|ps| - 1];
      SortKeepsOrderAtEachPosition(init, p);
      InsertAtPosition(SortByPosition(init), last, p);
    }
  }

  /** The first entry at position p is the first of those AtPosition lists. */
  lemma {:induction false} FirstAtPosition(ps: seq<PosMid>, m: nat, p: real)
    requires m < |ps| && ps[m].Position == p
    requires forall k :: 0 <= k < m ==> ps[k].Position != p
    ensures AtPosition(ps, p) != [] && AtPosition(ps, p)[0] == ps[m]
  {
    var init, last := ps[..|ps| - 1], ps[|ps| - 1];
    if m < |ps| - 1 {
      FirstAtPosition(init, m, p);
    } else {
      AtPositionNone(init, p);
    }
  }

  lemma {:induction false} AtPositionNone(ps: seq<PosMid>, p: real)
    requires forall k :: 0 <= k < |ps| ==> ps[k].Position != p
    ensures AtPosition(ps, p) == []
  {
    if ps != [] {
      AtPositionNone(ps[..|ps| - 1], p);
    }
  }

  /** The output stop for the positions entry e. */
  function MergedStop(h: GrdHost, t: Tracks, e: PosMid): ColorStop {
    var colour := h.sample(t.colours, e.Position);
    var transparency := h.sample(t.alphas, e.Position);
    ColorStop(colour.Red, colour.Green, colour.Blue, Some(transparency.Alpha), e.Position, Some(e.Midpoint))
  }

  /** The output stops of some entries, in order. */
  function StopsOf(h: GrdHost, t: Tracks, es: seq<PosMid>): (r: seq<ColorStop>)
    ensures |r| == |es| && forall x :: 0 <= x < |es| ==> r[x] == MergedStop(h, t, es[x])
  {
    if es == [] then [] else StopsOf(h, t, es[..|es| - 1]) + [MergedStop(h, t, es[|es| - 1])]
  }

  /** Whether entry k of the sorted ps makes a stop: its position differs from the one before
      (from -1 for the first). */
  predicate Kept(ps: seq<PosMid>, k: nat)
    requires k < |ps|
  {
    ps[k].Position != (if k == 0 then -1.0 else ps[k - 1].Position)
  }

  /** The entries among the first k of the sorted ps that make a stop. */
  function KeptUpTo(ps: seq<PosMid>, k: nat): (r: seq<PosMid>)
    requires k <= |ps|
    ensures |r| <= k
  {
    if k == 0 then []
    else KeptUpTo(ps, k - 1) + (if Kept(ps, k - 1) then [ps[k - 1]] else [])
  }

  /** The merged gradient of the tracks t. */
  function Merged(h: GrdHost, t: Tracks): seq<ColorStop> {
    var ps := SortByPosition(t.positions);
    StopsOf(h, t, KeptUpTo(ps, |ps|))
  }

  /** The merge loop over the sorted `positionsTrack`, skipping a position equal to the last
      one used. */
  method Merge(h: GrdHost, t: Tracks) returns (colours: seq<ColorStop>)
    ensures colours == Merged(h, t)
  {
    var positionsTrack := SortByPosition(t.positions);
    var lastPosition := -1.0;
    colours := [];
    for k := 0 to |positionsTrack|
      invariant lastPosition == if k == 0 then -1.0 else positionsTrack[k - 1].Position
      invariant colours == StopsOf(h, t, KeptUpTo(positionsTrack, k))
    {
      var position := positionsTrack[k].Position;
      var midpoint := positionsTrack[k].Midpoint;
      if position == lastPosition {
        continue;
      }
      lastPosition := position;
      var colour := h.sample(t.colours, position);
      var transparency := h.sample(t.alphas, position);
      ghost var kept := KeptUpTo(positionsTrack, k);
      assert (kept + [positionsTrack[k]])[..|kept|] == kept;
      colours := colours + [ColorStop(colour.Red, colour.Green, colour.Blue, Some(transparency.Alpha), position, Some(midpoint))];
    }
  }

  /** The kept entries are exactly the entries of ps[..k] that are kept, in order. */
  lemma {:induction false} KeptUpToMembers(ps: seq<PosMid>, k: nat)
    requires k <= |ps|
    ensures forall x :: 0 <= x < |KeptUpTo(ps, k)| ==> exists m :: 0 <= m < k && Kept(ps, m) && KeptUpTo(ps, k)[x] == ps[m]
    ensures forall m :: 0 <= m < k && Kept(ps, m) ==> ps[m] in KeptUpTo(ps, k)
  {
    if k > 0 {
      KeptUpToMembers(ps, k - 1);
      var prev, r := KeptUpTo(ps, k - 1), KeptUpTo(ps, k);
      var tail := if Kept(ps, k - 1) then [ps[k - 1]] else [];
      assert r == prev + tail;
      forall x | 0 <= x < |r|
        ensures exists m :: 0 <= m < k && Kept(ps, m) && r[x] == ps[m]
      {
        if x < |prev| {
          assert r[x] == prev[x];
          var m :| 0 <= m < k - 1 && Kept(ps, m) && prev[x] == ps[m];
        } else {
          assert r[x] == ps[k - 1];
        }
      }
      forall m | 0 <= m < k && Kept(ps, m)
        ensures ps[m] in r
      {
        if m < k - 1 {
          assert ps[m] in prev;
        } else {
          assert ps[m] in tail;
        }
      }
    } else {
      assert KeptUpTo(ps, k) == [];
    }
  }

  predicate StrictlyIncreasing(es: seq<PosMid>) {
    forall a, b :: 0 <= a < b < |es| ==> es[a].Position < es[b].Position
  }

  /** Over sorted entries none of which is at -1, the kept entries' positions strictly
      increase and the last kept entry is at the last entry's position. */
  lemma {:induction false} KeptUpToIncreasing(ps: seq<PosMid>, k: nat)
    requires k <= |ps| && SortedByPosition(ps) && (|ps| > 0 ==> ps[0].Position != -1.0)
    ensures k > 0 ==> KeptUpTo(ps, k) != [] && KeptUpTo(ps, k)[|KeptUpTo(ps, k)| - 1].Position == ps[k - 1].Position
    ensures StrictlyIncreasing(KeptUpTo(ps, k))
  {
    if k > 0 {
      KeptUpToIncreasing(ps, k - 1);
      var prev, r := KeptUpTo(ps, k - 1), KeptUpTo(ps, k);
      if Kept(ps, k - 1) {
        assert r == prev + [ps[k - 1]];
        forall a, b | 0 <= a < b < |r|
          ensures r[a].Position < r[b].Position
        {
          assert r[a] == prev[a];
          if b < |prev| {
            assert r[b] == prev[b];
          } else {
            assert prev[a].Position <= prev[|prev| - 1].Position;
            assert ps[k - 2].Position <= ps[k - 1].Position;
          }
        }
      }
    }
  }

  /** In sorted entries none of which is at -1, an entry is kept exactly when it is the first
      at its position. */
  lemma KeptIsFirst(ps: seq<PosMid>, m: nat)
    requires m < |ps| && SortedByPosition(ps) && ps[0].Position != -1.0
    ensures Kept(ps, m) <==> forall m' :: 0 <= m' < m ==> ps[m'].Position != ps[m].Position
  {
    if Kept(ps, m) {
      forall m' | 0 <= m' < m
        ensures ps[m'].Position != ps[m].Position
      {
        assert ps[m'].Position <= ps[m - 1].Position;
      }
    }
  }

  /** Every entry shares its position with a kept entry at or before it. */
  lemma {:induction false} KeptCovers(ps: seq<PosMid>, y: nat)
    requires y < |ps| && ps[0].Position != -1.0
    ensures exists m :: 0 <= m <= y && Kept(ps, m) && ps[m].Position == ps[y].Position
    decreases y
  {
    if !Kept(ps, y) {
      KeptCovers(ps, y - 1);
    }
  }

  lemma SortSameMembers(ps: seq<PosMid>)
    ensures forall e :: e in SortByPosition(ps) <==> e in ps
  {
    var r := SortByPosition(ps);
    SortPermutes(ps);
    assert forall e :: e in r <==> e in multiset(r);
    assert forall e :: e in ps <==> e in multiset(ps);
  }

  /** The entries of t's positions track that make stops, with what the lemmas about them need. */
  lemma MergedEntries(t: Tracks) returns (ps: seq<PosMid>, kept: seq<PosMid>)
    requires forall e :: e in t.positions ==> e.Position >= 0.0
    ensures ps == SortByPosition(t.positions) && kept == KeptUpTo(ps, |ps|)
    ensures SortedByPosition(ps) && (forall e :: e in ps <==> e in t.positions)
    ensures |ps| > 0 ==> ps[0].Position != -1.0
  {
    ps := SortByPosition(t.positions);
    kept := KeptUpTo(ps, |ps|);
    SortSameMembers(t.positions);
    if ps != [] {
      assert ps[0] in ps;
    }
  }

  /** The merged gradient's positions strictly increase. */
  lemma MergedIncreasing(h: GrdHost, t: Tracks)
    requires forall e :: e in t.positions ==> e.Position >= 0.0
    ensures forall a, b :: 0 <= a < b < |Merged(h, t)| ==> Merged(h, t)[a].Position < Merged(h, t)[b].Position
  {
    var ps, kept := MergedEntries(t);
    KeptUpToIncreasing(ps, |ps|);
  }

  /** Each merged stop is at the position of a stop of one of the tracks. */
  lemma MergedPositionsFromTracks(h: GrdHost, t: Tracks)
    requires forall e :: e in t.positions ==> e.Position >= 0.0
    ensures forall x :: 0 <= x < |Merged(h, t)| ==> exists e :: e in t.positions && e.Position == Merged(h, t)[x].Position
  {
    var ps, kept := MergedEntries(t);
    var r := Merged(h, t);
    KeptUpToMembers(ps, |ps|);
    forall x | 0 <= x < |r|
      ensures exists e :: e in t.positions && e.Position == r[x].Position
    {
      var m :| 0 <= m < |ps| && Kept(ps, m) && kept[x] == ps[m];
      assert ps[m] in ps;
      assert r[x].Position == ps[m].Position;
    }
  }

  /** No merged stop sits before 0, and each has an opacity. */
  lemma MergedStopsOk(h: GrdHost, t: Tracks)
    requires forall e :: e in t.positions ==> e.Position >= 0.0
    ensures forall x :: 0 <= x < |Merged(h, t)| ==> Merged(h, t)[x].Position >= 0.0 && Merged(h, t)[x].Alpha.Some?
  {
    MergedPositionsFromTracks(h, t);
    var ps, kept := MergedEntries(t);
    var r := Merged(h, t);
    forall x | 0 <= x < |r|
      ensures r[x].Position >= 0.0 && r[x].Alpha.Some?
    {
      var e :| e in t.positions && e.Position == r[x].Position;
      assert r[x] == MergedStop(h, t, kept[x]);
    }
  }

  /** Every stop of either track has a merged stop at its position. */
  lemma MergedCoversTracks(h: GrdHost, t: Tracks)
    requires forall e :: e in t.positions ==> e.Position >= 0.0
    ensures forall e :: e in t.positions ==> exists x :: 0 <= x < |Merged(h, t)| && Merged(h, t)[x].Position == e.Position
  {
    var ps, kept := MergedEntries(t);
    var r := Merged(h, t);
    forall e | e in t.positions
      ensures exists x :: 0 <= x < |r| && r[x].Position == e.Position
    {
      assert e in ps;
      var y :| 0 <= y < |ps| && ps[y] == e;
      KeptHasPosition(ps, y);
      var x :| 0 <= x < |kept| && kept[x].Position == ps[y].Position;
      assert r[x].Position == kept[x].Position;
    }
  }

  /** Every position of the sorted track is the position of a kept entry. */
  lemma KeptHasPosition(ps: seq<PosMid>, y: nat)
    requires y < |ps| && ps[0].Position != -1.0
    ensures exists x :: 0 <= x < |KeptUpTo(ps, |ps|)| && KeptUpTo(ps, |ps|)[x].Position == ps[y].Position
  {
    var kept := KeptUpTo(ps, |ps|);
    KeptUpToMembers(ps, |ps|);
    KeptCovers(ps, y);
    var m :| 0 <= m <= y && Kept(ps, m) && ps[m].Position == ps[y].Position;
    assert ps[m] in kept;
    var x :| 0 <= x < |kept| && kept[x] == ps[m];
  }

  /** The stop s is the one made from the first entry of t's positions track at its position. */
  predicate FromFirstEntry(h: GrdHost, t: Tracks, s: ColorStop) {
    var first := AtPosition(t.positions, s.Position);
    first != [] && s == MergedStop(h, t, first[0])
  }

  /** Each merged stop is sampled at its position from both tracks and takes the midpoint of
      the first entry pushed at that position, so a colour stop's midpoint wins over a
      transparency stop's at a shared position. */
  lemma MergedFirstEntry(h: GrdHost, t: Tracks)
    requires forall e :: e in t.positions ==> e.Position >= 0.0
    ensures forall x :: 0 <= x < |Merged(h, t)| ==> FromFirstEntry(h, t, Merged(h, t)[x])
  {
    var ps, kept := MergedEntries(t);
    var r := Merged(h, t);
    KeptUpToMembers(ps, |ps|);
    forall x | 0 <= x < |r|
      ensures FromFirstEntry(h, t, r[x])
    {
      var m :| 0 <= m < |ps| && Kept(ps, m) && kept[x] == ps[m];
      KeptIsFirst(ps, m);
      FirstAtPosition(ps, m, ps[m].Position);
      SortKeepsOrderAtEachPosition(t.positions, ps[m].Position);
    }
  }
}
