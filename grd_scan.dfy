/** The tag scanner of the Photoshop gradient reader (palette-js/load_gradients.js).
    The format has no length fields for most elements, so fields are found by scanning for
    4-byte big-endian tags, bounded by the nearest known end. */
module GrdScan {
  import opened Js
  import opened Bytes

  // The tags the reader scans for, as big-endian 32-bit values.
  const MAGIC_8BGR: nat := 0x38424752
  const CLRS: nat := 0x436C7273
  const CLRT: nat := 0x436C7274
  const RGBC: nat := 0x52474243
  const RD: nat := 0x52642020
  const GRN: nat := 0x47726E20
  const BL: nat := 0x426C2020
  const HSBC: nat := 0x48534243
  const HUE: nat := 0x48202020
  const STRT: nat := 0x53747274
  const BRGH: nat := 0x42726768
  const BKCL: nat := 0x426B436C
  const CMYC: nat := 0x434D5943
  const GRSC: nat := 0x47727363
  const LBCL: nat := 0x4C62436C
  const CYN: nat := 0x43796E20
  const MGNT: nat := 0x4D676E74
  const YLW: nat := 0x596C7720
  const BLCK: nat := 0x426C636B
  const GRY: nat := 0x47727920
  const LMNC: nat := 0x4C6D6E63
  const A_CH: nat := 0x41202020
  const B_CH: nat := 0x42202020
  const LCTN: nat := 0x4C63746E
  const MDPN: nat := 0x4D64706E
  const GRDN: nat := 0x4772646E
  const NM: nat := 0x4E6D2020
  const TRNS: nat := 0x54726E73
  const TRNS_STOP: nat := 0x54726E53
  const OPCT: nat := 0x4F706374
  const GRUP: nat := 0x47727570
  const VLLS: nat := 0x566C4C73
  const OBJC: nat := 0x4F626A63

  /** A 4-byte big-endian tag starts at p. */
  predicate TagAt(buf: seq<byte>, p: int, tag: nat) {
    0 <= p && p + 4 <= |buf| && U32BE(buf, p) == tag
  }

  /** No tag starts at any p with from <= p < to. */
  predicate NoTagIn(buf: seq<byte>, from: int, to: int, tag: nat) {
    forall p :: from <= p < to ==> !TagAt(buf, p, tag)
  }

  /** What `GRDSkipToChunkInRange(current, tag, end)` may return: the position just after the
      first tag starting in [current, end - 4), or end itself when there is none. A tag in the
      last four bytes of the range is never seen. */
  predicate IsSkipResult(buf: seq<byte>, current: int, tag: nat, end: int, r: int) {
    || (r == end && NoTagIn(buf, current, end - 4, tag))
    || (current + 4 <= r < end && TagAt(buf, r - 4, tag) && NoTagIn(buf, current, r - 4, tag))
  }

  /** The scan, one start position at a time. */
  function SkipTo(buf: seq<byte>, current: int, tag: nat, end: int): (r: int)
    requires 0 <= current && end <= |buf|
    ensures r == end || current + 4 <= r < end
    decreases end - current
  {
    if current >= end - 4 then end
    else if U32BE(buf, current) == tag then current + 4
    else SkipTo(buf, current + 1, tag, end)
  }

  /** The scan meets its description. */
  lemma {:induction false} SkipToIsSkipResult(buf: seq<byte>, current: int, tag: nat, end: int)
    requires 0 <= current && end <= |buf|
    ensures IsSkipResult(buf, current, tag, end, SkipTo(buf, current, tag, end))
    decreases end - current
  {
    if current < end - 4 && U32BE(buf, current) != tag {
      SkipToIsSkipResult(buf, current + 1, tag, end);
    }
  }

  method SkipToChunkInRange(buf: seq<byte>, current: int, tag: nat, end: int) returns (r: int)
    requires 0 <= current && end <= |buf|
    ensures IsSkipResult(buf, current, tag, end, r)
    ensures r == SkipTo(buf, current, tag, end)
  {
    var i := current;
    while i < end - 4
      invariant current <= i
      invariant NoTagIn(buf, current, i, tag)
      invariant SkipTo(buf, current, tag, end) == SkipTo(buf, i, tag, end)
    {
      if U32BE(buf, i) == tag {
        return i + 4;
      }
      i := i + 1;
    }
    return end;
  }

  /** The scan is deterministic: two results for the same arguments agree. */
  lemma SkipResultUnique(buf: seq<byte>, current: int, tag: nat, end: int, r1: int, r2: int)
    requires IsSkipResult(buf, current, tag, end, r1) && IsSkipResult(buf, current, tag, end, r2)
    ensures r1 == r2
  {
  }

  /** A scan that starts on a tag stops on it. */
  lemma SkipFindsTagAtStart(buf: seq<byte>, current: int, tag: nat, end: int, r: int)
    requires TagAt(buf, current, tag) && current < end - 4
    requires IsSkipResult(buf, current, tag, end, r)
    ensures r == current + 4
  {
  }

  /** How far `GRDFindAllChunks` looks: every start before the last four bytes. */
  function ChunkScanEnd(buf: seq<byte>): (r: nat)
    ensures r + 4 <= |buf| || r == 0
  {
    if |buf| < 4 then 0 else |buf| - 4
  }

  /** The position just after every tag starting before p. */
  function ChunksBefore(buf: seq<byte>, tag: nat, p: nat): (r: seq<nat>)
    requires p <= ChunkScanEnd(buf)
    ensures forall k :: 0 <= k < |r| ==> 4 <= r[k] < p + 4
  {
    if p == 0 then []
    else if U32BE(buf, p - 1) == tag then ChunksBefore(buf, tag, p - 1) + [p + 3]
    else ChunksBefore(buf, tag, p - 1)
  }

  predicate Increasing(r: seq<nat>) {
    forall k :: 0 <= k < |r| - 1 ==> r[k] < r[k + 1]
  }

  /** The positions found before p are increasing. */
  lemma {:induction false} ChunksIncreasing(buf: seq<byte>, tag: nat, p: nat)
    requires p <= ChunkScanEnd(buf)
    ensures Increasing(ChunksBefore(buf, tag, p))
  {
    if p > 0 && U32BE(buf, p - 1) == tag {
      ChunksIncreasing(buf, tag, p - 1);
      var r0 := ChunksBefore(buf, tag, p - 1);
      var r := r0 + [p + 3];
      assert ChunksBefore(buf, tag, p) == r;
      forall k | 0 <= k < |r| - 1
        ensures r[k] < r[k + 1]
      {
        assert r[k] == r0[k] < p + 3;
        if k + 1 < |r0| {
          assert r[k + 1] == r0[k + 1];
        }
      }
    } else if p > 0 {
      ChunksIncreasing(buf, tag, p - 1);
    }
  }

  /** Every position in r is inside the buffer, just after a tag. */
  predicate AfterTags(buf: seq<byte>, tag: nat, r: seq<nat>) {
    forall k :: 0 <= k < |r| ==> r[k] < |buf| && TagAt(buf, r[k] as int - 4, tag)
  }

  /** Each position found follows a tag. */
  lemma {:induction false} ChunksFollowTags(buf: seq<byte>, tag: nat, p: nat)
    requires p <= ChunkScanEnd(buf)
    ensures AfterTags(buf, tag, ChunksBefore(buf, tag, p))
  {
    if p > 0 {
      ChunksFollowTags(buf, tag, p - 1);
      var r0 := ChunksBefore(buf, tag, p - 1);
      if U32BE(buf, p - 1) == tag {
        var r := r0 + [p + 3];
        assert ChunksBefore(buf, tag, p) == r;
        forall k | 0 <= k < |r|
          ensures r[k] < |buf| && TagAt(buf, r[k] - 4, tag)
        {
          if k < |r0| {
            assert r[k] == r0[k];
          }
        }
      }
    }
  }

  /** Every tag that starts before p is found. */
  lemma {:induction false} ChunksComplete(buf: seq<byte>, tag: nat, p: nat)
    requires p <= ChunkScanEnd(buf)
    ensures forall m :: 0 <= m < p && TagAt(buf, m, tag) ==> m + 4 in ChunksBefore(buf, tag, p)
  {
    if p > 0 {
      ChunksComplete(buf, tag, p - 1);
      var r0 := ChunksBefore(buf, tag, p - 1);
      if U32BE(buf, p - 1) == tag {
        var r := r0 + [p + 3];
        assert ChunksBefore(buf, tag, p) == r;
        forall m | 0 <= m < p && TagAt(buf, m, tag)
          ensures m + 4 in r
        {
          if m < p - 1 {
            assert m + 4 in r0;
          } else {
            assert r[|r0|] == m + 4;
          }
        }
      }
    }
  }

  /** What `GRDFindAllChunks` returns. */
  function AllChunks(buf: seq<byte>, tag: nat): seq<nat> {
    ChunksBefore(buf, tag, ChunkScanEnd(buf))
  }

  /** `GRDFindAllChunks`: the position after every tag that starts before the last four bytes
      of the buffer, in increasing order, and nothing else. */
  method FindAllChunks(buf: seq<byte>, tag: nat) returns (offsets: seq<nat>)
    ensures offsets == AllChunks(buf, tag)
    ensures forall k :: 0 <= k < |offsets| - 1 ==> offsets[k] < offsets[k + 1]
    ensures forall k :: 0 <= k < |offsets| ==> offsets[k] < |buf| && TagAt(buf, offsets[k] - 4, tag)
    ensures forall m :: 0 <= m < |buf| - 4 && TagAt(buf, m, tag) ==> m + 4 in offsets
  {
    offsets := [];
    var i := 0;
    while i < |buf| - 4
      invariant 0 <= i <= ChunkScanEnd(buf)
      invariant offsets == ChunksBefore(buf, tag, i)
    {
      if U32BE(buf, i) == tag {
        offsets := offsets + [i + 4];
      }
      i := i + 1;
    }
    assert i == ChunkScanEnd(buf);
    ChunksIncreasing(buf, tag, i);
    ChunksFollowTags(buf, tag, i);
    ChunksComplete(buf, tag, i);
  }

  /** The UTF-16BE unit at p. */
  function UnitAt(buf: seq<byte>, p: int): Unit
    requires 0 <= p && p + 2 <= |buf|
  {
    U16BE(buf, p)
  }

  /** What `GRDReadUnicodeString(current, end)` may return. With fewer than four bytes left
      it returns the empty text and end. Otherwise it reads the 32-bit count, then units while
      fewer than count are read and two bytes remain, stopping after the first zero unit: the
      text holds the nonzero units read, and the index is just after the last unit read. */
  predicate IsUnicodeRead(buf: seq<byte>, current: int, end: int, text: JsString, newIndex: int)
    requires 0 <= current && end <= |buf|
  {
    if current + 4 > end then
      text == [] && newIndex == end
    else
      var count := U32BE(buf, current);
      var first := current + 4;
      && |text| <= count
      && first + 2 * |text| <= end
      && (forall k :: 0 <= k < |text| ==> text[k] == UnitAt(buf, first + 2 * k) && text[k] != 0)
      && (|| (newIndex == first + 2 * |text| + 2 && |text| < count && newIndex <= end
              && UnitAt(buf, first + 2 * |text|) == 0)
          || (newIndex == first + 2 * |text| && (|text| == count || newIndex + 2 > end)))
  }

  /** The unit loop of `GRDReadUnicodeString` from p, with `remaining` units still allowed
      and `text` read so far. */
  function UnitsFrom(buf: seq<byte>, p: int, end: int, remaining: nat, text: JsString): (r: (JsString, int))
    requires 0 <= p && end <= |buf|
    ensures r.1 >= p
    decreases remaining
  {
    if remaining == 0 || p + 2 > end then (text, p)
    else if UnitAt(buf, p) == 0 then (text, p + 2)
    else UnitsFrom(buf, p + 2, end, remaining - 1, text + [UnitAt(buf, p)])
  }

  /** `GRDReadUnicodeString` as a function: the text and the index after it. */
  function UnicodeStringAt(buf: seq<byte>, current: int, end: int): (r: (JsString, int))
    requires 0 <= current && end <= |buf|
    ensures r.1 == end || r.1 >= current + 4
  {
    if current + 4 > end then ([], end)
    else UnitsFrom(buf, current + 4, end, U32BE(buf, current), [])
  }

  method ReadUnicodeString(buf: seq<byte>, current: int, end: int) returns (text: JsString, newIndex: int)
    requires 0 <= current && end <= |buf|
    ensures IsUnicodeRead(buf, current, end, text, newIndex)
    ensures newIndex <= end
    ensures (text, newIndex) == UnicodeStringAt(buf, current, end)
  {
    if current + 4 > end {
      return [], end;
    }
    var count := U32BE(buf, current);
    var p := current + 4;
    text := [];
    var i := 0;
    while i < count && p + 2 <= end
      invariant i == |text| <= count
      invariant p == current + 4 + 2 * i <= end
      invariant UnicodeStringAt(buf, current, end) == UnitsFrom(buf, p, end, count - i, text)
      invariant forall k :: 0 <= k < |text| ==> text[k] == UnitAt(buf, current + 4 + 2 * k) && text[k] != 0
    {
      var unit := UnitAt(buf, p);
      p := p + 2;
      if unit == 0 {
        return text, p;
      }
      text := text + [unit];
      i := i + 1;
    }
    return text, p;
  }

  /** The units of a text that IsUnicodeRead returned are the nonzero units of the buffer. */
  lemma UnitOfText(buf: seq<byte>, first: int, text: JsString, j: int)
    requires 0 <= first && first + 2 * |text| <= |buf|
    requires forall k :: 0 <= k < |text| ==> text[k] == UnitAt(buf, first + 2 * k) && text[k] != 0
    ensures 0 <= j < |text| ==> UnitAt(buf, first + 2 * j) == text[j] != 0
  {
  }

  /** A read result is determined by its arguments. */
  lemma UnicodeReadUnique(buf: seq<byte>, current: int, end: int, t1: JsString, n1: int, t2: JsString, n2: int)
    requires 0 <= current && end <= |buf|
    requires IsUnicodeRead(buf, current, end, t1, n1) && IsUnicodeRead(buf, current, end, t2, n2)
    ensures t1 == t2 && n1 == n2
  {
    if current + 4 <= end {
      var first := current + 4;
      UnitOfText(buf, first, t2, |t1|);
      UnitOfText(buf, first, t1, |t2|);
      assert |t1| == |t2|;
      assert t1 == t2;
    }
  }
}
