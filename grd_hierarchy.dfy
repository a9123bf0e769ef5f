/** `GRDParseHierarchy`: the optional preset hierarchy near the end of a Photoshop gradient
    file, read as a list of `Objc` descriptors and run through a stack machine that gives each
    preset the group it is nested in. */
module GrdHierarchy {
  import opened Wrappers
  import opened Js
  import opened Bytes
  import opened GrdScan
  import Seqs

  // ---------------------------------------------------------------- locating the hierarchy

  /** The bytes of "hierarchy". */
  const HIERARCHY: seq<byte> := [0x68, 0x69, 0x65, 0x72, 0x61, 0x72, 0x63, 0x68, 0x79]

  /** Only the last 100000 bytes are searched. */
  const WINDOW: int := 100000

  predicate MarkerAt(buf: seq<byte>, i: int) {
    0 <= i && i + 9 <= |buf| && buf[i..i + 9] == HIERARCHY
  }

  /** `Math.max(0, byteLength - 100000)`. */
  function SearchStart(n: int): (r: int)
    ensures r >= 0 && r >= n - WINDOW
  {
    if n - WINDOW > 0 then n - WINDOW else 0
  }

  /** The first position in [lo, hi) where "hierarchy" starts. */
  function FirstMarker(buf: seq<byte>, lo: int, hi: int): Option<int>
    decreases hi - lo
  {
    if lo >= hi then None
    else if MarkerAt(buf, lo) then Some(lo)
    else FirstMarker(buf, lo + 1, hi)
  }

  /** Where the hierarchy list starts: just after the first "hierarchy" found in the window,
      provided a `VlLs` tag follows it there; none otherwise. */
  function HierarchyPos(buf: seq<byte>): Option<nat>
  {
    match FirstMarker(buf, SearchStart(|buf|), |buf| - 20)
    case None => None
    case Some(i) => if TagAt(buf, i + 9, VLLS) then Some(i + 9) else None
  }

  /** The inner comparison loop, which stops at the first byte that differs. */
  method MarkerMatches(buf: seq<byte>, i: int) returns (match_: bool)
    requires 0 <= i && i + 9 <= |buf|
    ensures match_ <==> MarkerAt(buf, i)
  {
    match_ := true;
    var m := 0;
    while m < 9
      invariant 0 <= m <= 9
      invariant forall k :: 0 <= k < m ==> buf[i + k] == HIERARCHY[k]
    {
      if buf[i + m] != HIERARCHY[m] {
        match_ := false;
        assert buf[i..i + 9][m] != HIERARCHY[m];
        return;
      }
      m := m + 1;
    }
    assert buf[i..i + 9] == HIERARCHY;
  }

  /** The search loop: the first "hierarchy" of the window decides, whether or not `VlLs`
      follows it. */
  method FindHierarchy(buf: seq<byte>) returns (hierPos: Option<nat>)
    ensures hierPos == HierarchyPos(buf)
  {
    var start := SearchStart(|buf|);
    var i := start;
    while i < |buf| - 20
      invariant start <= i
      invariant FirstMarker(buf, start, |buf| - 20) == FirstMarker(buf, i, |buf| - 20)
      decreases |buf| - i
    {
      var found := MarkerMatches(buf, i);
      if found {
        if U32BE(buf, i + 9) == VLLS {
          return Some(i + 9);
        }
        return None;
      }
      i := i + 1;
    }
    return None;
  }

  /** The search returns the first marker of the range, and none exactly when there is no
      marker in the range. */
  lemma {:induction false} FirstMarkerIsFirst(buf: seq<byte>, lo: int, hi: int)
    ensures FirstMarker(buf, lo, hi).Some? ==>
      var i := FirstMarker(buf, lo, hi).value;
      lo <= i < hi && MarkerAt(buf, i) && (forall j :: lo <= j < i ==> !MarkerAt(buf, j))
    ensures FirstMarker(buf, lo, hi).None? <==> (forall j :: lo <= j < hi ==> !MarkerAt(buf, j))
    decreases hi - lo
  {
    if lo < hi && !MarkerAt(buf, lo) {
      FirstMarkerIsFirst(buf, lo + 1, hi);
    }
  }

  /** The hierarchy is found exactly when the first "hierarchy" of the window is followed by
      `VlLs`; a later "hierarchy" followed by `VlLs` is never considered. */
  lemma HierarchyPosFirst(buf: seq<byte>)
    ensures HierarchyPos(buf).Some? ==>
      var h := HierarchyPos(buf).value;
      && SearchStart(|buf|) <= h - 9 < |buf| - 20 && MarkerAt(buf, h - 9) && TagAt(buf, h, VLLS)
      && (forall j :: SearchStart(|buf|) <= j < h - 9 ==> !MarkerAt(buf, j))
    ensures (forall j :: SearchStart(|buf|) <= j < |buf| - 20 ==> !MarkerAt(buf, j)) ==> HierarchyPos(buf).None?
  {
    FirstMarkerIsFirst(buf, SearchStart(|buf|), |buf| - 20);
  }

  // ---------------------------------------------------------------- the Objc list

  /** An `Objc` tag at i followed by a descriptor-name length under 200. */
  predicate ObjcAt(buf: seq<byte>, i: int) {
    0 <= i && i + 8 <= |buf| && U32BE(buf, i) == OBJC && U32BE(buf, i + 4) < 200
  }

  /** The `Objc` positions in [lo, hi), in increasing order. */
  function ObjcList(buf: seq<byte>, lo: nat, hi: int): seq<nat>
    decreases hi - lo
  {
    if hi <= lo then [] else ObjcList(buf, lo, hi - 1) + (if ObjcAt(buf, hi - 1) then [hi - 1] else [])
  }

  /** The `Objc` scan, from just past the item count to the last eight bytes. */
  method ObjcPositions(buf: seq<byte>, lo: nat) returns (positions: seq<nat>)
    ensures positions == ObjcList(buf, lo, |buf| - 8)
  {
    positions := [];
    var i := lo;
    while i < |buf| - 8
      invariant lo <= i
      invariant i <= |buf| - 8 || i == lo
      invariant positions == ObjcList(buf, lo, i)
      decreases |buf| - i
    {
      if U32BE(buf, i) == OBJC {
        var testLen := U32BE(buf, i + 4);
        if testLen < 200 {
          positions := positions + [i];
        }
      }
      i := i + 1;
    }
    if i == lo {
      assert ObjcList(buf, lo, |buf| - 8) == [];
    }
  }

  /** The list holds, in increasing order, exactly the `Objc` positions of the range. */
  lemma {:induction false} ObjcListExact(buf: seq<byte>, lo: nat, hi: int)
    ensures forall k :: 0 <= k < |ObjcList(buf, lo, hi)| - 1 ==> ObjcList(buf, lo, hi)[k] < ObjcList(buf, lo, hi)[k + 1]
    ensures forall k :: 0 <= k < |ObjcList(buf, lo, hi)| ==>
      lo <= ObjcList(buf, lo, hi)[k] < hi && ObjcAt(buf, ObjcList(buf, lo, hi)[k])
    ensures (forall i :: lo <= i < hi && ObjcAt(buf, i) ==> i in ObjcList(buf, lo, hi))
    decreases hi - lo
  {
    if lo < hi {
      ObjcListExact(buf, lo, hi - 1);
    }
  }

  // ---------------------------------------------------------------- one descriptor

  /** The bytes as code units, one unit per byte (`String.fromCharCode` of each). */
  function ByteUnits(bs: seq<byte>): (r: JsString)
    ensures |r| == |bs|
  {
    if bs == [] then [] else ByteUnits(bs[..|bs| - 1]) + [bs[|bs| - 1] as Unit]
  }

  lemma ByteUnitsSnoc(bs: seq<byte>, b: byte)
    ensures ByteUnits(bs + [b]) == ByteUnits(bs) + [b as Unit]
  {
    assert (bs + [b])[..|bs|] == bs;
  }

  /** A key at p: a 32-bit length (0 meaning 4), that many one-byte characters, trimmed; and
      the position after it. Reading past the buffer throws. */
  function KeyAt(buf: seq<byte>, p: int): Result<(JsString, int), Exception>
    requires 0 <= p
  {
    if p + 4 > |buf| then Err(RangeError)
    else
      var len := U32BE(buf, p);
      var n := if len == 0 then 4 else len;
      if p + 4 + n > |buf| then Err(RangeError)
      else Ok((Trim(ByteUnits(buf[p + 4..p + 4 + n])), p + 4 + n))
  }

  /** The nonzero units among the n UTF-16BE units at s. */
  function NonZeroUnits(buf: seq<byte>, s: int, n: nat): (r: JsString)
    requires 0 <= s && s + 2 * n <= |buf|
    ensures |r| <= n
    ensures forall k :: 0 <= k < |r| ==> r[k] != 0
  {
    if n == 0 then []
    else
      var u := UnitAt(buf, s + 2 * (n - 1));
      NonZeroUnits(buf, s, n - 1) + (if u > 0 then [u] else [])
  }

  /** A TEXT value of n units at s, zero units dropped; reading past the buffer throws. */
  function TextAt(buf: seq<byte>, s: int, n: nat): Result<JsString, Exception>
    requires 0 <= s
  {
    if n == 0 then Ok([])
    else if s + 2 * n > |buf| then Err(RangeError)
    else Ok(NonZeroUnits(buf, s, n))
  }

  const TEXT_TAG: seq<byte> := [0x54, 0x45, 0x58, 0x54]

  /** The trimmed key of the name field, "Nm". */
  const NM_KEY: JsString := [0x4E, 0x6D]

  /** The class ids the machine acts on: "Grup", "groupEnd" and "preset". */
  const GRUP_CLASS: JsString := [0x47, 0x72, 0x75, 0x70]
  const GROUP_END_CLASS: JsString := [0x67, 0x72, 0x6F, 0x75, 0x70, 0x45, 0x6E, 0x64]
  const PRESET_CLASS: JsString := [0x70, 0x72, 0x65, 0x73, 0x65, 0x74]

  /** One field of a `Grup` descriptor: a TEXT field with its trimmed key, its value and the
      position after it, or a field of another type, which ends the reading. */
  datatype Field = TextField(key: JsString, text: JsString, next: int) | OtherField

  /** The field at p: key, 4-byte type tag, and for TEXT a unit count and the units. */
  function FieldAt(buf: seq<byte>, p: int): (r: Result<Field, Exception>)
    requires 0 <= p
    ensures r.Ok? && r.value.TextField? ==> p < r.value.next
  {
    match KeyAt(buf, p)
    case Err(e) => Err(e)
    case Ok((fk, q)) =>
      if q + 4 > |buf| then Err(RangeError)
      else if buf[q..q + 4] != TEXT_TAG then Ok(OtherField)
      else if q + 8 > |buf| then Err(RangeError)
      else
        var n := U32BE(buf, q + 4);
        match TextAt(buf, q + 8, n)
        case Err(e) => Err(e)
        case Ok(t) => Ok(TextField(fk, t, q + 8 + 2 * n))
  }

  /** The name of a `Grup` descriptor: of its `remaining` fields, the TEXT value of the last
      one keyed `Nm` read before a field of another type stops the reading; '' if none. */
  function GroupNameFrom(buf: seq<byte>, p: int, remaining: nat, name: JsString): Result<JsString, Exception>
    requires 0 <= p
    decreases remaining
  {
    if remaining == 0 then Ok(name)
    else
      match FieldAt(buf, p)
      case Err(e) => Err(e)
      case Ok(OtherField) => Ok(name)
      case Ok(TextField(fk, t, next)) =>
        GroupNameFrom(buf, next, remaining - 1, if fk == NM_KEY then t else name)
  }

  /** What one `Objc` descriptor is, for the stack machine. */
  datatype Entry = GroupStart(name: JsString) | GroupEnd | Preset | Other

  /** The descriptor at an `Objc` position: its name is skipped and its class id read. */
  function EntryAt(buf: seq<byte>, objc: int): Result<Entry, Exception>
    requires 0 <= objc
  {
    var p := objc + 4;
    if p + 4 > |buf| then Err(RangeError)
    else
      match KeyAt(buf, p + 4 + 2 * U32BE(buf, p))
      case Err(e) => Err(e)
      case Ok((classId, q)) => EntryOfClass(buf, classId, q)
  }

  /** What a class id makes of a descriptor whose fields start at q: a `Grup` has its fields
      read for the name. */
  function EntryOfClass(buf: seq<byte>, classId: JsString, q: int): Result<Entry, Exception>
    requires 0 <= q
  {
    if classId == GRUP_CLASS then
      if q + 4 > |buf| then Err(RangeError)
      else
        match GroupNameFrom(buf, q + 4, U32BE(buf, q), [])
        case Err(e) => Err(e)
        case Ok(n) => Ok(GroupStart(n))
    else if classId == GROUP_END_CLASS then Ok(GroupEnd)
    else if classId == PRESET_CLASS then Ok(Preset)
    else Ok(Other)
  }

  /** The key's character loop: `String.fromCharCode` of each of n bytes at start. */
  method ReadKeyUnits(buf: seq<byte>, start: nat, n: nat) returns (key: JsString)
    requires start + n <= |buf|
    ensures key == ByteUnits(buf[start..start + n])
  {
    key := [];
    for c := 0 to n
      invariant key == ByteUnits(buf[start..start + c])
    {
      assert buf[start..start + c + 1] == buf[start..start + c] + [buf[start + c]];
      ByteUnitsSnoc(buf[start..start + c], buf[start + c]);
      key := key + [buf[start + c] as Unit];
    }
  }

  /** A key: its length, its characters, then trim. The byte loop throws at the first byte
      past the buffer; checking the whole range first ends in the same `RangeError`. */
  method ReadKey(buf: seq<byte>, p: int) returns (r: Result<(JsString, int), Exception>)
    requires 0 <= p
    ensures r == KeyAt(buf, p)
  {
    if p + 4 > |buf| {
      return Err(RangeError);
    }
    var keyLen := U32BE(buf, p);
    var actualLen := if keyLen == 0 then 4 else keyLen;
    if p + 4 + actualLen > |buf| {
      return Err(RangeError);
    }
    var key := ReadKeyUnits(buf, p + 4, actualLen);
    return Ok((Trim(key), p + 4 + actualLen));
  }

  /** The TEXT loop: every unit is read, the zero ones are dropped. */
  method ReadText(buf: seq<byte>, s: int, n: nat) returns (r: Result<JsString, Exception>)
    requires 0 <= s
    ensures r == TextAt(buf, s, n)
  {
    var text: JsString := [];
    for c := 0 to n
      invariant s + 2 * c <= |buf| || c == 0
      invariant s + 2 * c <= |buf| ==> text == NonZeroUnits(buf, s, c)
    {
      if s + 2 * c + 2 > |buf| {
        return Err(RangeError);
      }
      var ch := UnitAt(buf, s + 2 * c);
      if ch > 0 {
        text := text + [ch];
      }
    }
    if n == 0 {
      return Ok([]);
    }
    return Ok(text);
  }

  /** One field: its key, its type tag, and a TEXT value. */
  method ReadField(buf: seq<byte>, p: int) returns (r: Result<Field, Exception>)
    requires 0 <= p
    ensures r == FieldAt(buf, p)
  {
    var key := ReadKey(buf, p);
    if key.Err? {
      return Err(key.error);
    }
    var (fk, q) := key.value;
    if q + 4 > |buf| {
      return Err(RangeError);
    }
    if buf[q..q + 4] != TEXT_TAG {
      return Ok(OtherField);
    }
    if q + 8 > |buf| {
      return Err(RangeError);
    }
    var tLen := U32BE(buf, q + 4);
    var text := ReadText(buf, q + 8, tLen);
    if text.Err? {
      return Err(text.error);
    }
    return Ok(TextField(fk, text.value, q + 8 + 2 * tLen));
  }

  /** The field loop of a `Grup` descriptor. */
  method ReadGroupName(buf: seq<byte>, p: int, fieldCount: nat) returns (r: Result<JsString, Exception>)
    requires 0 <= p
    ensures r == GroupNameFrom(buf, p, fieldCount, [])
  {
    var q := p;
    var name: JsString := [];
    for f := 0 to fieldCount
      invariant 0 <= q
      invariant GroupNameFrom(buf, p, fieldCount, []) == GroupNameFrom(buf, q, fieldCount - f, name)
    {
      var field := ReadField(buf, q);
      if field.Err? {
        return Err(field.error);
      }
      if field.value.OtherField? {
        return Ok(name);
      }
      if field.value.key == NM_KEY {
        name := field.value.text;
      }
      q := field.value.next;
    }
    return Ok(name);
  }

  /** One descriptor of the hierarchy. */
  method ReadEntry(buf: seq<byte>, objc: int) returns (r: Result<Entry, Exception>)
    requires 0 <= objc
    ensures r == EntryAt(buf, objc)
  {
    var p := objc + 4;
    if p + 4 > |buf| {
      return Err(RangeError);
    }
    var nameLen := U32BE(buf, p);
    p := p + 4 + nameLen * 2;
    var key := ReadKey(buf, p);
    if key.Err? {
      return Err(key.error);
    }
    var (classId, q) := key.value;
    r := ReadClass(buf, classId, q);
  }

  /** The branch on the class id. */
  method ReadClass(buf: seq<byte>, classId: JsString, q: int) returns (r: Result<Entry, Exception>)
    requires 0 <= q
    ensures r == EntryOfClass(buf, classId, q)
  {
    if classId == GRUP_CLASS {
      if q + 4 > |buf| {
        return Err(RangeError);
      }
      var name := ReadGroupName(buf, q + 4, U32BE(buf, q));
      if name.Err? {
        return Err(name.error);
      }
      return Ok(GroupStart(name.value));
    } else if classId == GROUP_END_CLASS {
      return Ok(GroupEnd);
    } else if classId == PRESET_CLASS {
      return Ok(Preset);
    }
    return Ok(Other);
  }

  // ---------------------------------------------------------------- the stack machine

  /** The open groups, innermost last, and the group of each preset so far. */
  datatype Machine = Machine(stack: seq<JsString>, groupMap: seq<JsString>)

  /** The group a preset gets: the innermost open group, or '' outside every group. */
  function Top(stack: seq<JsString>): JsString {
    if |stack| > 0 then stack[|stack| - 1] else []
  }

  /** `Grup` pushes its name, `groupEnd` pops a non-empty stack, `preset` records the stack
      top for the next preset index; anything else changes nothing. */
  function Step(m: Machine, e: Entry): Machine {
    match e
    case GroupStart(n) => m.(stack := m.stack + [n])
    case GroupEnd => if |m.stack| > 0 then m.(stack := m.stack[..|m.stack| - 1]) else m
    case Preset => m.(groupMap := m.groupMap + [Top(m.stack)])
    case Other => m
  }

  /** The machine after the entries, from an empty stack and map. */
  function Run(es: seq<Entry>): Machine {
    if es == [] then Machine([], []) else Step(Run(es[..|es| - 1]), es[|es| - 1])
  }

  /** Running one more entry is one more step. */
  lemma RunSnoc(es: seq<Entry>, x: Entry)
    ensures Run(es + [x]) == Step(Run(es), x)
  {
    assert (es + [x])[..|es|] == es;
  }

  /** How many entries are presets. */
  function PresetCount(es: seq<Entry>): nat {
    if es == [] then 0 else PresetCount(es[..|es| - 1]) + (if es[|es| - 1].Preset? then 1 else 0)
  }

  /** Every preset gets exactly one slot of the map, in order: `presetCount` ends as the
      number of preset descriptors. */
  lemma {:induction false} MapCountsPresets(es: seq<Entry>)
    ensures |Run(es).groupMap| == PresetCount(es)
  {
    if es != [] {
      MapCountsPresets(es[..|es| - 1]);
    }
  }

  /** The name of some group descriptor among the entries. */
  predicate IsGroupName(es: seq<Entry>, n: JsString) {
    exists k :: 0 <= k < |es| && es[k] == GroupStart(n)
  }

  /** Every open group and every recorded group is the name of a group descriptor read so
      far, or '' for a preset outside all groups. */
  lemma {:induction false} GroupsComeFromDescriptors(es: seq<Entry>)
    ensures forall k :: 0 <= k < |Run(es).stack| ==> IsGroupName(es, Run(es).stack[k])
    ensures forall k :: 0 <= k < |Run(es).groupMap| ==>
      Run(es).groupMap[k] == [] || IsGroupName(es, Run(es).groupMap[k])
  {
    if es != [] {
      var init := es[..|es| - 1];
      GroupsComeFromDescriptors(init);
      forall n | IsGroupName(init, n)
        ensures IsGroupName(es, n)
      {
        var k :| 0 <= k < |init| && init[k] == GroupStart(n);
        assert es[k] == GroupStart(n);
      }
      var x := es[|es| - 1];
      if x.GroupStart? {
        assert es[|es| - 1] == GroupStart(x.name);
      }
    }
  }

  /** A preset's group is fixed when it is read: later descriptors only add to the map. */
  lemma {:induction false} MapOnlyGrows(es: seq<Entry>, more: seq<Entry>)
    ensures Run(es).groupMap <= Run(es + more).groupMap
    decreases |more|
  {
    if more != [] {
      var init := more[..|more| - 1];
      MapOnlyGrows(es, init);
      assert es + more == (es + init) + [more[|more| - 1]];
      RunSnoc(es + init, more[|more| - 1]);
      Seqs.PrefixGrows(Run(es).groupMap, Run(es + init).groupMap, if more[|more| - 1].Preset? then [Top(Run(es + init).stack)] else []);
    } else {
      assert es + more == es;
    }
  }

  /** A group opened and closed again leaves the machine as it was. */
  lemma GroupOpenClose(es: seq<Entry>, n: JsString)
    ensures Run(es + [GroupStart(n), GroupEnd]) == Run(es)
  {
    RunSnoc(es, GroupStart(n));
    assert es + [GroupStart(n), GroupEnd] == (es + [GroupStart(n)]) + [GroupEnd];
    RunSnoc(es + [GroupStart(n)], GroupEnd);
    var st := Run(es).stack;
    assert (st + [n])[..|st|] == st;
  }

  /** A preset read right after a group descriptor belongs to that group. */
  lemma PresetInOpenedGroup(es: seq<Entry>, n: JsString)
    ensures Run(es + [GroupStart(n), Preset]).groupMap == Run(es).groupMap + [n]
  {
    RunSnoc(es, GroupStart(n));
    assert es + [GroupStart(n), Preset] == (es + [GroupStart(n)]) + [Preset];
    RunSnoc(es + [GroupStart(n)], Preset);
  }

  /** A `groupEnd` with no group open is ignored, and a preset outside every group gets ''. */
  lemma OutsideGroups(es: seq<Entry>)
    requires Run(es).stack == []
    ensures Run(es + [GroupEnd]) == Run(es)
    ensures Run(es + [Preset]).groupMap == Run(es).groupMap + [[]]
  {
    RunSnoc(es, GroupEnd);
    RunSnoc(es, Preset);
  }

  /** The entries at the first n positions; the first failing read fails them all. */
  function EntriesAt(buf: seq<byte>, positions: seq<nat>, n: nat): Result<seq<Entry>, Exception>
    requires n <= |positions|
  {
    if n == 0 then Ok([])
    else
      match EntriesAt(buf, positions, n - 1)
      case Err(e) => Err(e)
      case Ok(es) =>
        match EntryAt(buf, positions[n - 1])
        case Err(e) => Err(e)
        case Ok(x) => Ok(es + [x])
  }

  /** The action of one descriptor on `groupStack`, `groupMap` and `presetCount`. */
  method Apply(groupStack: seq<JsString>, groupMap: seq<JsString>, presetCount: nat, e: Entry)
    returns (stack': seq<JsString>, map': seq<JsString>, count': nat)
    requires presetCount == |groupMap|
    ensures Machine(stack', map') == Step(Machine(groupStack, groupMap), e)
    ensures count' == |map'|
  {
    stack', map', count' := groupStack, groupMap, presetCount;
    match e {
      case GroupStart(n) =>
        stack' := groupStack + [n];
      case GroupEnd =>
        if |groupStack| > 0 {
          stack' := groupStack[..|groupStack| - 1];
        }
      case Preset =>
        var currentGroup := if |groupStack| > 0 then groupStack[|groupStack| - 1] else [];
        map' := groupMap + [currentGroup];
        count' := presetCount + 1;
      case Other =>
    }
  }

  /** Reading one more descriptor: its failure is the failure of all. */
  lemma EntriesNext(buf: seq<byte>, positions: seq<nat>, n: nat, es: seq<Entry>, x: Result<Entry, Exception>)
    requires n < |positions| && EntriesAt(buf, positions, n) == Ok(es) && EntryAt(buf, positions[n]) == x
    ensures x.Err? ==> EntriesAt(buf, positions, n + 1) == Err(x.error)
    ensures x.Ok? ==> EntriesAt(buf, positions, n + 1) == Ok(es + [x.value])
  {
  }

  /** Once a read has failed, reading further descriptors fails the same way. */
  lemma {:induction false} EntriesErrPersists(buf: seq<byte>, positions: seq<nat>, n: nat, m: nat)
    requires n <= m <= |positions| && EntriesAt(buf, positions, n).Err?
    ensures EntriesAt(buf, positions, m) == EntriesAt(buf, positions, n)
    decreases m - n
  {
    if n < m {
      EntriesErrPersists(buf, positions, n, m - 1);
    }
  }

  /** The group map the descriptors at these positions give. */
  function GroupsAt(buf: seq<byte>, positions: seq<nat>): Result<seq<JsString>, Exception>
  {
    match EntriesAt(buf, positions, |positions|)
    case Err(e) => Err(e)
    case Ok(es) => Ok(Run(es).groupMap)
  }

  /** The result of `GRDParseHierarchy`: no hierarchy gives the empty map; otherwise every
      `Objc` descriptor after the item count is read and run through the machine. */
  function Hierarchy(buf: seq<byte>): Result<seq<JsString>, Exception>
  {
    match HierarchyPos(buf)
    case None => Ok([])
    case Some(h) =>
      GroupsAt(buf, ObjcList(buf, h + 8, |buf| - 8))
  }

  /** The `Objc` loop of `GRDParseHierarchy`, with `groupStack`, `groupMap` and
      `presetCount`; the preset counter is always the length of the map, so assigning at it
      extends the map. */
  method RunDescriptors(buf: seq<byte>, positions: seq<nat>) returns (r: Result<seq<JsString>, Exception>)
    ensures r == GroupsAt(buf, positions)
  {
    var groupStack: seq<JsString> := [];
    var groupMap: seq<JsString> := [];
    var presetCount := 0;
    ghost var es: seq<Entry> := [];
    for idx := 0 to |positions|
      invariant EntriesAt(buf, positions, idx) == Ok(es)
      invariant Run(es) == Machine(groupStack, groupMap)
      invariant presetCount == |groupMap|
    {
      var entry := ReadEntry(buf, positions[idx]);
      EntriesNext(buf, positions, idx, es, entry);
      if entry.Err? {
        EntriesErrPersists(buf, positions, idx + 1, |positions|);
        return Err(entry.error);
      }
      groupStack, groupMap, presetCount := Apply(groupStack, groupMap, presetCount, entry.value);
      RunSnoc(es, entry.value);
      es := es + [entry.value];
    }
    return Ok(groupMap);
  }

  /** `GRDParseHierarchy`. */
  method ParseHierarchy(buf: seq<byte>) returns (r: Result<seq<JsString>, Exception>)
    ensures r == Hierarchy(buf)
  {
    var hierPos := FindHierarchy(buf);
    if hierPos.None? {
      return Ok([]);
    }
    var positions := ObjcPositions(buf, hierPos.value + 8);
    r := RunDescriptors(buf, positions);
  }
}
