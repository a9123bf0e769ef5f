/** What the Photoshop gradient writer (write_grd.js) and reader (load_gradients.js) agree on:
    the header the writer emits passes the reader's checks, and a gradient name the writer
    emits is the name the reader reads back. */
module GrdRoundTrip {
  import opened Wrappers
  import opened Js
  import opened Bytes
  import opened GrdScan
  import opened Colour
  import opened GrdWriter
  import opened GrdStops
  import opened GrdReader

  /** A 16-bit read inside a copy of r at p reads r. */
  lemma U16Within(buf: seq<byte>, p: nat, r: seq<byte>, i: nat)
    requires p + |r| <= |buf| && buf[p..p + |r|] == r && i + 2 <= |r|
    ensures U16BE(buf, p + i) == U16BE(r, i)
  {
    assert buf[p + i] == r[i] && buf[p + i + 1] == r[i + 1];
  }

  /** A 32-bit read inside a copy of r at p reads r. */
  lemma U32Within(buf: seq<byte>, p: nat, r: seq<byte>, i: nat)
    requires p + |r| <= |buf| && buf[p..p + |r|] == r && i + 4 <= |r|
    ensures U32BE(buf, p + i) == U32BE(r, i)
  {
    assert buf[p + i] == r[i] && buf[p + i + 1] == r[i + 1];
    assert buf[p + i + 2] == r[i + 2] && buf[p + i + 3] == r[i + 3];
  }

  /** Any bytes that start with the writer's header pass the reader's header checks. */
  lemma HeaderAccepted(out: seq<byte>)
    requires |out| >= 10 && out[..10] == HeaderBytes()
    ensures Header(out) == Ok(())
  {
    U32Within(out, 0, HeaderBytes(), 0);
    U16Within(out, 0, HeaderBytes(), 4);
    U32Within(out, 0, HeaderBytes(), 6);
  }

  /** The file `BuildGrdBuffer` makes, even when its estimated size cuts the stream short,
      passes the reader's header checks. */
  lemma WrittenFileHeaderAccepted(data: PaletteData, num: GrdNumerics)
    requires Lawful(num)
    ensures Header(Truncated(GrdStream(data, num), EstimatedSize(data.Palettes))) == Ok(())
  {
    var s := GrdStream(data, num);
    var out := Truncated(s, EstimatedSize(data.Palettes));
    assert s[..10] == HeaderBytes();
    assert out[..10] == s[..10];
    HeaderAccepted(out);
  }

  /** The zero unit would end a name early. */
  predicate NoZeroUnit(s: JsString) {
    forall k :: 0 <= k < |s| ==> s[k] != 0
  }

  /** From unit k on, the unit loop reads the rest of the name and the zero unit after it. */
  lemma {:induction false} UnitsReadBack(buf: seq<byte>, p: nat, end: int, name: JsString, k: nat)
    requires p + 2 * |name| + 2 <= end <= |buf|
    requires forall j :: 0 <= j < |name| ==> U16BE(buf, p + 2 * j) == name[j]
    requires U16BE(buf, p + 2 * |name|) == 0
    requires NoZeroUnit(name) && k <= |name|
    ensures UnitsFrom(buf, p + 2 * k, end, |name| + 1 - k, name[..k]) == (name, p + 2 * |name| + 2)
    decreases |name| - k
  {
    if k < |name| {
      assert name[..k] + [name[k]] == name[..k + 1];
      UnitsReadBack(buf, p, end, name, k + 1);
    } else {
      assert name[..k] == name;
    }
  }

  /** A string block the writer emits (`wUnicodeStr`) is read back by `GRDReadUnicodeString`
      as the same text, the cursor ending just after the block, when the text holds no zero
      unit. */
  lemma UnicodeStrReadBack(buf: seq<byte>, p: nat, end: int, name: JsString)
    requires p + |UnicodeStrBytes(name)| <= end <= |buf|
    requires buf[p..p + |UnicodeStrBytes(name)|] == UnicodeStrBytes(name)
    requires NoZeroUnit(name) && |name| + 1 < TWO32
    ensures UnicodeStringAt(buf, p, end) == (name, p + |UnicodeStrBytes(name)|)
  {
    CountReadBack(buf, p, name);
    UnitsWithin(buf, p, name);
    assert name[..0] == [];
    UnitsReadBack(buf, p + 4, end, name, 0);
    assert UnicodeStringAt(buf, p, end) == UnitsFrom(buf, p + 4, end, |name| + 1, []);
  }

  /** The count word of a string block the writer emits reads back as the unit count. */
  lemma CountReadBack(buf: seq<byte>, p: nat, name: JsString)
    requires p + |UnicodeStrBytes(name)| <= |buf|
    requires buf[p..p + |UnicodeStrBytes(name)|] == UnicodeStrBytes(name)
    requires |name| + 1 < TWO32
    ensures U32BE(buf, p) == |name| + 1
  {
    var r, c := UnicodeStrBytes(name), BE32(|name| + 1);
    CountPrefix(name);
    U32Within(buf, p, r, 0);
    U32Within(r, 0, c, 0);
    SmallMod(|name| + 1);
  }

  lemma SmallMod(v: int)
    requires 0 <= v < TWO32
    ensures v % TWO32 == v
  {
  }

  lemma CountPrefix(name: JsString)
    ensures UnicodeStrBytes(name)[0..4] == BE32(|name| + 1)
  {
  }

  /** The units of a string block the writer emits read back as the text, then a zero unit. */
  lemma UnitsWithin(buf: seq<byte>, p: nat, name: JsString)
    requires p + |UnicodeStrBytes(name)| <= |buf|
    requires buf[p..p + |UnicodeStrBytes(name)|] == UnicodeStrBytes(name)
    ensures forall j :: 0 <= j < |name| ==> U16BE(buf, p + 4 + 2 * j) == name[j]
    ensures U16BE(buf, p + 4 + 2 * |name|) == 0
  {
    var r := UnicodeStrBytes(name);
    UnicodeStrLayout(name);
    forall j | 0 <= j < |name|
      ensures U16BE(buf, p + 4 + 2 * j) == name[j]
    {
      U16Within(buf, p, r, 4 + 2 * j);
    }
    U16Within(buf, p, r, 4 + 2 * |name|);
  }

  /** The bytes the writer emits for `Nm  ` read back as the tag the reader looks for. */
  lemma NmTagReads()
    ensures U32BE(TagBytes("Nm  "), 0) == NM
  {
  }

  /** In a name block the writer emits at p, the reader's record start p + 4 (just after
      `Grdn`) finds `Nm  ` at once, and the text after `TEXT` reads back as the name. */
  lemma NameBlockReadBack(buf: seq<byte>, p: nat, end: int, name: JsString)
    requires p + |NameBlock(name)| <= end <= |buf|
    requires buf[p..p + |NameBlock(name)|] == NameBlock(name)
    requires NoZeroUnit(name) && |name| + 1 < TWO32
    ensures SkipTo(buf, p + 4, NM, end) == p + 8
    ensures UnicodeStringAt(buf, p + 12, end) == (name, p + |NameBlock(name)|)
  {
    var block, tag := NameBlock(name), TagBytes("Nm  ");
    U32Within(buf, p, block, 4);
    assert block[4..8] == tag;
    U32Within(block, 4, tag, 0);
    NmTagReads();
    var str := UnicodeStrBytes(name);
    assert block[12..] == str;
    assert buf[p + 12..p + 12 + |str|] == str by {
      assert buf[p + 12..p + 12 + |str|] == buf[p..p + |block|][12..];
    }
    UnicodeStrReadBack(buf, p + 12, end, name);
  }

  /** A gradient the reader keeps from a record whose name block the writer emitted carries
      the name written, when it is not empty. */
  lemma GradientNameReadBack(h: GrdHost, buf: seq<byte>, p: nat, end: nat, name: JsString,
                             fileName: JsString, kept: nat, group: Option<JsString>)
    requires p + |NameBlock(name)| <= end <= |buf|
    requires buf[p..p + |NameBlock(name)|] == NameBlock(name)
    requires name != [] && NoZeroUnit(name) && |name| + 1 < TWO32
    requires GradientAt(h, buf, p + 4, end, fileName, kept, group).Ok?
    requires GradientAt(h, buf, p + 4, end, fileName, kept, group).value.Some?
    ensures GradientAt(h, buf, p + 4, end, fileName, kept, group).value.value.Name == name
  {
    NameBlockReadBack(buf, p, end, name);
  }

  /** The writer stores a location as round(Position * 4096) and a midpoint as
      round(Midpoint * 100), big-endian; the reader divides what it reads by 4096 and 100.
      For values in [0, 1] that gives back the location within 1/8192 and the midpoint
      within 1/200. */
  lemma StopTailReadBack(position: real, midpoint: real)
    requires 0.0 <= position <= 1.0 && 0.0 <= midpoint <= 1.0
    ensures var l := U32BE(BE32(Round(position * 4096.0)), 0) as real / 4096.0;
      -1.0 / 8192.0 <= l - position <= 1.0 / 8192.0
    ensures var m := U32BE(BE32(Round(midpoint * 100.0)), 0) as real / 100.0;
      -1.0 / 200.0 <= m - midpoint <= 1.0 / 200.0
  {
    var l, m := Round(position * 4096.0), Round(midpoint * 100.0);
    assert 0 <= l <= 4096 && 0 <= m <= 100;
    assert l % TWO32 == l && m % TWO32 == m;
  }

  /** The bytes the writer emits for `Clrt` and `RGBC` read back as those tags. */
  lemma StopTagsRead()
    ensures U32BE(TagBytes("Clrt"), 0) == CLRT && U32BE(TagBytes("RGBC"), 0) == RGBC
  {
  }

  /** In a colour stop the writer emits at p, the reader's search for `Clrt` from p finds it at
      once, and the format tag it reads 26 bytes further on is `RGBC`: the writer's zero pad
      is exactly as long as the reader's blind skip. */
  lemma StopFormatReadBack(buf: seq<byte>, p: nat, end: int, c: ColorStop, num: GrdNumerics)
    requires Lawful(num)
    requires p + 106 <= end <= |buf|
    requires buf[p..p + 106] == StopBytes(c, num)
    ensures SkipTo(buf, p, CLRT, end) == p + 4
    ensures U32BE(buf, p + 4 + CLRT_PAD) == RGBC
  {
    var b, head := StopBytes(c, num), StopHead();
    assert b[..34] == head;
    assert buf[p..p + 34] == head;
    U32Within(buf, p, head, 0);
    U32Within(buf, p, head, 30);
    assert head[..4] == TagBytes("Clrt");
    assert head[30..34] == TagBytes("RGBC");
    U32Within(head, 0, TagBytes("Clrt"), 0);
    U32Within(head, 30, TagBytes("RGBC"), 0);
    StopTagsRead();
  }
}
