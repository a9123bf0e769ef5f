/** The Photoshop gradient (.grd) writer of palette-js/write_grd.js: one cursor over a
    pre-sized byte buffer, emitting the layout the reader of load_gradients.js expects. */
module GrdWriter {
  import opened Wrappers
  import opened Js
  import opened Bytes
  import opened Seqs
  import opened Colour

  /** The two numeric services the writer borrows from the host: the IEEE-754 big-endian
      encoding of `DataView.setFloat64` and `Number.prototype.toFixed(6)`. */
  datatype GrdNumerics = GrdNumerics(f64be: real -> seq<byte>, toFixed6: real -> JsString)

  ghost predicate Lawful(num: GrdNumerics) {
    forall x :: |num.f64be(x)| == 8
  }

  /** `setFloat64(0, x, false)`: the eight bytes of the double nearest x. */
  function F64(num: GrdNumerics, x: real): (r: seq<byte>)
    requires Lawful(num)
    ensures |r| == 8
  {
    num.f64be(x)
  }

  /** `x.toFixed(6)`, the key under which a position counts as seen. */
  function PosKey(num: GrdNumerics, x: real): JsString
  {
    num.toFixed6(x)
  }

  /** A synthesised transparency stop. */
  datatype TrnsStop = TrnsStop(Position: real, Alpha: real, Midpoint: real)

  lemma Chain2(e: seq<byte>, a: seq<byte>, b: seq<byte>)
    ensures e + a + b == e + (a + b)
  {
  }

  lemma Chain4(e: seq<byte>, a: seq<byte>, b: seq<byte>, c: seq<byte>, d: seq<byte>)
    ensures e + a + b + c + d == e + (a + b + c + d)
  {
  }

  lemma Chain3(e: seq<byte>, a: seq<byte>, b: seq<byte>, c: seq<byte>)
    ensures e + a + b + c == e + (a + b + c)
  {
  }

  lemma Chain5(e: seq<byte>, a: seq<byte>, b: seq<byte>, c: seq<byte>, d: seq<byte>, f: seq<byte>)
    ensures e + a + b + c + d + f == e + (a + b + c + d + f)
  {
  }

  function Zeros(n: nat): (r: seq<byte>)
    ensures |r| == n && forall k :: 0 <= k < n ==> r[k] == 0
  {
    seq(n, k => 0)
  }

  /** The code units of s, each as two big-endian bytes. */
  function UnitsBE(s: JsString): (r: seq<byte>)
    ensures |r| == 2 * |s|
    ensures forall k :: 0 <= k < |s| ==> U16BE(r, 2 * k) == s[k]
  {
    if s == [] then []
    else
      var r := UnitsBE(s[..|s| - 1]) + BE16(s[|s| - 1]);
      assert forall k :: 0 <= k < |s| - 1 ==> r[2 * k] == UnitsBE(s[..|s| - 1])[2 * k] && r[2 * k + 1] == UnitsBE(s[..|s| - 1])[2 * k + 1];
      r
  }

  /** `wUnicodeStr(s)`: the count |s| + 1, the units, then a zero unit. */
  function UnicodeStrBytes(s: JsString): (r: seq<byte>)
    ensures |r| == 4 + 2 * (|s| + 1)
  {
    BE32(|s| + 1) + UnitsBE(s) + BE16(0)
  }

  /** A `wUnicodeStr` block reads back as its count, its units and a zero unit. */
  lemma UnicodeStrLayout(s: JsString)
    ensures var r := UnicodeStrBytes(s);
      U32BE(r, 0) == (|s| + 1) % TWO32
      && (forall k :: 0 <= k < |s| ==> U16BE(r, 4 + 2 * k) == s[k])
      && U16BE(r, 4 + 2 * |s|) == 0
  {
    var r := UnicodeStrBytes(s);
    var u := UnitsBE(s);
    assert r[..4] == BE32(|s| + 1);
    forall k | 0 <= k < |s|
      ensures U16BE(r, 4 + 2 * k) == s[k]
    {
      assert r[4 + 2 * k] == u[2 * k] && r[5 + 2 * k] == u[2 * k + 1];
    }
    assert r[4 + 2 * |s|..] == BE16(0);
  }

  /** A key, the type 'doub' and an eight-byte float. */
  function DoubleField(key: string, x: real, num: GrdNumerics): (r: seq<byte>)
    requires |key| == 4 && Lawful(num)
    ensures |r| == 16
  {
    TagBytes(key) + TagBytes("doub") + F64(num, x)
  }

  /** A key, the type 'long' and a 32-bit integer. */
  function LongField(key: string, v: int): (r: seq<byte>)
    requires |key| == 4
    ensures |r| == 12
  {
    TagBytes(key) + TagBytes("long") + BE32(v)
  }

  /** A list key, the type 'VlLs' and the element count. */
  function ListHead(key: string, n: int): (r: seq<byte>)
    requires |key| == 4
    ensures |r| == 12
  {
    TagBytes(key) + TagBytes("VlLs") + BE32(n)
  }

  /** 'Clrt', 26 bytes of zeros the reader skips blindly, then 'RGBC'. */
  function StopHead(): (r: seq<byte>)
    ensures |r| == 34
  {
    TagBytes("Clrt") + Zeros(26) + TagBytes("RGBC")
  }

  /** The three channels of a colour stop, scaled to 0..255. */
  function Channels(c: ColorStop, num: GrdNumerics): (r: seq<byte>)
    requires Lawful(num)
    ensures |r| == 48
  {
    DoubleField("Rd  ", c.Red * 255.0, num)
    + DoubleField("Grn ", c.Green * 255.0, num)
    + DoubleField("Bl  ", c.Blue * 255.0, num)
  }

  /** The values of one colour stop: the channels scaled to 0..255, Location in 1/4096ths
      and Midpoint in percent. */
  function StopValues(c: ColorStop, num: GrdNumerics): (r: seq<byte>)
    requires Lawful(num)
    ensures |r| == 72
  {
    Channels(c, num)
    + LongField("Lctn", Round(c.Position * 4096.0))
    + LongField("Mdpn", Round(MidpointOf(c) * 100.0))
  }

  /** The bytes of one colour stop. */
  function StopBytes(c: ColorStop, num: GrdNumerics): (r: seq<byte>)
    requires Lawful(num)
    ensures |r| == 106
  {
    StopHead() + StopValues(c, num)
  }

  /** 'TrnS' and the opacity key, unit and type. */
  function TrnsHead(): (r: seq<byte>)
    ensures |r| == 16
  {
    TagBytes("TrnS") + TagBytes("Opct") + TagBytes("UntF") + TagBytes("#Prc")
  }

  /** The values of one transparency stop: opacity in percent, Location, Midpoint. */
  function TrnsValues(t: TrnsStop, num: GrdNumerics): (r: seq<byte>)
    requires Lawful(num)
    ensures |r| == 32
  {
    F64(num, t.Alpha * 100.0)
    + LongField("Lctn", Round(t.Position * 4096.0))
    + LongField("Mdpn", Round(t.Midpoint * 100.0))
  }

  /** The bytes of one transparency stop. */
  function TrnsStopBytes(t: TrnsStop, num: GrdNumerics): (r: seq<byte>)
    requires Lawful(num)
    ensures |r| == 48
  {
    TrnsHead() + TrnsValues(t, num)
  }

  function StopsBytes(cs: seq<ColorStop>, num: GrdNumerics): (r: seq<byte>)
    requires Lawful(num)
    ensures |r| == 106 * |cs|
  {
    if cs == [] then [] else StopsBytes(cs[..|cs| - 1], num) + StopBytes(cs[|cs| - 1], num)
  }

  function TrnsStopsBytes(ts: seq<TrnsStop>, num: GrdNumerics): (r: seq<byte>)
    requires Lawful(num)
    ensures |r| == 48 * |ts|
  {
    if ts == [] then [] else TrnsStopsBytes(ts[..|ts| - 1], num) + TrnsStopBytes(ts[|ts| - 1], num)
  }

  /** The keys (`Position.toFixed(6)`) of the positions of the stops. */
  function PositionKeys(cs: seq<ColorStop>, num: GrdNumerics): set<JsString>
  {
    set c | c in cs :: PosKey(num, c.Position)
  }

  /** The stops whose position key no earlier stop has, in the order they come. */
  function FirstSeen(cs: seq<ColorStop>, num: GrdNumerics): (r: seq<ColorStop>)
    ensures |r| <= |cs|
    ensures cs != [] ==> r != []
  {
    if cs == [] then []
    else
      var init, c := cs[..|cs| - 1], cs[|cs| - 1];
      FirstSeen(init, num) + (if PosKey(num, c.Position) in PositionKeys(init, num) then [] else [c])
  }

  function ToTrnsStop(c: ColorStop): TrnsStop {
    TrnsStop(c.Position, AlphaOf(c), MidpointOf(c))
  }

  function ToTrnsStops(cs: seq<ColorStop>): (r: seq<TrnsStop>)
    ensures |r| == |cs| && forall k :: 0 <= k < |cs| ==> r[k] == ToTrnsStop(cs[k])
  {
    if cs == [] then [] else ToTrnsStops(cs[..|cs| - 1]) + [ToTrnsStop(cs[|cs| - 1])]
  }

  /** The transparency stops the writer synthesises from the colour stops. */
  function TransparencySpec(cs: seq<ColorStop>, num: GrdNumerics): seq<TrnsStop>
  {
    if cs == [] then [TrnsStop(0.0, 1.0, 1.0 / 2.0), TrnsStop(1.0, 1.0, 1.0 / 2.0)]
    else ToTrnsStops(FirstSeen(cs, num))
  }

  lemma {:induction false} FirstSeenKeys(cs: seq<ColorStop>, num: GrdNumerics)
    ensures PositionKeys(FirstSeen(cs, num), num) == PositionKeys(cs, num)
    ensures forall i, j :: 0 <= i < j < |FirstSeen(cs, num)| ==>
      PosKey(num, FirstSeen(cs, num)[i].Position) != PosKey(num, FirstSeen(cs, num)[j].Position)
    ensures forall t :: t in FirstSeen(cs, num) ==> t in cs
  {
    if cs != [] {
      var init, c := cs[..|cs| - 1], cs[|cs| - 1];
      FirstSeenKeys(init, num);
      assert cs == init + [c];
      var f := FirstSeen(init, num);
      assert PositionKeys(cs, num) == PositionKeys(init, num) + {PosKey(num, c.Position)};
      if PosKey(num, c.Position) !in PositionKeys(init, num) {
        assert FirstSeen(cs, num) == f + [c];
        assert PositionKeys(f + [c], num) == PositionKeys(f, num) + {PosKey(num, c.Position)};
        forall i | 0 <= i < |f|
          ensures PosKey(num, f[i].Position) != PosKey(num, c.Position)
        {
          assert f[i] in f;
        }
      }
    }
  }

  /** The position keys of a list of transparency stops. */
  function TrnsKeys(ts: seq<TrnsStop>, num: GrdNumerics): set<JsString>
  {
    set t | t in ts :: PosKey(num, t.Position)
  }

  lemma {:induction false} ToTrnsStopsKeys(cs: seq<ColorStop>, num: GrdNumerics)
    ensures TrnsKeys(ToTrnsStops(cs), num) == PositionKeys(cs, num)
  {
    if cs != [] {
      var init, c := cs[..|cs| - 1], cs[|cs| - 1];
      ToTrnsStopsKeys(init, num);
      assert cs == init + [c];
      assert ToTrnsStops(cs) == ToTrnsStops(init) + [ToTrnsStop(c)];
      assert TrnsKeys(ToTrnsStops(init) + [ToTrnsStop(c)], num) == TrnsKeys(ToTrnsStops(init), num) + {PosKey(num, c.Position)};
      assert PositionKeys(init + [c], num) == PositionKeys(init, num) + {PosKey(num, c.Position)};
    }
  }

  /** A gradient with colour stops gets one transparency stop per distinct position key:
      the keys are exactly those of the colour stops, and no two stops share one. */
  lemma TransparencyStopsCover(cs: seq<ColorStop>, num: GrdNumerics)
    requires cs != []
    ensures 1 <= |TransparencySpec(cs, num)| <= |cs|
    ensures TrnsKeys(TransparencySpec(cs, num), num) == PositionKeys(cs, num)
    ensures forall i, j :: 0 <= i < j < |TransparencySpec(cs, num)| ==>
      PosKey(num, TransparencySpec(cs, num)[i].Position) != PosKey(num, TransparencySpec(cs, num)[j].Position)
  {
    FirstSeenKeys(cs, num);
    ToTrnsStopsKeys(FirstSeen(cs, num), num);
  }

  /** The name part of a gradient: 'Grdn', 'Nm  ', 'TEXT' and the name. */
  function NameBlock(name: JsString): (r: seq<byte>)
    ensures |r| == 18 + 2 * |name|
  {
    TagBytes("Grdn") + TagBytes("Nm  ") + TagBytes("TEXT") + UnicodeStrBytes(name)
  }

  /** The colour-stop list of a gradient. */
  function ColourList(cs: seq<ColorStop>, num: GrdNumerics): seq<byte>
    requires Lawful(num)
  {
    ListHead("Clrs", |cs|) + StopsBytes(cs, num)
  }

  /** The transparency-stop list of a gradient. */
  function TrnsList(ts: seq<TrnsStop>, num: GrdNumerics): seq<byte>
    requires Lawful(num)
  {
    ListHead("Trns", |ts|) + TrnsStopsBytes(ts, num)
  }

  /** The block of one gradient: name, colour stops, then transparency stops. */
  function GradientBlock(p: Palette, num: GrdNumerics): seq<byte>
    requires Lawful(num)
  {
    NameBlock(p.Name) + ColourList(p.Colours, num) + TrnsList(TransparencySpec(p.Colours, num), num)
  }

  function GradientsBytes(ps: seq<Palette>, num: GrdNumerics): seq<byte>
    requires Lawful(num)
  {
    if ps == [] then [] else GradientsBytes(ps[..|ps| - 1], num) + GradientBlock(ps[|ps| - 1], num)
  }

  lemma GradientsBytesSnoc(ps: seq<Palette>, g: nat, num: GrdNumerics)
    requires g < |ps| && Lawful(num)
    ensures GradientsBytes(ps[..g + 1], num) == GradientsBytes(ps[..g], num) + GradientBlock(ps[g], num)
  {
    assert ps[..g + 1][..g] == ps[..g];
  }

  /** The file header: '8BGR', version 5, descriptor marker 16. */
  function HeaderBytes(): (r: seq<byte>)
    ensures r == [0x38, 0x42, 0x47, 0x52, 0, 5, 0, 0, 0, 16]
  {
    TagBytes("8BGR") + BE16(5) + BE32(16)
  }

  /** The whole stream the writer emits for a collection, before any truncation. */
  function GrdStream(data: PaletteData, num: GrdNumerics): seq<byte>
    requires Lawful(num)
  {
    HeaderBytes() + GradientsBytes(data.Palettes, num)
  }

  /** The bytes one gradient takes: 42 + 2 per name unit + 106 per colour stop + 48 per
      transparency stop. */
  lemma GradientBlockLength(p: Palette, num: GrdNumerics)
    requires Lawful(num)
    ensures |GradientBlock(p, num)| == 42 + 2 * |p.Name| + 106 * |p.Colours| + 48 * |TransparencySpec(p.Colours, num)|
  {
  }

  /** `estimatedSize`: 10, plus per gradient 100 + 2 per name unit + 120 per stop + 200. */
  function EstimatedSize(ps: seq<Palette>): nat
  {
    if ps == [] then 10
    else
      var p := ps[|ps| - 1];
      EstimatedSize(ps[..|ps| - 1]) + 100 + |p.Name| * 2 + |p.Colours| * 120 + 200
  }

  /** The size the stream really needs. */
  function ExactSize(ps: seq<Palette>, num: GrdNumerics): nat
    requires Lawful(num)
  {
    if ps == [] then 10
    else
      var p := ps[|ps| - 1];
      ExactSize(ps[..|ps| - 1], num) + 42 + 2 * |p.Name| + 106 * |p.Colours| + 48 * |TransparencySpec(p.Colours, num)|
  }

  lemma {:induction false} StreamLength(ps: seq<Palette>, num: GrdNumerics)
    requires Lawful(num)
    ensures |HeaderBytes() + GradientsBytes(ps, num)| == ExactSize(ps, num)
  {
    if ps != [] {
      StreamLength(ps[..|ps| - 1], num);
      GradientBlockLength(ps[|ps| - 1], num);
    }
  }

  /** What `buf.slice(0, pos)` returns when pos may have run past the buffer: stores past the
      end of a typed array are dropped, and slice stops at its length. */
  function Truncated(s: seq<byte>, capacity: nat): (r: seq<byte>)
    ensures |r| <= capacity && |r| <= |s| && r == s[..|r|]
    ensures |s| <= capacity ==> r == s
  {
    if |s| <= capacity then s else s[..capacity]
  }

  /** The writer's buffer and cursor (`buf`, `pos` and the `w*` closures). Emitted is every
      byte written so far, including the ones the buffer was too small to keep. */
  class ByteWriter {
    var buf: array<byte>
    var pos: nat
    ghost var Emitted: seq<byte>

    /** The number of bytes the buffer holds. */
    function Kept(): nat
      reads this, buf
    {
      if pos <= buf.Length then pos else buf.Length
    }

    /** The buffer holds every emitted byte it has room for. */
    ghost predicate Valid()
      reads this, buf
    {
      pos == |Emitted| && buf[..Kept()] == Truncated(Emitted, buf.Length)
    }

    constructor (capacity: nat)
      ensures Valid() && fresh(buf) && buf.Length == capacity && Emitted == []
    {
      buf := new byte[capacity](k => 0);
      pos := 0;
      Emitted := [];
    }

    /** `buf[pos++] = v`. */
    method Put(v: int)
      requires Valid()
      modifies this, buf
      ensures Valid() && buf == old(buf) && Emitted == old(Emitted) + [Low8(v)]
    {
      if pos < buf.Length {
        buf[pos] := Low8(v);
        assert buf[..pos + 1] == old(buf[..pos]) + [Low8(v)];
      }
      pos := pos + 1;
      Emitted := Emitted + [Low8(v)];
    }

    /** `w16be(v)`. */
    method W16(v: int)
      requires Valid()
      modifies this, buf
      ensures Valid() && buf == old(buf) && Emitted == old(Emitted) + BE16(v)
    {
      var b := BE16(v);
      Put(b[0]);
      Put(b[1]);
    }

    /** `w32be(v)`: the four bytes of `v >>> 0`, most significant first. */
    method W32(v: int)
      requires Valid()
      modifies this, buf
      ensures Valid() && buf == old(buf) && Emitted == old(Emitted) + BE32(v)
    {
      var b := BE32(v);
      Put(b[0]);
      Put(b[1]);
      Put(b[2]);
      Put(b[3]);
    }

    /** `wTag(s)`: the four code units of an ASCII tag. */
    method WTag(t: string)
      requires Valid() && |t| == 4
      modifies this, buf
      ensures Valid() && buf == old(buf) && Emitted == old(Emitted) + TagBytes(t)
    {
      Put(t[0] as int);
      Put(t[1] as int);
      Put(t[2] as int);
      Put(t[3] as int);
    }

    /** `wZeros(n)`. */
    method WZeros(n: nat)
      requires Valid()
      modifies this, buf
      ensures Valid() && buf == old(buf) && Emitted == old(Emitted) + Zeros(n)
    {
      var i := 0;
      while i < n
        invariant i <= n
        invariant Valid() && buf == old(buf) && Emitted == old(Emitted) + Zeros(i)
      {
        Put(0);
        i := i + 1;
      }
    }

    /** `wf64be(x)`. */
    method WF64(x: real, num: GrdNumerics)
      requires Valid() && Lawful(num)
      modifies this, buf
      ensures Valid() && buf == old(buf) && Emitted == old(Emitted) + F64(num, x)
    {
      var bytes := F64(num, x);
      var i := 0;
      while i < 8
        invariant i <= 8
        invariant Valid() && buf == old(buf) && Emitted == old(Emitted) + bytes[..i]
      {
        Put(bytes[i]);
        i := i + 1;
      }
    }

    /** `wUnicodeStr(s)`. */
    method WUnicodeStr(s: JsString)
      requires Valid()
      modifies this, buf
      ensures Valid() && buf == old(buf) && Emitted == old(Emitted) + UnicodeStrBytes(s)
    {
      W32(|s| + 1);
      var i := 0;
      while i < |s|
        invariant i <= |s|
        invariant Valid() && buf == old(buf) && Emitted == old(Emitted) + BE32(|s| + 1) + UnitsBE(s[..i])
      {
        assert s[..i + 1][..i] == s[..i];
        W16(s[i]);
        i := i + 1;
      }
      assert s[..i] == s;
      W16(0);
    }

    /** A key, 'doub' and a float (the `wTag`, `wTag`, `wf64be` triples). */
    method WDouble(key: string, x: real, num: GrdNumerics)
      requires Valid() && |key| == 4 && Lawful(num)
      modifies this, buf
      ensures Valid() && buf == old(buf) && Emitted == old(Emitted) + DoubleField(key, x, num)
    {
      WTag(key);
      WTag("doub");
      WF64(x, num);
    }

    /** A key, 'long' and an integer (the `wTag`, `wTag`, `w32be` triples). */
    method WLong(key: string, v: int)
      requires Valid() && |key| == 4
      modifies this, buf
      ensures Valid() && buf == old(buf) && Emitted == old(Emitted) + LongField(key, v)
    {
      WTag(key);
      WTag("long");
      W32(v);
    }

    /** A list key, 'VlLs' and the count. */
    method WListHead(key: string, n: int)
      requires Valid() && |key| == 4
      modifies this, buf
      ensures Valid() && buf == old(buf) && Emitted == old(Emitted) + ListHead(key, n)
    {
      WTag(key);
      WTag("VlLs");
      W32(n);
    }

    /** `buf.slice(0, pos)`. */
    function Output(): (r: seq<byte>)
      reads this, buf
      requires Valid()
      ensures r == Truncated(Emitted, buf.Length)
    {
      buf[..Kept()]
    }
  }

  /** One turn of the transparency-stop loop: stop c adds its key, and is kept when its key
      is new. */
  lemma FirstSeenStep(cs: seq<ColorStop>, c: nat, num: GrdNumerics)
    requires c < |cs|
    ensures var key := PosKey(num, cs[c].Position);
      && PositionKeys(cs[..c + 1], num) == PositionKeys(cs[..c], num) + {key}
      && (key in PositionKeys(cs[..c], num) ==>
            ToTrnsStops(FirstSeen(cs[..c + 1], num)) == ToTrnsStops(FirstSeen(cs[..c], num)))
      && (key !in PositionKeys(cs[..c], num) ==>
            ToTrnsStops(FirstSeen(cs[..c + 1], num)) == ToTrnsStops(FirstSeen(cs[..c], num)) + [ToTrnsStop(cs[c])])
  {
    var init := cs[..c];
    assert cs[..c + 1][..c] == init;
    assert cs[..c + 1] == init + [cs[c]];
    var key := PosKey(num, cs[c].Position);
    assert PositionKeys(cs[..c + 1], num) == PositionKeys(init, num) + {key};
    if key !in PositionKeys(init, num) {
      var f := FirstSeen(init, num) + [cs[c]];
      assert f[..|f| - 1] == FirstSeen(init, num);
    } else {
      assert FirstSeen(cs[..c + 1], num) == FirstSeen(init, num) + [];
      assert FirstSeen(init, num) + [] == FirstSeen(init, num);
    }
  }

  /** The body of the transparency-stop loop: stop c is kept when its position key is new. */
  method KeepIfNew(colours: seq<ColorStop>, c: nat, num: GrdNumerics, seen: set<JsString>, stops: seq<TrnsStop>)
    returns (seen': set<JsString>, stops': seq<TrnsStop>)
    requires c < |colours|
    requires seen == PositionKeys(colours[..c], num) && stops == ToTrnsStops(FirstSeen(colours[..c], num))
    ensures seen' == PositionKeys(colours[..c + 1], num) && stops' == ToTrnsStops(FirstSeen(colours[..c + 1], num))
  {
    var posKey := PosKey(num, colours[c].Position);
    FirstSeenStep(colours, c, num);
    seen', stops' := seen, stops;
    if posKey !in seen {
      seen' := seen + {posKey};
      stops' := stops + [ToTrnsStop(colours[c])];
    }
  }

  /** The transparency stops of write_grd.js: one per distinct `Position.toFixed(6)`, in the
      order first seen, with Alpha and Midpoint defaulted; two stops at 0 and 1 when there
      are no colour stops. */
  method TransparencyStops(colours: seq<ColorStop>, num: GrdNumerics) returns (stops: seq<TrnsStop>)
    ensures stops == TransparencySpec(colours, num)
  {
    stops := [];
    var seen: set<JsString> := {};
    var c := 0;
    while c < |colours|
      invariant c <= |colours|
      invariant seen == PositionKeys(colours[..c], num)
      invariant stops == ToTrnsStops(FirstSeen(colours[..c], num))
    {
      seen, stops := KeepIfNew(colours, c, num, seen, stops);
      c := c + 1;
    }
    assert colours[..c] == colours;
    if stops == [] {
      stops := [TrnsStop(0.0, 1.0, 1.0 / 2.0), TrnsStop(1.0, 1.0, 1.0 / 2.0)];
    }
  }

  /** One iteration of the colour-stop loop of `buildGrdBuffer`. */
  method EmitStop(w: ByteWriter, colour: ColorStop, num: GrdNumerics)
    requires w.Valid() && Lawful(num)
    modifies w, w.buf
    ensures w.Valid() && w.buf == old(w.buf) && w.Emitted == old(w.Emitted) + StopBytes(colour, num)
  {
    ghost var e0 := w.Emitted;
    w.WTag("Clrt");
    w.WZeros(26);
    w.WTag("RGBC");
    Chain3(e0, TagBytes("Clrt"), Zeros(26), TagBytes("RGBC"));
    ghost var e1 := w.Emitted;
    EmitChannels(w, colour, num);
    var midpoint := MidpointOf(colour);
    w.WLong("Lctn", Round(colour.Position * 4096.0));
    w.WLong("Mdpn", Round(midpoint * 100.0));
    Chain3(e1, Channels(colour, num), LongField("Lctn", Round(colour.Position * 4096.0)), LongField("Mdpn", Round(midpoint * 100.0)));
    Chain2(e0, StopHead(), StopValues(colour, num));
  }

  /** The three channel fields of a colour stop. */
  method EmitChannels(w: ByteWriter, colour: ColorStop, num: GrdNumerics)
    requires w.Valid() && Lawful(num)
    modifies w, w.buf
    ensures w.Valid() && w.buf == old(w.buf) && w.Emitted == old(w.Emitted) + Channels(colour, num)
  {
    ghost var e0 := w.Emitted;
    w.WDouble("Rd  ", colour.Red * 255.0, num);
    w.WDouble("Grn ", colour.Green * 255.0, num);
    w.WDouble("Bl  ", colour.Blue * 255.0, num);
    Chain3(e0, DoubleField("Rd  ", colour.Red * 255.0, num), DoubleField("Grn ", colour.Green * 255.0, num),
      DoubleField("Bl  ", colour.Blue * 255.0, num));
  }

  /** One iteration of the transparency-stop loop of `buildGrdBuffer`. */
  method EmitTrnsStop(w: ByteWriter, stop: TrnsStop, num: GrdNumerics)
    requires w.Valid() && Lawful(num)
    modifies w, w.buf
    ensures w.Valid() && w.buf == old(w.buf) && w.Emitted == old(w.Emitted) + TrnsStopBytes(stop, num)
  {
    TrnsStopFields(w.Emitted, stop, num);
    w.WTag("TrnS");
    w.WTag("Opct");
    w.WTag("UntF");
    w.WTag("#Prc");
    w.WF64(stop.Alpha * 100.0, num);
    w.WLong("Lctn", Round(stop.Position * 4096.0));
    w.WLong("Mdpn", Round(stop.Midpoint * 100.0));
  }

  /** A transparency stop appended to e is its fields appended one by one. */
  lemma TrnsStopFields(e: seq<byte>, stop: TrnsStop, num: GrdNumerics)
    requires Lawful(num)
    ensures e + TrnsStopBytes(stop, num) == e + TagBytes("TrnS") + TagBytes("Opct") + TagBytes("UntF") + TagBytes("#Prc")
      + F64(num, stop.Alpha * 100.0) + LongField("Lctn", Round(stop.Position * 4096.0)) + LongField("Mdpn", Round(stop.Midpoint * 100.0))
  {
    Chain4(e, TagBytes("TrnS"), TagBytes("Opct"), TagBytes("UntF"), TagBytes("#Prc"));
    Chain3(e + TrnsHead(), F64(num, stop.Alpha * 100.0), LongField("Lctn", Round(stop.Position * 4096.0)), LongField("Mdpn", Round(stop.Midpoint * 100.0)));
    Chain2(e, TrnsHead(), TrnsValues(stop, num));
  }

  /** The name part of one iteration of the gradient loop. */
  method EmitName(w: ByteWriter, name: JsString)
    requires w.Valid()
    modifies w, w.buf
    ensures w.Valid() && w.buf == old(w.buf) && w.Emitted == old(w.Emitted) + NameBlock(name)
  {
    ghost var e0 := w.Emitted;
    w.WTag("Grdn");
    w.WTag("Nm  ");
    w.WTag("TEXT");
    w.WUnicodeStr(name);
    Chain4(e0, TagBytes("Grdn"), TagBytes("Nm  "), TagBytes("TEXT"), UnicodeStrBytes(name));
  }

  /** The colour-stop list: its head, then each stop. */
  method EmitColourList(w: ByteWriter, colours: seq<ColorStop>, num: GrdNumerics)
    requires w.Valid() && Lawful(num)
    modifies w, w.buf
    ensures w.Valid() && w.buf == old(w.buf) && w.Emitted == old(w.Emitted) + ColourList(colours, num)
  {
    ghost var e0 := w.Emitted;
    w.WListHead("Clrs", |colours|);
    ghost var head := w.Emitted;
    var c := 0;
    while c < |colours|
      invariant c <= |colours|
      invariant w.Valid() && w.buf == old(w.buf)
      invariant w.Emitted == head + StopsBytes(colours[..c], num)
    {
      assert colours[..c + 1][..c] == colours[..c];
      Chain2(head, StopsBytes(colours[..c], num), StopBytes(colours[c], num));
      EmitStop(w, colours[c], num);
      c := c + 1;
    }
    assert colours[..c] == colours;
    Chain2(e0, ListHead("Clrs", |colours|), StopsBytes(colours, num));
  }

  /** The transparency-stop list: its head, then each stop. */
  method EmitTrnsList(w: ByteWriter, stops: seq<TrnsStop>, num: GrdNumerics)
    requires w.Valid() && Lawful(num)
    modifies w, w.buf
    ensures w.Valid() && w.buf == old(w.buf) && w.Emitted == old(w.Emitted) + TrnsList(stops, num)
  {
    ghost var e0 := w.Emitted;
    w.WListHead("Trns", |stops|);
    ghost var head := w.Emitted;
    var t := 0;
    while t < |stops|
      invariant t <= |stops|
      invariant w.Valid() && w.buf == old(w.buf)
      invariant w.Emitted == head + TrnsStopsBytes(stops[..t], num)
    {
      assert stops[..t + 1][..t] == stops[..t];
      Chain2(head, TrnsStopsBytes(stops[..t], num), TrnsStopBytes(stops[t], num));
      EmitTrnsStop(w, stops[t], num);
      t := t + 1;
    }
    assert stops[..t] == stops;
    Chain2(e0, ListHead("Trns", |stops|), TrnsStopsBytes(stops, num));
  }

  /** The body of the gradient loop of `buildGrdBuffer`. */
  method EmitGradient(w: ByteWriter, p: Palette, num: GrdNumerics)
    requires w.Valid() && Lawful(num)
    modifies w, w.buf
    ensures w.Valid() && w.buf == old(w.buf) && w.Emitted == old(w.Emitted) + GradientBlock(p, num)
  {
    ghost var e0 := w.Emitted;
    var colours := p.Colours;
    EmitName(w, p.Name);
    EmitColourList(w, colours, num);
    var stops := TransparencyStops(colours, num);
    EmitTrnsList(w, stops, num);
    Chain3(e0, NameBlock(p.Name), ColourList(colours, num), TrnsList(stops, num));
  }

  /** The gradient loop of `buildGrdBuffer`. */
  method EmitGradients(w: ByteWriter, ps: seq<Palette>, num: GrdNumerics)
    requires w.Valid() && Lawful(num)
    modifies w, w.buf
    ensures w.Valid() && w.buf == old(w.buf) && w.Emitted == old(w.Emitted) + GradientsBytes(ps, num)
  {
    ghost var e0 := w.Emitted;
    var g := 0;
    while g < |ps|
      invariant g <= |ps|
      invariant w.Valid() && w.buf == old(w.buf)
      invariant w.Emitted == e0 + GradientsBytes(ps[..g], num)
    {
      GradientsBytesSnoc(ps, g, num);
      Chain2(e0, GradientsBytes(ps[..g], num), GradientBlock(ps[g], num));
      EmitGradient(w, ps[g], num);
      g := g + 1;
    }
    assert ps[..g] == ps;
  }

  /** `buildGrdBuffer` with a buffer of the given capacity: the stream, cut to the capacity. */
  method EmitGrd(data: PaletteData, num: GrdNumerics, capacity: nat) returns (out: seq<byte>)
    requires Lawful(num)
    ensures out == Truncated(GrdStream(data, num), capacity)
  {
    var w := new ByteWriter(capacity);
    w.WTag("8BGR");
    w.W16(5);
    w.W32(16);
    Chain3([], TagBytes("8BGR"), BE16(5), BE32(16));
    assert w.Emitted == HeaderBytes();
    EmitGradients(w, data.Palettes, num);
    out := w.Output();
  }

  /** `buildGrdBuffer` as written: the buffer is sized by the estimate. */
  method BuildGrdBuffer(data: PaletteData, num: GrdNumerics) returns (out: seq<byte>)
    requires Lawful(num)
    ensures out == Truncated(GrdStream(data, num), EstimatedSize(data.Palettes))
    ensures ExactSize(data.Palettes, num) <= EstimatedSize(data.Palettes) ==> out == GrdStream(data, num)
  {
    StreamLength(data.Palettes, num);
    out := EmitGrd(data, num, EstimatedSize(data.Palettes));
  }

  /** `buildGrdBuffer` with the buffer sized to what the stream needs: never truncated. */
  method BuildGrdBufferExact(data: PaletteData, num: GrdNumerics) returns (out: seq<byte>)
    requires Lawful(num)
    ensures out == GrdStream(data, num)
    ensures out[..10] == [0x38, 0x42, 0x47, 0x52, 0, 5, 0, 0, 0, 16]
  {
    StreamLength(data.Palettes, num);
    out := EmitGrd(data, num, ExactSize(data.Palettes, num));
  }

  /** No stop's position key is that of an earlier stop. */
  predicate DistinctKeys(cs: seq<ColorStop>, num: GrdNumerics) {
    cs == [] ||
    (PosKey(num, cs[|cs| - 1].Position) !in PositionKeys(cs[..|cs| - 1], num) && DistinctKeys(cs[..|cs| - 1], num))
  }

  /** Stops whose position keys are distinct are all first seen. */
  lemma {:induction false} FirstSeenDistinct(cs: seq<ColorStop>, num: GrdNumerics)
    requires DistinctKeys(cs, num)
    ensures FirstSeen(cs, num) == cs
  {
    if cs != [] {
      var init, c := cs[..|cs| - 1], cs[|cs| - 1];
      assert PosKey(num, c.Position) !in PositionKeys(init, num);
      assert FirstSeen(cs, num) == FirstSeen(init, num) + [c];
      FirstSeenDistinct(init, num);
      assert cs == init + [c];
    }
  }

  /** Pairwise distinct position keys are distinct keys in the sense above. */
  lemma {:induction false} PairwiseDistinctKeys(cs: seq<ColorStop>, num: GrdNumerics)
    requires forall i, j :: 0 <= i < j < |cs| ==> PosKey(num, cs[i].Position) != PosKey(num, cs[j].Position)
    ensures DistinctKeys(cs, num)
  {
    if cs != [] {
      DistinctKeysInit(cs, num);
      PairwiseDistinctKeys(cs[..|cs| - 1], num);
      LastKeyNew(cs, num);
    }
  }

  /** Distinct position keys stay distinct without the last stop. */
  lemma DistinctKeysInit(cs: seq<ColorStop>, num: GrdNumerics)
    requires cs != []
    requires forall i, j :: 0 <= i < j < |cs| ==> PosKey(num, cs[i].Position) != PosKey(num, cs[j].Position)
    ensures var init := cs[..|cs| - 1];
      forall i, j :: 0 <= i < j < |init| ==> PosKey(num, init[i].Position) != PosKey(num, init[j].Position)
  {
    var init := cs[..|cs| - 1];
    forall i, j | 0 <= i < j < |init|
      ensures PosKey(num, init[i].Position) != PosKey(num, init[j].Position)
    {
      assert init[i] == cs[i] && init[j] == cs[j];
    }
  }

  /** With distinct position keys, the last stop's key is new. */
  lemma LastKeyNew(cs: seq<ColorStop>, num: GrdNumerics)
    requires cs != []
    requires forall i, j :: 0 <= i < j < |cs| ==> PosKey(num, cs[i].Position) != PosKey(num, cs[j].Position)
    ensures PosKey(num, cs[|cs| - 1].Position) !in PositionKeys(cs[..|cs| - 1], num)
  {
    var init, c := cs[..|cs| - 1], cs[|cs| - 1];
    forall d | d in init
      ensures PosKey(num, d.Position) != PosKey(num, c.Position)
    {
      var i :| 0 <= i < |init| && init[i] == d;
      assert cs[i] == d;
    }
  }

  /** The size estimate of `buildGrdBuffer` falls short for a single gradient with eight or
      more colour stops at distinct positions: the transparency block alone outgrows the 200
      bytes set aside for it, and the stream is cut off before its end. */
  lemma EstimateFallsShort(p: Palette, num: GrdNumerics)
    requires Lawful(num) && |p.Colours| >= 8
    requires forall i, j :: 0 <= i < j < |p.Colours| ==>
      PosKey(num, p.Colours[i].Position) != PosKey(num, p.Colours[j].Position)
    ensures EstimatedSize([p]) < ExactSize([p], num)
    ensures |Truncated(GrdStream(PaletteData([], [p], []), num), EstimatedSize([p]))| < |GrdStream(PaletteData([], [p], []), num)|
  {
    PairwiseDistinctKeys(p.Colours, num);
    FirstSeenDistinct(p.Colours, num);
    assert [p][..0] == [];
    StreamLength([p], num);
  }

  /** Whatever the collection, a buffer sized by `ExactSize` keeps the whole stream, and it
      is the smallest that does. */
  lemma ExactSizeIsTight(data: PaletteData, num: GrdNumerics, capacity: nat)
    requires Lawful(num)
    ensures Truncated(GrdStream(data, num), capacity) == GrdStream(data, num) <==> ExactSize(data.Palettes, num) <= capacity
  {
    StreamLength(data.Palettes, num);
  }
}
