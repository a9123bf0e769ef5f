/** The Affinity palette (.afpalette) writer of palette-js/write_afpalette.js: the output is
    staged as a list of byte chunks, the size fields are backpatched once the total is known,
    the chunks are copied into one buffer and a CRC-32 of the body is written into two
    fixed slots of the 115-byte footer. Every integer is little-endian. */
module AfPalette {
  import opened Wrappers
  import opened Js
  import opened Bytes
  import opened Seqs
  import opened Colour
  import opened Crc32

  /** The encoders the writer borrows from the host: `setFloat32`/`setFloat64` little-endian
      (an absent value is `undefined`, which they write as NaN), giving 4 and 8 bytes, and
      `TextEncoder` (UTF-8). */
  datatype AfEncoders = AfEncoders(
    f32le: Option<real> -> (byte, byte, byte, byte),
    f64le: Option<real> -> (byte, byte, byte, byte, byte, byte, byte, byte),
    utf8: JsString -> seq<byte>)

  /** `float32ToBytes`. */
  function F32(enc: AfEncoders, x: Option<real>): (r: seq<byte>)
    ensures |r| == 4
  {
    var w := enc.f32le(x);
    [w.0, w.1, w.2, w.3]
  }

  /** `float64ToBytes`. */
  function F64(enc: AfEncoders, x: Option<real>): (r: seq<byte>)
    ensures |r| == 8
  {
    var w := enc.f64le(x);
    [w.0, w.1, w.2, w.3, w.4, w.5, w.6, w.7]
  }

  function Utf8(enc: AfEncoders, s: JsString): seq<byte> {
    enc.utf8(s)
  }

  /* ---------- hexToBytes ---------- */

  predicate IsHexDigit(ch: char) {
    ('0' <= ch <= '9') || ('A' <= ch <= 'F') || ('a' <= ch <= 'f')
  }

  function HexValue(ch: char): (r: nat)
    requires IsHexDigit(ch)
    ensures r < 16
  {
    if ch <= '9' then ch as int - '0' as int
    else if ch <= 'F' then ch as int - 'A' as int + 10
    else ch as int - 'a' as int + 10
  }

  predicate IsHex(s: string) {
    forall i :: 0 <= i < |s| ==> IsHexDigit(s[i])
  }

  /** The pairs of hex digits of s read as bytes, a trailing odd digit dropped. */
  function HexPairs(s: string): (r: seq<byte>)
    requires IsHex(s)
    ensures |r| == |s| / 2
    ensures forall k :: 0 <= k < |r| ==> r[k] == HexValue(s[2 * k]) * 16 + HexValue(s[2 * k + 1])
  {
    if |s| < 2 then []
    else
      var rest := HexPairs(s[2..]);
      assert forall k :: 0 <= k < |rest| ==> s[2..][2 * k] == s[2 * k + 2] && s[2..][2 * k + 1] == s[2 * k + 3];
      [HexValue(s[0]) * 16 + HexValue(s[1])] + rest
  }

  /** `hexToBytes(s)`: `s.match(/.{2}/g)` finds no pair in a string shorter than two, and the
      call on its null result throws, so the source needs at least one pair. */
  function HexToBytes(s: string): (r: seq<byte>)
    requires |s| >= 2 && IsHex(s)
    ensures |r| == |s| / 2 && |r| >= 1
    ensures forall k :: 0 <= k < |r| ==> r[k] == HexValue(s[2 * k]) * 16 + HexValue(s[2 * k + 1])
  {
    HexPairs(s)
  }

  function HexDigit(v: nat): (ch: char)
    requires v < 16
    ensures IsHexDigit(ch) && HexValue(ch) == v
  {
    if v < 10 then ('0' as int + v) as char else ('A' as int + v - 10) as char
  }

  /** Bytes spelt as upper-case hex, two digits each, the way the writer's constants are written. */
  function HexString(bs: seq<byte>): (s: string)
    ensures |s| == 2 * |bs| && IsHex(s)
  {
    if bs == [] then "" else [HexDigit(bs[0] / 16), HexDigit(bs[0] % 16)] + HexString(bs[1..])
  }

  lemma {:induction false} HexPairsOfString(bs: seq<byte>)
    ensures HexPairs(HexString(bs)) == bs
  {
    if bs != [] {
      var s := HexString(bs);
      assert s[2..] == HexString(bs[1..]);
      HexPairsOfString(bs[1..]);
    }
  }

  /** hexToBytes reads back any bytes spelt in hex. */
  lemma HexRoundTrip(bs: seq<byte>)
    requires bs != []
    ensures HexToBytes(HexString(bs)) == bs
  {
    HexPairsOfString(bs);
  }

  /* ---------- the constants of the format ---------- */

  const MAGIC: seq<byte> := [0x00, 0xFF, 0x4B, 0x41]
  const SWTH: seq<byte> := [0x68, 0x74, 0x77, 0x53]
  const INF: seq<byte> := [0x23, 0x49, 0x6E, 0x66]
  const DATESTAMP: seq<byte> := [0xF8, 0xD1, 0x4F, 0x64]
  const PROT: seq<byte> := [0x50, 0x72, 0x6F, 0x74]
  const FIL: seq<byte> := [0x23, 0x46, 0x69, 0x6C]
  const FIL_TAIL: seq<byte> := [0x00, 0xFF, 0x4B, 0x53, 0x02, 0x00]
  const PALV: seq<byte> := [0x56, 0x6C, 0x61, 0x50]
  const PALV_TAIL: seq<byte> := [0x01, 0x00, 0x14, 0x00, 0x00, 0x00]
  const PLCN: seq<byte> := [0x2B, 0x4E, 0x43, 0x6C, 0x50]
  const B1PALV: seq<byte> := [0xB1, 0x56, 0x6C, 0x61, 0x50]
  /** 'GliF' 02000000 'lliF' 00000002 '*epyT' 00000000 '1darG' 01: the full fill header. */
  const FIRST_FILL: seq<byte> := [
    0x47, 0x6C, 0x69, 0x46, 0x02, 0x00, 0x00, 0x00, 0x6C, 0x6C, 0x69, 0x46, 0x00, 0x00, 0x00, 0x02,
    0x2A, 0x65, 0x70, 0x79, 0x54, 0x00, 0x00, 0x00, 0x00, 0x31, 0x64, 0x61, 0x72, 0x47, 0x01]
  /** 'GliF' '*epyT' 00000000 '1darG' 01: the compact fill header. */
  const LATER_FILL: seq<byte> := [
    0x47, 0x6C, 0x69, 0x46, 0x2A, 0x65, 0x70, 0x79, 0x54, 0x00, 0x00, 0x00, 0x00, 0x31, 0x64, 0x61,
    0x72, 0x47, 0x01]
  const GRAD: seq<byte> := [0x64, 0x61, 0x72, 0x47]
  /** The "01000002" that follows an uncompressed (type 0) entry. */
  const VERBOSE_MARK: seq<byte> := [0x01, 0x00, 0x00, 0x02]
  const POSN: seq<byte> := [0x6E, 0x73, 0x6F, 0x50]
  const COLS: seq<byte> := [0xB1, 0x73, 0x6C, 0x6F, 0x43]
  const RGBA: seq<byte> := [0x41, 0x42, 0x47, 0x52]
  const COLD: seq<byte> := [0x44, 0x6C, 0x6F, 0x63, 0x5F]
  const NAMES_MARK: seq<byte> := [0x00, 0x00, 0x00, 0xAB]
  const PANV: seq<byte> := [0x56, 0x4E, 0x61, 0x50]
  const END_MARK: seq<byte> := [0x00, 0xFF, 0xFF, 0xFF, 0xFF]
  const FT4: seq<byte> := [0x23, 0x46, 0x54, 0x34]
  const CHECKSUM_GAP: seq<byte> := [0x00, 0x14, 0x00, 0x00, 0x00]
  const STORE_NAME_LEN: seq<byte> := [0x0C, 0x00]
  const SWATCHES_DAT: seq<byte> := [0x53, 0x77, 0x61, 0x74, 0x63, 0x68, 0x65, 0x73, 0x2E, 0x64, 0x61, 0x74]

  const HEADER_SIZE: int := 80
  const FOOTER_SIZE: int := 115
  /** The CRC covers the body size from here (`c_headerSize - 4`). */
  const CRC_OFFSET: int := 76
  /** Where the two checksum slots sit in the footer. */
  const CHECKSUM1: int := 88
  const CHECKSUM2: int := 97

  /* ---------- the chunk list ---------- */

  /** `stringToBytes(s)`: the UTF-8 byte length as 4 little-endian bytes, then the bytes. */
  function StringToBytes(enc: AfEncoders, s: JsString): (r: seq<byte>)
    ensures |r| == 4 + |Utf8(enc, s)|
  {
    LE32(|Utf8(enc, s)|) + Utf8(enc, s)
  }

  /** A reader recovers the UTF-8 text from a `stringToBytes` block: its first word is the
      byte count and the count bytes after it are the text. */
  lemma StringToBytesReads(enc: AfEncoders, s: JsString)
    requires |Utf8(enc, s)| < TWO32
    ensures var r := StringToBytes(enc, s);
      U32LE(r, 0) == |Utf8(enc, s)| && r[4..4 + U32LE(r, 0)] == Utf8(enc, s)
  {
    var r := StringToBytes(enc, s);
    assert r[..4] == LE32(|Utf8(enc, s)|);
    assert U32LE(r, 0) == U32LE(r[..4], 0);
  }

  /** The three size fields, zero until the total size is known. */
  datatype Sizes = Sizes(withoutFooter: int, file: int, body: int)

  const Unpatched := Sizes(0, 0, 0)

  /** The sizes once the file size fs is known. */
  function SizesFor(fs: int): Sizes {
    Sizes(fs - FOOTER_SIZE, fs, fs - (FOOTER_SIZE + HEADER_SIZE))
  }

  /** 'magic', version 11, 'htwS', '#Inf'. */
  function HeaderStart(): (r: seq<seq<byte>>)
    ensures |r| == 4
  {
    [MAGIC, LE32(11), SWTH, INF]
  }

  /** The three size fields (placeholders 4, 5 and 6) and a zero. */
  function HeaderSizes(z: Sizes): (r: seq<seq<byte>>)
    ensures |r| == 4
  {
    [LE64(z.withoutFooter), LE64(z.file), LE64(z.body), LE64(0)]
  }

  function HeaderMiddle(): (r: seq<seq<byte>>)
    ensures |r| == 11
  {
    [DATESTAMP, LE32(0), LE32(2), LE32(2), PROT, LE32(3), FIL, FIL_TAIL, PALV, PALV_TAIL, PLCN]
  }

  /** What the chunk list holds apart from the size fields: the `stringToBytes` block of the
      file name, the palette count, and the chunks between the header and the footer. */
  datatype Content = Content(nameBlock: seq<byte>, count: int, body: seq<seq<byte>>)

  /** The file name, 'PalV' and the palette count. */
  function HeaderName(ct: Content): (r: seq<seq<byte>>)
    ensures |r| == 3
  {
    [ct.nameBlock, B1PALV, LE32(ct.count)]
  }

  /** The chunks pushed before the palette loop. */
  function HeaderChunks(ct: Content, z: Sizes): (r: seq<seq<byte>>)
    ensures |r| == 22
  {
    HeaderStart() + HeaderSizes(z) + HeaderMiddle() + HeaderName(ct)
  }

  /** The fill and gradient entries that open a gradient: the verbose form, with the full
      'GliF'/'lliF' data and a type-0 gradient, for the first gradient of the file, the
      compact form after it. Both take two ids, id and id + 1. */
  function FillHead(first: bool, id: int): (r: seq<seq<byte>>)
    ensures |r| == (if first then 9 else 8)
  {
    if first then [[1], LE32(id), [0], FIRST_FILL, LE32(id + 1), [0], GRAD, VERBOSE_MARK, [0xA4]]
    else [LE32(0x100_0000), LE32(id), [1], LATER_FILL, LE32(id + 1), [1], GRAD, [0xA4]]
  }

  /** The midpoint written with stop j: Affinity keeps a stop's midpoint on its left side,
      Photoshop on its right, so stop j takes the midpoint of stop j + 1 and the last stop 0.5. */
  function ShiftedMidpoint(cs: seq<ColorStop>, j: nat): Option<real>
    requires j < |cs|
  {
    if j == |cs| - 1 then Some(1.0 / 2.0) else cs[j + 1].Midpoint
  }

  /** `float64ToBytes` of each value in turn. */
  function Floats64(enc: AfEncoders, xs: seq<Option<real>>): (r: seq<seq<byte>>)
    ensures |r| == |xs|
  {
    if xs == [] then [] else [F64(enc, xs[0])] + Floats64(enc, xs[1..])
  }

  /** The position and the shifted midpoint of stop j. */
  function PositionEntry(cs: seq<ColorStop>, enc: AfEncoders, j: nat): (r: seq<seq<byte>>)
    requires j < |cs|
    ensures |r| == 2
  {
    Floats64(enc, [Some(cs[j].Position), ShiftedMidpoint(cs, j)])
  }

  /** The position entries of the first n stops. */
  function PositionEntries(cs: seq<ColorStop>, enc: AfEncoders, n: nat): (r: seq<seq<byte>>)
    requires n <= |cs|
    ensures |r| == 2 * n
  {
    if n == 0 then [] else PositionEntries(cs, enc, n - 1) + PositionEntry(cs, enc, n - 1)
  }

  /** 'Posn', the stop count, then the position entries. */
  function PosnChunks(cs: seq<ColorStop>, enc: AfEncoders): (r: seq<seq<byte>>)
  {
    [POSN, LE32(|cs|)] + PositionEntries(cs, enc, |cs|)
  }

  /** `float32ToBytes` of each value in turn. */
  function Floats32(enc: AfEncoders, xs: seq<Option<real>>): (r: seq<seq<byte>>)
    ensures |r| == |xs|
  {
    if xs == [] then [] else [F32(enc, xs[0])] + Floats32(enc, xs[1..])
  }

  lemma Floats64Two(enc: AfEncoders, a: Option<real>, b: Option<real>)
    ensures Floats64(enc, [a, b]) == [F64(enc, a), F64(enc, b)]
  {
    assert [a, b][1..] == [b];
    assert [b][1..] == [];
  }

  lemma Floats32Four(enc: AfEncoders, a: Option<real>, b: Option<real>, c: Option<real>, d: Option<real>)
    ensures Floats32(enc, [a, b, c, d]) == [F32(enc, a), F32(enc, b), F32(enc, c), F32(enc, d)]
  {
    assert [a, b, c, d][1..] == [b, c, d];
    assert [b, c, d][1..] == [c, d];
    assert [c, d][1..] == [d];
    assert [d][1..] == [];
    assert Floats32(enc, [c, d]) == [F32(enc, c), F32(enc, d)];
  }

  /** The entry of colour j with id `id`: the uncompressed form (type 0 and "01000002") when
      verbose, the compressed one (type 1) otherwise; the four channels as 32-bit floats;
      and a 0 byte after every colour but the last. */
  function ColourEntry(cs: seq<ColorStop>, enc: AfEncoders, j: nat, verbose: bool, id: int): (r: seq<seq<byte>>)
    requires j < |cs|
    ensures |r| == 9 + (if verbose then 1 else 0) + (if j < |cs| - 1 then 1 else 0)
  {
    var c := cs[j];
    [[1]]
    + (if verbose then [LE32(id), [0], RGBA, VERBOSE_MARK] else [LE32(id), [1], RGBA])
    + [COLD]
    + Floats32(enc, [Some(c.Red), Some(c.Green), Some(c.Blue), c.Alpha])
    + (if j != |cs| - 1 then [[0]] else [])
  }

  /** The entries of the first n colours, numbered from id; only colour 0, and only when
      firstRgba holds, is verbose. */
  function ColourEntries(cs: seq<ColorStop>, enc: AfEncoders, firstRgba: bool, id: int, n: nat): seq<seq<byte>>
    requires n <= |cs|
  {
    if n == 0 then []
    else ColourEntries(cs, enc, firstRgba, id, n - 1) + ColourEntry(cs, enc, n - 1, firstRgba && n - 1 == 0, id + n - 1)
  }

  lemma ColourEntriesStep(cs: seq<ColorStop>, enc: AfEncoders, firstRgba: bool, id: int, n: nat)
    requires n < |cs|
    ensures ColourEntries(cs, enc, firstRgba, id, n + 1)
         == ColourEntries(cs, enc, firstRgba, id, n) + ColourEntry(cs, enc, n, firstRgba && n == 0, id + n)
  {
  }

  /** 0xB1 'sloC', the colour count, then the colour entries. */
  function ColsChunks(cs: seq<ColorStop>, enc: AfEncoders, firstRgba: bool, id: int): seq<seq<byte>>
  {
    [COLS, LE32(|cs|)] + ColourEntries(cs, enc, firstRgba, id, |cs|)
  }

  /** The chunks of one gradient, its ids starting at id. */
  function GradientChunks(p: Palette, enc: AfEncoders, first: bool, firstRgba: bool, id: int): seq<seq<byte>>
  {
    FillHead(first, id) + PosnChunks(p.Colours, enc) + ColsChunks(p.Colours, enc, firstRgba, id + 2)
  }

  /** The number of colours in the first n gradients. */
  function ColourCount(ps: seq<Palette>, n: nat): nat
    requires n <= |ps|
  {
    if n == 0 then 0 else ColourCount(ps, n - 1) + |ps[n - 1].Colours|
  }

  /** `currentPaletteId` when gradient n starts: two ids per gradient and one per colour
      before it. */
  function IdBefore(ps: seq<Palette>, n: nat): nat
    requires n <= |ps|
  {
    2 * n + ColourCount(ps, n)
  }

  /** The chunks of the first n gradients: gradient k is the first of the file when k is 0,
      and carries the first colour entry when no colour came before it. */
  function GradientsChunks(ps: seq<Palette>, enc: AfEncoders, n: nat): seq<seq<byte>>
    requires n <= |ps|
  {
    if n == 0 then []
    else
      GradientsChunks(ps, enc, n - 1)
      + GradientChunks(ps[n - 1], enc, n - 1 == 0, ColourCount(ps, n - 1) == 0, IdBefore(ps, n - 1))
  }

  lemma GradientsChunksStep(ps: seq<Palette>, enc: AfEncoders, n: nat)
    requires n < |ps|
    ensures GradientsChunks(ps, enc, n + 1)
         == GradientsChunks(ps, enc, n) + GradientChunks(ps[n], enc, n == 0, ColourCount(ps, n) == 0, IdBefore(ps, n))
  {
  }

  /** The `stringToBytes` blocks of the names of the first n gradients. */
  function NameStrings(ps: seq<Palette>, enc: AfEncoders, n: nat): (r: seq<seq<byte>>)
    requires n <= |ps|
    ensures |r| == n
  {
    if n == 0 then [] else NameStrings(ps, enc, n - 1) + [StringToBytes(enc, ps[n - 1].Name)]
  }

  /** `nameBlockSize` after n names. */
  function NamesSize(ps: seq<Palette>, enc: AfEncoders, n: nat): nat
    requires n <= |ps|
  {
    if n == 0 then 0 else NamesSize(ps, enc, n - 1) + 4 + |Utf8(enc, ps[n - 1].Name)|
  }

  /** The 'PaNV' block: a marker, 'VNaP', the block size, the count, the names, and the
      end-of-data marker. */
  function NamesChunks(ps: seq<Palette>, enc: AfEncoders): seq<seq<byte>>
  {
    [NAMES_MARK, PANV, LE32(NamesSize(ps, enc, |ps|)), LE32(|ps|)] + NameStrings(ps, enc, |ps|) + [END_MARK]
  }

  function FooterStart(): (r: seq<seq<byte>>)
    ensures |r| == 5
  {
    [FT4, LE32(0), LE32(0), DATESTAMP, LE32(0)]
  }

  /** File size and body size (footer placeholders 5 and 6). */
  function FooterSizes(z: Sizes): (r: seq<seq<byte>>)
    ensures |r| == 2
  {
    [LE64(z.file), LE64(z.body)]
  }

  function FooterMiddle(): (r: seq<seq<byte>>)
    ensures |r| == 9
  {
    [LE32(0), LE32(0), LE32(1), LE32(0), LE32(0x38), LE32(0x100_0000), LE32(0), LE32(0x48), LE32(0)]
  }

  /** Two more body sizes (footer placeholders 16 and 17). */
  function FooterBodySizes(z: Sizes): (r: seq<seq<byte>>)
    ensures |r| == 2
  {
    [LE64(z.body), LE64(z.body)]
  }

  /** The two zero checksum slots (footer chunks 18 and 20) and the store name. */
  function FooterEnd(): (r: seq<seq<byte>>)
    ensures |r| == 5
  {
    [LE32(0), CHECKSUM_GAP, LE32(0), STORE_NAME_LEN, SWATCHES_DAT]
  }

  /** The 23 chunks of the footer. */
  function FooterChunks(z: Sizes): (r: seq<seq<byte>>)
    ensures |r| == 23
  {
    FooterStart() + FooterSizes(z) + FooterMiddle() + FooterBodySizes(z) + FooterEnd()
  }

  /** Everything between the header and the footer. */
  function BodyChunks(pd: PaletteData, enc: AfEncoders): seq<seq<byte>>
  {
    GradientsChunks(pd.Palettes, enc, |pd.Palettes|) + NamesChunks(pd.Palettes, enc)
  }

  /** The content a palette file stages. */
  function ContentOf(pd: PaletteData, enc: AfEncoders): Content
  {
    Content(StringToBytes(enc, pd.Name), |pd.Palettes|, BodyChunks(pd, enc))
  }

  /** The chunk list, with the size fields holding z. */
  function Chunks(ct: Content, z: Sizes): seq<seq<byte>> {
    HeaderChunks(ct, z) + ct.body + FooterChunks(z)
  }

  /* ---------- where things land once the chunks are concatenated ---------- */

  lemma Slices4(a: seq<byte>, b: seq<byte>, c: seq<byte>, d: seq<byte>)
    requires |a| == 16 && |b| == 32
    ensures var x := a + b + c + d;
      |x| == 48 + |c| + |d| && x[..4] == a[..4] && x[4..8] == a[4..8]
      && x[16..24] == b[..8] && x[24..32] == b[8..16] && x[32..40] == b[16..24]
  {
  }

  /** The bytes of the header, piece by piece. */
  lemma HeaderFlat(ct: Content, z: Sizes)
    ensures Flatten(HeaderChunks(ct, z))
      == Flatten(HeaderStart()) + Flatten(HeaderSizes(z)) + Flatten(HeaderMiddle()) + Flatten(HeaderName(ct))
  {
    var a, b, c, d := HeaderStart(), HeaderSizes(z), HeaderMiddle(), HeaderName(ct);
    FlattenAppend(a + b + c, d);
    FlattenAppend(a + b, c);
    FlattenAppend(a, b);
  }

  lemma HeaderPieces(ct: Content, z: Sizes)
    ensures Flatten(HeaderStart()) == MAGIC + LE32(11) + SWTH + INF
    ensures Flatten(HeaderSizes(z)) == LE64(z.withoutFooter) + LE64(z.file) + LE64(z.body) + LE64(0)
    ensures |Flatten(HeaderMiddle())| == 49
    ensures |Flatten(HeaderName(ct))| == 9 + |ct.nameBlock|
  {
    Flatten5(MAGIC, LE32(11), SWTH, INF, []);
    Flatten5(LE64(z.withoutFooter), LE64(z.file), LE64(z.body), LE64(0), []);
    var c1, c2 := [DATESTAMP, LE32(0), LE32(2), LE32(2), PROT], [LE32(3), FIL, FIL_TAIL, PALV, PALV_TAIL];
    assert HeaderMiddle() == c1 + c2 + [PLCN];
    FlattenAppend(c1 + c2, [PLCN]);
    FlattenAppend(c1, c2);
    Flatten5(DATESTAMP, LE32(0), LE32(2), LE32(2), PROT);
    Flatten5(LE32(3), FIL, FIL_TAIL, PALV, PALV_TAIL);
    Flatten5(PLCN, [], [], [], []);
    Flatten5(ct.nameBlock, B1PALV, LE32(ct.count), [], []);
  }

  /** The header takes 106 bytes plus the name block; its size fields sit at 16, 24 and 32. */
  lemma HeaderLayout(ct: Content, z: Sizes)
    ensures var h := Flatten(HeaderChunks(ct, z));
      && |h| == 106 + |ct.nameBlock|
      && h[..4] == MAGIC && h[4..8] == LE32(11)
      && h[16..24] == LE64(z.withoutFooter) && h[24..32] == LE64(z.file) && h[32..40] == LE64(z.body)
  {
    HeaderFlat(ct, z);
    HeaderPieces(ct, z);
    var a, b := MAGIC + LE32(11) + SWTH + INF, LE64(z.withoutFooter) + LE64(z.file) + LE64(z.body) + LE64(0);
    Slices4(a, b, Flatten(HeaderMiddle()), Flatten(HeaderName(ct)));
    assert a[..4] == MAGIC && a[4..8] == LE32(11);
    assert b[..8] == LE64(z.withoutFooter) && b[8..16] == LE64(z.file) && b[16..24] == LE64(z.body);
  }

  lemma Slices5(a: seq<byte>, b: seq<byte>, c: seq<byte>, d: seq<byte>, e: seq<byte>)
    requires |a| == 20 && |b| == 16 && |c| == 36 && |d| == 16 && |e| == 27
    ensures var x := a + b + c + d + e;
      |x| == 115 && x[..4] == a[..4] && x[20..28] == b[..8] && x[28..36] == b[8..]
      && x[72..80] == d[..8] && x[80..88] == d[8..]
      && x[88..92] == e[..4] && x[97..101] == e[9..13] && x[103..] == e[15..]
  {
  }

  lemma FooterFlat(z: Sizes)
    ensures Flatten(FooterChunks(z)) == Flatten(FooterStart()) + Flatten(FooterSizes(z))
      + Flatten(FooterMiddle()) + Flatten(FooterBodySizes(z)) + Flatten(FooterEnd())
  {
    var a, b, c, d, e := FooterStart(), FooterSizes(z), FooterMiddle(), FooterBodySizes(z), FooterEnd();
    FlattenAppend(a + b + c + d, e);
    FlattenAppend(a + b + c, d);
    FlattenAppend(a + b, c);
    FlattenAppend(a, b);
  }

  lemma FooterPieces(z: Sizes)
    ensures Flatten(FooterStart()) == FT4 + LE32(0) + LE32(0) + DATESTAMP + LE32(0)
    ensures Flatten(FooterSizes(z)) == LE64(z.file) + LE64(z.body)
    ensures |Flatten(FooterMiddle())| == 36
    ensures Flatten(FooterBodySizes(z)) == LE64(z.body) + LE64(z.body)
    ensures Flatten(FooterEnd()) == LE32(0) + CHECKSUM_GAP + LE32(0) + STORE_NAME_LEN + SWATCHES_DAT
  {
    Flatten5(FT4, LE32(0), LE32(0), DATESTAMP, LE32(0));
    Flatten5(LE64(z.file), LE64(z.body), [], [], []);
    var c1, c2 := [LE32(0), LE32(0), LE32(1), LE32(0), LE32(0x38)], [LE32(0x100_0000), LE32(0), LE32(0x48), LE32(0)];
    assert FooterMiddle() == c1 + c2;
    FlattenAppend(c1, c2);
    Flatten5(LE32(0), LE32(0), LE32(1), LE32(0), LE32(0x38));
    Flatten5(LE32(0x100_0000), LE32(0), LE32(0x48), LE32(0), []);
    Flatten5(LE64(z.body), LE64(z.body), [], [], []);
    Flatten5(LE32(0), CHECKSUM_GAP, LE32(0), STORE_NAME_LEN, SWATCHES_DAT);
  }

  /** The footer takes 115 bytes: the file size at 20, the body size at 28, 72 and 80, and
      the zero checksum slots at 88 and 97. */
  lemma FooterLayout(z: Sizes)
    ensures var f := Flatten(FooterChunks(z));
      && |f| == FOOTER_SIZE && f[..4] == FT4
      && f[20..28] == LE64(z.file) && f[28..36] == LE64(z.body)
      && f[72..80] == LE64(z.body) && f[80..88] == LE64(z.body)
      && f[CHECKSUM1..CHECKSUM1 + 4] == [0, 0, 0, 0] && f[CHECKSUM2..CHECKSUM2 + 4] == [0, 0, 0, 0]
      && f[103..] == SWATCHES_DAT
  {
    FooterFlat(z);
    FooterPieces(z);
    var a, b := FT4 + LE32(0) + LE32(0) + DATESTAMP + LE32(0), LE64(z.file) + LE64(z.body);
    var d, e := LE64(z.body) + LE64(z.body), LE32(0) + CHECKSUM_GAP + LE32(0) + STORE_NAME_LEN + SWATCHES_DAT;
    Slices5(a, b, Flatten(FooterMiddle()), d, e);
    assert a[..4] == FT4;
    assert b[..8] == LE64(z.file) && b[8..] == LE64(z.body);
    assert d[..8] == LE64(z.body) && d[8..] == LE64(z.body);
    assert LE32(0) == [0, 0, 0, 0];
    assert e[..4] == LE32(0) && e[9..13] == LE32(0) && e[15..] == SWATCHES_DAT;
  }

  /** The chunks concatenated: header, body, footer. */
  lemma ChunksLayout(ct: Content, z: Sizes)
    ensures var m := Flatten(Chunks(ct, z));
      && m == Flatten(HeaderChunks(ct, z)) + Flatten(ct.body) + Flatten(FooterChunks(z))
      && TotalLength(Chunks(ct, z)) == |m| == 221 + |ct.nameBlock| + |Flatten(ct.body)|
  {
    var h, b, f := HeaderChunks(ct, z), ct.body, FooterChunks(z);
    FlattenAppend(h + b, f);
    FlattenAppend(h, b);
    FlattenLength(h + b + f);
    HeaderLayout(ct, z);
    FooterLayout(z);
  }

  /** Filling in the sizes changes the header only at its placeholders 4, 5 and 6. */
  lemma HeaderChunksAt(ct: Content, z: Sizes)
    ensures var h, h0 := HeaderChunks(ct, z), HeaderChunks(ct, Unpatched);
      forall k :: 0 <= k < 22 ==>
        h[k] == (if k == 4 then LE64(z.withoutFooter) else if k == 5 then LE64(z.file)
                 else if k == 6 then LE64(z.body) else h0[k])
  {
  }

  /** Filling in the sizes changes the footer only at its placeholders 5, 6, 16 and 17. */
  lemma FooterChunksAt(z: Sizes)
    ensures var f, f0 := FooterChunks(z), FooterChunks(Unpatched);
      forall k :: 0 <= k < 23 ==>
        f[k] == (if k == 5 then LE64(z.file) else if k == 6 || k == 16 || k == 17 then LE64(z.body) else f0[k])
  {
  }

  /** The chunk list with its size fields filled in differs from the one staged with zero
      placeholders exactly at the placeholders the writer records, n being the chunk count:
      chunks 6, n - 17, n - 7 and n - 6 take the body size, chunk 4 the file size less the
      footer, chunks 5 and n - 18 the file size. */
  lemma SizesPatched(ct: Content, fs: int, fileIdx: seq<nat>, minusFooterIdx: seq<nat>, bodyIdx: seq<nat>)
    requires var n := |Chunks(ct, Unpatched)|;
      fileIdx == [5, n - 18] && minusFooterIdx == [4] && bodyIdx == [6, n - 17, n - 7, n - 6]
    ensures var b0, b := Chunks(ct, Unpatched), Chunks(ct, SizesFor(fs));
      && |b| == |b0| >= 45
      && forall k :: 0 <= k < |b0| ==>
           b[k] == (if k in bodyIdx then LE64(fs - (FOOTER_SIZE + HEADER_SIZE))
                    else if k in minusFooterIdx then LE64(fs - FOOTER_SIZE)
                    else if k in fileIdx then LE64(fs)
                    else b0[k])
  {
    var z := SizesFor(fs);
    var h0, h, f0, f := HeaderChunks(ct, Unpatched), HeaderChunks(ct, z), FooterChunks(Unpatched), FooterChunks(z);
    var b0, b := Chunks(ct, Unpatched), Chunks(ct, z);
    var n, m := |b0|, |ct.body|;
    assert b0 == h0 + ct.body + f0 && b == h + ct.body + f;
    HeaderChunksAt(ct, z);
    FooterChunksAt(z);
    forall k | 0 <= k < n
      ensures b[k] == (if k in bodyIdx then LE64(fs - (FOOTER_SIZE + HEADER_SIZE))
                       else if k in minusFooterIdx then LE64(fs - FOOTER_SIZE)
                       else if k in fileIdx then LE64(fs)
                       else b0[k])
    {
      if k < 22 {
        assert b[k] == h[k] && b0[k] == h0[k];
      } else if k < 22 + m {
        assert b[k] == ct.body[k - 22] == b0[k];
      } else {
        assert b[k] == f[k - 22 - m] && b0[k] == f0[k - 22 - m];
      }
    }
  }

  /** `fileSize`: the sum of the lengths of all chunks, summed before the size fields are
      filled in. */
  function FileSize(ct: Content): nat {
    TotalLength(Chunks(ct, Unpatched))
  }

  /** Filling in the size fields changes no length, and the file is at least a header and a
      footer long. */
  lemma FileSizeFixed(ct: Content, z: Sizes)
    ensures TotalLength(Chunks(ct, z)) == |Flatten(Chunks(ct, z))| == FileSize(ct)
    ensures FileSize(ct) >= HEADER_SIZE + FOOTER_SIZE + 26 + |ct.nameBlock|
  {
    ChunksLayout(ct, z);
    ChunksLayout(ct, Unpatched);
  }

  /** c stored byte by byte into m from offset at. */
  function StoreAt(m: seq<byte>, at: nat, c: seq<byte>): (r: seq<byte>)
    requires at + |c| <= |m|
    ensures |r| == |m|
    ensures forall k :: 0 <= k < |m| ==> r[k] == if at <= k < at + |c| then c[k - at] else m[k]
    decreases |c|
  {
    if c == [] then m else StoreAt(m[at := c[0]], at + 1, c[1..])
  }

  /** The eight checksum stores: the four CRC bytes at footer bytes 88 and 97. */
  function WithChecksum(m: seq<byte>, c: seq<byte>): (r: seq<byte>)
    requires |m| >= FOOTER_SIZE && |c| == 4
    ensures |r| == |m|
  {
    var s := |m| - FOOTER_SIZE;
    StoreAt(StoreAt(m, s + CHECKSUM1, c), s + CHECKSUM2, c)
  }

  /** The chunks with their size fields filled in, concatenated (`mergedBuffer` before the
      checksum is stored). */
  function Merged(ct: Content): (m: seq<byte>)
    ensures |m| == FileSize(ct) >= HEADER_SIZE + FOOTER_SIZE + 26 + |ct.nameBlock|
  {
    var fs := FileSize(ct);
    FileSizeFixed(ct, SizesFor(fs));
    Flatten(Chunks(ct, SizesFor(fs)))
  }

  /** The CRC-32 of the body size bytes from offset 76. */
  function BodyCrc(m: seq<byte>): bv32
    requires |m| >= HEADER_SIZE + FOOTER_SIZE
  {
    Crc32Of(m[CRC_OFFSET..CRC_OFFSET + |m| - (FOOTER_SIZE + HEADER_SIZE)])
  }

  /** m with the CRC-32 of its body stored in both checksum slots. */
  function Checksummed(m: seq<byte>): (r: seq<byte>)
    requires |m| >= HEADER_SIZE + FOOTER_SIZE
    ensures |r| == |m|
  {
    WithChecksum(m, LE32(BodyCrc(m) as int))
  }

  /** The merged chunks of ct with the checksum stored. */
  function AfFile(ct: Content): (r: seq<byte>)
    ensures |r| == FileSize(ct)
  {
    Checksummed(Merged(ct))
  }

  /** The file `buildAffinityPaletteBuffer` returns. */
  function AfPaletteFile(pd: PaletteData, enc: AfEncoders): (r: seq<byte>)
  {
    AfFile(ContentOf(pd, enc))
  }

  /** The checksum stores put c at footer bytes 88 and 97 and leave every other byte alone. */
  lemma WithChecksumBytes(m: seq<byte>, c: seq<byte>)
    requires |m| >= FOOTER_SIZE && |c| == 4
    ensures var r, f := WithChecksum(m, c), |m| - FOOTER_SIZE;
      && r[f + CHECKSUM1..f + CHECKSUM1 + 4] == c && r[f + CHECKSUM2..f + CHECKSUM2 + 4] == c
      && (forall k :: 0 <= k < |m| && !(f + CHECKSUM1 <= k < f + CHECKSUM1 + 4) && !(f + CHECKSUM2 <= k < f + CHECKSUM2 + 4)
            ==> r[k] == m[k])
  {
  }

  /** The merged chunks, split into the header, the body and the footer. */
  lemma MergedLayout(ct: Content)
    ensures var m, fs, z := Merged(ct), FileSize(ct), SizesFor(FileSize(ct));
      && m[..106 + |ct.nameBlock|] == Flatten(HeaderChunks(ct, z))
      && m[fs - FOOTER_SIZE..] == Flatten(FooterChunks(z))
  {
    var fs := FileSize(ct);
    var z := SizesFor(fs);
    ChunksLayout(ct, z);
    HeaderLayout(ct, z);
    FooterLayout(z);
  }

  /** The checksum stores leave the header's first 40 bytes alone. */
  lemma KeepsHeader(m: seq<byte>, c: seq<byte>)
    requires |m| >= HEADER_SIZE + FOOTER_SIZE && |c| == 4
    ensures var r := WithChecksum(m, c);
      && r[..4] == m[..4] && r[4..8] == m[4..8]
      && r[16..24] == m[16..24] && r[24..32] == m[24..32] && r[32..40] == m[32..40]
  {
    WithChecksumBytes(m, c);
  }

  /** The checksum stores leave the footer's size fields and store name alone. */
  lemma KeepsFooter(m: seq<byte>, c: seq<byte>, fs: int, file: seq<byte>, body: seq<byte>)
    requires |m| == fs >= HEADER_SIZE + FOOTER_SIZE && |c| == 4
    requires var s := fs - FOOTER_SIZE;
      && m[s..s + 4] == FT4 && m[s + 20..s + 28] == file
      && m[s + 28..s + 36] == body && m[s + 72..s + 80] == body && m[s + 80..s + 88] == body
      && m[s + 103..] == SWATCHES_DAT
    ensures var r, s := WithChecksum(m, c), fs - FOOTER_SIZE;
      && r[s..s + 4] == FT4 && r[s + 20..s + 28] == file
      && r[s + 28..s + 36] == body && r[s + 72..s + 80] == body && r[s + 80..s + 88] == body
      && r[s + 103..] == SWATCHES_DAT
  {
    WithChecksumBytes(m, c);
  }

  /** The checksum stores fill both slots with c and leave everything before the first slot
      alone. */
  lemma KeepsWindow(m: seq<byte>, c: seq<byte>)
    requires |m| >= HEADER_SIZE + FOOTER_SIZE && |c| == 4
    ensures var r, s := WithChecksum(m, c), |m| - FOOTER_SIZE;
      && r[s + CHECKSUM1..s + CHECKSUM1 + 4] == c && r[s + CHECKSUM2..s + CHECKSUM2 + 4] == c
      && r[..s + CHECKSUM1] == m[..s + CHECKSUM1]
  {
    var s := |m| - FOOTER_SIZE;
    var m1 := StoreAt(m, s + CHECKSUM1, c);
    assert m1[..s + CHECKSUM1] == m[..s + CHECKSUM1];
    assert StoreAt(m1, s + CHECKSUM2, c)[..s + CHECKSUM1] == m1[..s + CHECKSUM1];
    assert m1[s + CHECKSUM1..s + CHECKSUM1 + 4] == c;
  }

  /** A buffer that agrees with m up to the first checksum slot has the same body CRC. */
  lemma WindowCrc(m: seq<byte>, r: seq<byte>)
    requires |r| == |m| >= HEADER_SIZE + FOOTER_SIZE
    requires r[..|m| - FOOTER_SIZE + CHECKSUM1] == m[..|m| - FOOTER_SIZE + CHECKSUM1]
    ensures BodyCrc(m) == Crc32Of(r[CRC_OFFSET..|r| - FOOTER_SIZE - 4])
  {
    var p := m[..|m| - FOOTER_SIZE + CHECKSUM1];
    assert m[CRC_OFFSET..CRC_OFFSET + |m| - (FOOTER_SIZE + HEADER_SIZE)] == p[CRC_OFFSET..|m| - FOOTER_SIZE - 4];
    assert r[CRC_OFFSET..|r| - FOOTER_SIZE - 4] == p[CRC_OFFSET..|m| - FOOTER_SIZE - 4];
  }

  /** The first checksum slot holds the CRC-32 of the window from offset 76 of the stored
      buffer itself. */
  lemma ChecksumSlot(m: seq<byte>)
    requires |m| >= HEADER_SIZE + FOOTER_SIZE
    ensures var r, s := Checksummed(m), |m| - FOOTER_SIZE;
      r[s + CHECKSUM1..s + CHECKSUM1 + 4] == LE32(Crc32Of(r[CRC_OFFSET..s - 4]) as int)
  {
    var s, crc := |m| - FOOTER_SIZE, BodyCrc(m);
    var c := LE32(crc as int);
    var r := WithChecksum(m, c);
    assert r == Checksummed(m);
    KeepsWindow(m, c);
    WindowCrc(m, r);
    assert crc == Crc32Of(r[CRC_OFFSET..s - 4]);
    assert r[s + CHECKSUM1..s + CHECKSUM1 + 4] == c;
  }

  /** Both checksum slots hold the same four bytes: the CRC-32 of the body size bytes from
      offset 76 of the buffer itself, a window that ends four bytes before the footer and so
      does not cover the slots. */
  lemma ChecksumSlots(m: seq<byte>)
    requires |m| >= HEADER_SIZE + FOOTER_SIZE
    ensures var r, s := Checksummed(m), |m| - FOOTER_SIZE;
      && CRC_OFFSET + (|m| - (FOOTER_SIZE + HEADER_SIZE)) == s - 4
      && r[s + CHECKSUM1..s + CHECKSUM1 + 4] == LE32(Crc32Of(r[CRC_OFFSET..s - 4]) as int)
      && r[s + CHECKSUM2..s + CHECKSUM2 + 4] == r[s + CHECKSUM1..s + CHECKSUM1 + 4]
  {
    ChecksumSlot(m);
    KeepsWindow(m, LE32(BodyCrc(m) as int));
  }

  /** The header fields of the merged chunks, before the checksum is stored. */
  lemma MergedHeaderFields(ct: Content)
    ensures var m, fs := Merged(ct), FileSize(ct);
      && m[..4] == MAGIC && m[4..8] == LE32(11)
      && m[16..24] == LE64(fs - FOOTER_SIZE) && m[24..32] == LE64(fs)
      && m[32..40] == LE64(fs - (FOOTER_SIZE + HEADER_SIZE))
  {
    var m, fs := Merged(ct), FileSize(ct);
    var z := SizesFor(fs);
    var h := Flatten(HeaderChunks(ct, z));
    MergedLayout(ct);
    HeaderLayout(ct, z);
    PrefixSlices(m, h, 40);
  }

  /** The footer fields of the merged chunks, before the checksum is stored. */
  lemma MergedFooterFields(ct: Content)
    ensures var m, fs := Merged(ct), FileSize(ct);
      var s, body := fs - FOOTER_SIZE, LE64(fs - (FOOTER_SIZE + HEADER_SIZE));
      && m[s..s + 4] == FT4 && m[s + 20..s + 28] == LE64(fs)
      && m[s + 28..s + 36] == body && m[s + 72..s + 80] == body && m[s + 80..s + 88] == body
      && m[s + 103..] == SWATCHES_DAT
  {
    var m, fs := Merged(ct), FileSize(ct);
    var z := SizesFor(fs);
    MergedLayout(ct);
    FooterLayout(z);
    SuffixSlices(m, Flatten(FooterChunks(z)));
    assert z.file == fs && z.body == fs - (FOOTER_SIZE + HEADER_SIZE);
  }

  /** Both checksum slots of the merged chunks hold zero. */
  lemma MergedSlotsZero(ct: Content)
    ensures var m, fs := Merged(ct), FileSize(ct);
      var s := fs - FOOTER_SIZE;
      && m[s + CHECKSUM1..s + CHECKSUM1 + 4] == [0, 0, 0, 0] && m[s + CHECKSUM2..s + CHECKSUM2 + 4] == [0, 0, 0, 0]
  {
    var m, fs := Merged(ct), FileSize(ct);
    var z := SizesFor(fs);
    MergedLayout(ct);
    FooterLayout(z);
    SuffixSlices(m, Flatten(FooterChunks(z)));
  }

  /** The first n bytes of m are h, so the header slices of m are those of h. */
  lemma PrefixSlices(m: seq<byte>, h: seq<byte>, n: nat)
    requires 40 <= n <= |h| <= |m| && m[..|h|] == h
    ensures m[..4] == h[..4] && m[4..8] == h[4..8]
    ensures m[16..24] == h[16..24] && m[24..32] == h[24..32] && m[32..40] == h[32..40]
  {
    assert forall k :: 0 <= k < 40 ==> m[k] == m[..|h|][k];
  }

  /** The last 115 bytes of m are f, so the footer slices of m are those of f. */
  lemma SuffixSlices(m: seq<byte>, f: seq<byte>)
    requires |f| == FOOTER_SIZE <= |m| && m[|m| - FOOTER_SIZE..] == f
    ensures var s := |m| - FOOTER_SIZE;
      && m[s..s + 4] == f[..4] && m[s + 20..s + 28] == f[20..28]
      && m[s + 28..s + 36] == f[28..36] && m[s + 72..s + 80] == f[72..80] && m[s + 80..s + 88] == f[80..88]
      && m[s + CHECKSUM1..s + CHECKSUM1 + 4] == f[CHECKSUM1..CHECKSUM1 + 4]
      && m[s + CHECKSUM2..s + CHECKSUM2 + 4] == f[CHECKSUM2..CHECKSUM2 + 4]
      && m[s + 103..] == f[103..]
  {
    var s := |m| - FOOTER_SIZE;
    assert forall k :: 0 <= k < FOOTER_SIZE ==> m[s + k] == f[k];
  }

  /** The header of the file: the magic, version 11, then the file size less the footer at
      16, the file size at 24 and the body size (file size less 195) at 32, each as eight
      little-endian bytes. */
  lemma AfHeaderFields(ct: Content)
    ensures var r, fs := AfFile(ct), FileSize(ct);
      && r[..4] == MAGIC && r[4..8] == LE32(11)
      && r[16..24] == LE64(fs - FOOTER_SIZE) && r[24..32] == LE64(fs)
      && r[32..40] == LE64(fs - (FOOTER_SIZE + HEADER_SIZE))
  {
    var m := Merged(ct);
    MergedHeaderFields(ct);
    KeepsHeader(m, LE32(BodyCrc(m) as int));
  }

  /** The footer is the last 115 bytes: '#FT4', the file size at 20, the body size at 28,
      72 and 80, and the store name 'Swatches.dat' at the end. */
  lemma AfFooterFields(ct: Content)
    ensures var r, fs := AfFile(ct), FileSize(ct);
      var s, body := fs - FOOTER_SIZE, LE64(fs - (FOOTER_SIZE + HEADER_SIZE));
      && r[s..s + 4] == FT4 && r[s + 20..s + 28] == LE64(fs)
      && r[s + 28..s + 36] == body && r[s + 72..s + 80] == body && r[s + 80..s + 88] == body
      && r[s + 103..] == SWATCHES_DAT
  {
    var m, fs := Merged(ct), FileSize(ct);
    MergedFooterFields(ct);
    KeepsFooter(m, LE32(BodyCrc(m) as int), fs, LE64(fs), LE64(fs - (FOOTER_SIZE + HEADER_SIZE)));
  }

  /** Apart from the two checksum slots, which held zero, the file is the merged chunks. */
  lemma AfOnlySlotsChange(ct: Content)
    ensures var r, m, fs := AfFile(ct), Merged(ct), FileSize(ct);
      var s := fs - FOOTER_SIZE;
      && m[s + CHECKSUM1..s + CHECKSUM1 + 4] == [0, 0, 0, 0] && m[s + CHECKSUM2..s + CHECKSUM2 + 4] == [0, 0, 0, 0]
      && (forall k :: 0 <= k < fs && !(s + CHECKSUM1 <= k < s + CHECKSUM1 + 4) && !(s + CHECKSUM2 <= k < s + CHECKSUM2 + 4)
            ==> r[k] == m[k])
  {
    var m := Merged(ct);
    MergedSlotsZero(ct);
    WithChecksumBytes(m, LE32(BodyCrc(m) as int));
  }
}
