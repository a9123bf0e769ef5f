/** `buildAffinityPaletteBuffer` of palette-js/write_afpalette.js as the source runs it: the
    chunk list grows by pushes, the size fields are backpatched through the index lists kept
    while pushing, the chunks are copied into one buffer and the CRC-32 is stored into it.
    Each step is proved against the functions of module AfPalette. */
module AfPaletteBuild {
  import opened Wrappers
  import opened Js
  import opened Bytes
  import opened Seqs
  import opened Colour
  import opened Crc32
  import opened AfPalette

  /** `stringToBytes(s)`: the length word and then the UTF-8 bytes, copied into a fresh buffer. */
  method EncodeString(enc: AfEncoders, s: JsString) returns (r: seq<byte>)
    ensures r == StringToBytes(enc, s)
  {
    var text := Utf8(enc, s);
    var lengthBytes := LE32(|text|);
    var buf := new byte[|text| + 4];
    var at := 0;
    var i := 0;
    while i < 4
      invariant 0 <= i <= 4 && at == i
      invariant buf[..at] == lengthBytes[..i]
    {
      buf[at] := lengthBytes[i];
      at := at + 1;
      i := i + 1;
    }
    i := 0;
    while i < |text|
      invariant 0 <= i <= |text| && at == 4 + i
      invariant buf[..at] == lengthBytes + text[..i]
    {
      buf[at] := text[i];
      at := at + 1;
      i := i + 1;
    }
    assert text[..i] == text;
    r := buf[..];
  }

  /** The position loop: each stop's position, then the midpoint of the next stop, or 0.5
      after the last one. */
  method PushPositions(buffers: seq<seq<byte>>, cs: seq<ColorStop>, enc: AfEncoders) returns (out: seq<seq<byte>>)
    ensures out == buffers + PositionEntries(cs, enc, |cs|)
  {
    out := buffers;
    var j := 0;
    while j < |cs|
      invariant 0 <= j <= |cs|
      invariant out == buffers + PositionEntries(cs, enc, j)
    {
      ghost var prev := out;
      out := out + [F64(enc, Some(cs[j].Position))];
      if j == |cs| - 1 {
        out := out + [F64(enc, Some(1.0 / 2.0))];
      } else {
        out := out + [F64(enc, cs[j + 1].Midpoint)];
      }
      Floats64Two(enc, Some(cs[j].Position), ShiftedMidpoint(cs, j));
      Regroup2(prev, [F64(enc, Some(cs[j].Position))], [F64(enc, ShiftedMidpoint(cs, j))]);
      j := j + 1;
    }
  }

  /** One colour entry: the entry type and id, verbose or compressed, then the colour
      record, and the 0 separator unless the colour is the last. */
  method PushColour(buffers: seq<seq<byte>>, cs: seq<ColorStop>, enc: AfEncoders, j: nat, verbose: bool, id: int)
    returns (out: seq<seq<byte>>)
    requires j < |cs|
    ensures out == buffers + ColourEntry(cs, enc, j, verbose, id)
  {
    var c := cs[j];
    ghost var kind := if verbose then [LE32(id), [0], RGBA, VERBOSE_MARK] else [LE32(id), [1], RGBA];
    ghost var gap: seq<seq<byte>> := if j != |cs| - 1 then [[0]] else [];
    out := buffers + [[1]];
    if verbose {
      out := out + [LE32(id), [0], RGBA, VERBOSE_MARK];
    } else {
      out := out + [LE32(id), [1], RGBA];
    }
    out := out + [COLD];
    var channels := [F32(enc, Some(c.Red)), F32(enc, Some(c.Green)), F32(enc, Some(c.Blue)), F32(enc, c.Alpha)];
    out := out + channels;
    Floats32Four(enc, Some(c.Red), Some(c.Green), Some(c.Blue), c.Alpha);
    if j != |cs| - 1 {
      out := out + [[0]];
    } else {
      assert out == out + gap;
    }
    Regroup5(buffers, [[1]], kind, [COLD], channels, gap);
  }

  /** The colour loop: one entry per colour, numbered from id; the entry is verbose while
      firstRgba holds, which the first entry clears. */
  method PushColours(buffers: seq<seq<byte>>, cs: seq<ColorStop>, enc: AfEncoders, firstRgba: bool, id: int)
    returns (out: seq<seq<byte>>, stillFirst: bool, nextId: int)
    ensures out == buffers + ColourEntries(cs, enc, firstRgba, id, |cs|)
    ensures stillFirst == (firstRgba && |cs| == 0) && nextId == id + |cs|
  {
    out, stillFirst, nextId := buffers, firstRgba, id;
    var j := 0;
    while j < |cs|
      invariant 0 <= j <= |cs|
      invariant out == buffers + ColourEntries(cs, enc, firstRgba, id, j)
      invariant stillFirst == (firstRgba && j == 0) && nextId == id + j
    {
      ghost var prev := out;
      out := PushColour(out, cs, enc, j, stillFirst, nextId);
      ColoursStep(buffers, cs, enc, firstRgba, id, j, stillFirst, nextId, prev, out);
      nextId := nextId + 1;
      stillFirst := false;
      j := j + 1;
    }
  }

  lemma ColoursStep(buffers: seq<seq<byte>>, cs: seq<ColorStop>, enc: AfEncoders, firstRgba: bool, id: int,
                    j: nat, verbose: bool, entryId: int, prev: seq<seq<byte>>, next: seq<seq<byte>>)
    requires j < |cs| && verbose == (firstRgba && j == 0) && entryId == id + j
    requires prev == buffers + ColourEntries(cs, enc, firstRgba, id, j)
    requires next == prev + ColourEntry(cs, enc, j, verbose, entryId)
    ensures next == buffers + ColourEntries(cs, enc, firstRgba, id, j + 1)
  {
    Regroup2(buffers, ColourEntries(cs, enc, firstRgba, id, j), ColourEntry(cs, enc, j, verbose, entryId));
    ColourEntriesStep(cs, enc, firstRgba, id, j);
  }

  lemma Regroup2<T>(x: seq<T>, a: seq<T>, b: seq<T>)
    ensures (x + a) + b == x + (a + b)
  {
  }

  lemma Regroup5<T>(x: seq<T>, a: seq<T>, b: seq<T>, c: seq<T>, d: seq<T>, e: seq<T>)
    ensures ((((x + a) + b) + c) + d) + e == x + ((((a + b) + c) + d) + e)
  {
  }

  /** The fill and gradient entries, verbose for the first gradient; ids id and id + 1. */
  method PushFillHead(buffers: seq<seq<byte>>, first: bool, id: int) returns (out: seq<seq<byte>>, nextId: int)
    ensures out == buffers + FillHead(first, id) && nextId == id + 2
  {
    nextId := id;
    if first {
      out := buffers + [[1], LE32(nextId)];
      nextId := nextId + 1;
      out := out + [[0], FIRST_FILL, LE32(nextId)];
      nextId := nextId + 1;
      out := out + [[0], GRAD, VERBOSE_MARK, [0xA4]];
    } else {
      out := buffers + [LE32(0x100_0000), LE32(nextId)];
      nextId := nextId + 1;
      out := out + [[1], LATER_FILL, LE32(nextId)];
      nextId := nextId + 1;
      out := out + [[1], GRAD, [0xA4]];
    }
  }

  /** One turn of the palette loop: the fill and gradient entries, the positions and the
      colours of one gradient. */
  method PushGradient(buffers: seq<seq<byte>>, p: Palette, enc: AfEncoders, first: bool, firstRgba: bool, id: int)
    returns (out: seq<seq<byte>>, stillFirst: bool, nextId: int)
    ensures out == buffers + GradientChunks(p, enc, first, firstRgba, id)
    ensures stillFirst == (firstRgba && |p.Colours| == 0) && nextId == id + 2 + |p.Colours|
  {
    var cs := p.Colours;
    out, nextId := PushFillHead(buffers, first, id);
    out := out + [POSN, LE32(|cs|)];
    out := PushPositions(out, cs, enc);
    out := out + [COLS, LE32(|cs|)];
    out, stillFirst, nextId := PushColours(out, cs, enc, firstRgba, nextId);
    GradientRegroup(buffers, FillHead(first, id), [POSN, LE32(|cs|)], PositionEntries(cs, enc, |cs|),
      [COLS, LE32(|cs|)], ColourEntries(cs, enc, firstRgba, id + 2, |cs|));
  }

  /** The palette loop: the first gradient is the first of the file, and the colour entries
      stay verbose until a gradient with a colour has been written. */
  method PushGradients(buffers: seq<seq<byte>>, ps: seq<Palette>, enc: AfEncoders) returns (out: seq<seq<byte>>)
    ensures out == buffers + GradientsChunks(ps, enc, |ps|)
  {
    out := buffers;
    var firstRgba, firstPalette, id := true, true, 0;
    var i := 0;
    while i < |ps|
      invariant 0 <= i <= |ps|
      invariant GradientsPushed(buffers, ps, enc, i, out, firstPalette, firstRgba, id)
    {
      out, firstRgba, id := GradientTurn(buffers, ps, enc, i, out, firstPalette, firstRgba, id);
      firstPalette := false;
      i := i + 1;
    }
  }

  /** The state of the palette loop after i gradients: their chunks pushed, the first-gradient
      and first-colour flags, and the next entry id. */
  predicate GradientsPushed(buffers: seq<seq<byte>>, ps: seq<Palette>, enc: AfEncoders, i: nat,
                            out: seq<seq<byte>>, firstPalette: bool, firstRgba: bool, id: int)
    requires i <= |ps|
  {
    && out == buffers + GradientsChunks(ps, enc, i)
    && firstPalette == (i == 0) && firstRgba == (ColourCount(ps, i) == 0) && id == IdBefore(ps, i)
  }

  /** The body of the palette loop: gradient i extends the chunks, the colour count and the
      entry ids. */
  method GradientTurn(buffers: seq<seq<byte>>, ps: seq<Palette>, enc: AfEncoders, i: nat,
                      out: seq<seq<byte>>, firstPalette: bool, firstRgba: bool, id: int)
    returns (out': seq<seq<byte>>, firstRgba': bool, id': int)
    requires i < |ps| && GradientsPushed(buffers, ps, enc, i, out, firstPalette, firstRgba, id)
    ensures GradientsPushed(buffers, ps, enc, i + 1, out', false, firstRgba', id')
  {
    out', firstRgba', id' := PushGradient(out, ps[i], enc, firstPalette, firstRgba, id);
    GradientsStep(buffers, ps, enc, i, out, out');
  }

  /** One turn of the palette loop extends the chunks and the counts by gradient i. */
  lemma GradientsStep(buffers: seq<seq<byte>>, ps: seq<Palette>, enc: AfEncoders, i: nat,
                      before: seq<seq<byte>>, after: seq<seq<byte>>)
    requires i < |ps|
    requires before == buffers + GradientsChunks(ps, enc, i)
    requires after == before + GradientChunks(ps[i], enc, i == 0, ColourCount(ps, i) == 0, IdBefore(ps, i))
    ensures after == buffers + GradientsChunks(ps, enc, i + 1)
    ensures ColourCount(ps, i + 1) == ColourCount(ps, i) + |ps[i].Colours|
    ensures IdBefore(ps, i + 1) == IdBefore(ps, i) + 2 + |ps[i].Colours|
  {
    Regroup2(buffers, GradientsChunks(ps, enc, i), GradientChunks(ps[i], enc, i == 0, ColourCount(ps, i) == 0, IdBefore(ps, i)));
    GradientsChunksStep(ps, enc, i);
  }

  lemma GradientRegroup<T>(x: seq<T>, a: seq<T>, b: seq<T>, c: seq<T>, d: seq<T>, e: seq<T>)
    ensures ((((x + a) + b) + c) + d) + e == x + ((a + (b + c)) + (d + e))
  {
  }

  /** The 'PaNV' names block: the names are encoded first, to learn the block size. */
  method PushNames(buffers: seq<seq<byte>>, ps: seq<Palette>, enc: AfEncoders) returns (out: seq<seq<byte>>)
    ensures out == buffers + NamesChunks(ps, enc)
  {
    out := buffers + [NAMES_MARK, PANV];
    var nameArrays: seq<seq<byte>> := [];
    var nameBlockSize := 0;
    var i := 0;
    while i < |ps|
      invariant 0 <= i <= |ps|
      invariant nameArrays == NameStrings(ps, enc, i) && nameBlockSize == NamesSize(ps, enc, i)
    {
      var nameBytes := EncodeString(enc, ps[i].Name);
      nameArrays := nameArrays + [nameBytes];
      nameBlockSize := nameBlockSize + |nameBytes|;
      i := i + 1;
    }
    out := out + [LE32(nameBlockSize), LE32(|ps|)];
    ghost var head := out;
    i := 0;
    while i < |nameArrays|
      invariant 0 <= i <= |nameArrays|
      invariant out == head + nameArrays[..i]
    {
      out := out + [nameArrays[i]];
      i := i + 1;
    }
    assert nameArrays[..i] == nameArrays;
    out := out + [END_MARK];
  }

  /** The chunks pushed before the palette loop, with the indices of the three size
      placeholders as the writer records them. */
  method PushHeader(nameBlock: seq<byte>, count: int)
    returns (buffers: seq<seq<byte>>, fileSizeIdx: seq<nat>, minusFooterIdx: seq<nat>, bodySizeIdx: seq<nat>)
    ensures buffers == HeaderChunks(Content(nameBlock, count, []), Unpatched)
    ensures fileSizeIdx == [5] && minusFooterIdx == [4] && bodySizeIdx == [6]
  {
    buffers := [MAGIC, LE32(11), SWTH, INF];
    buffers := buffers + [LE64(0)];
    minusFooterIdx := [|buffers| - 1];
    buffers := buffers + [LE64(0)];
    fileSizeIdx := [|buffers| - 1];
    buffers := buffers + [LE64(0)];
    bodySizeIdx := [|buffers| - 1];
    buffers := buffers + [LE64(0)];
    buffers := buffers + [DATESTAMP, LE32(0), LE32(2), LE32(2), PROT, LE32(3), FIL, FIL_TAIL, PALV, PALV_TAIL, PLCN];
    buffers := buffers + [nameBlock, B1PALV, LE32(count)];
  }

  /** The 23 footer chunks, recording the file size placeholder (footer chunk 5) and the
      body size placeholders (footer chunks 6, 16 and 17). */
  method PushFooter(buffers: seq<seq<byte>>, fileSizeIdx: seq<nat>, bodySizeIdx: seq<nat>)
    returns (out: seq<seq<byte>>, fileIdx: seq<nat>, bodyIdx: seq<nat>)
    ensures out == buffers + FooterChunks(Unpatched) && |out| == |buffers| + 23
    ensures fileIdx == fileSizeIdx + [|out| - 18]
    ensures bodyIdx == bodySizeIdx + [|out| - 17, |out| - 7, |out| - 6]
  {
    out := buffers + [FT4, LE32(0), LE32(0), DATESTAMP, LE32(0)];
    out := out + [LE64(0)];
    fileIdx := fileSizeIdx + [|out| - 1];
    out := out + [LE64(0)];
    bodyIdx := bodySizeIdx + [|out| - 1];
    out := out + [LE32(0), LE32(0), LE32(1), LE32(0), LE32(0x38), LE32(0x100_0000), LE32(0), LE32(0x48), LE32(0)];
    out := out + [LE64(0)];
    bodyIdx := bodyIdx + [|out| - 1];
    out := out + [LE64(0)];
    bodyIdx := bodyIdx + [|out| - 1];
    out := out + [LE32(0), CHECKSUM_GAP, LE32(0), STORE_NAME_LEN, SWATCHES_DAT];
  }

  /** The whole chunk list with zero size placeholders, and where the placeholders are. */
  method BuildChunkList(pd: PaletteData, enc: AfEncoders)
    returns (buffers: seq<seq<byte>>, fileSizeIdx: seq<nat>, minusFooterIdx: seq<nat>, bodySizeIdx: seq<nat>)
    ensures buffers == Chunks(ContentOf(pd, enc), Unpatched)
    ensures var n := |buffers|;
      && fileSizeIdx == [5, n - 18] && minusFooterIdx == [4] && bodySizeIdx == [6, n - 17, n - 7, n - 6]
  {
    var nameBlock := EncodeString(enc, pd.Name);
    buffers, fileSizeIdx, minusFooterIdx, bodySizeIdx := PushHeader(nameBlock, |pd.Palettes|);
    ghost var header := buffers;
    buffers := PushGradients(buffers, pd.Palettes, enc);
    buffers := PushNames(buffers, pd.Palettes, enc);
    ghost var body := buffers[|header|..];
    buffers, fileSizeIdx, bodySizeIdx := PushFooter(buffers, fileSizeIdx, bodySizeIdx);
    ChunkListShape(pd, enc, nameBlock, header, buffers);
  }

  /** The header, the gradients, the names and the footer pushed one after another make up
      the chunk list. */
  lemma ChunkListShape(pd: PaletteData, enc: AfEncoders, nameBlock: seq<byte>, header: seq<seq<byte>>, buffers: seq<seq<byte>>)
    requires nameBlock == StringToBytes(enc, pd.Name)
    requires header == HeaderChunks(Content(nameBlock, |pd.Palettes|, []), Unpatched)
    requires buffers == header + GradientsChunks(pd.Palettes, enc, |pd.Palettes|) + NamesChunks(pd.Palettes, enc)
      + FooterChunks(Unpatched)
    ensures buffers == Chunks(ContentOf(pd, enc), Unpatched)
  {
    var ct := ContentOf(pd, enc);
    assert HeaderChunks(ct, Unpatched) == header;
    Regroup2(header, GradientsChunks(pd.Palettes, enc, |pd.Palettes|), NamesChunks(pd.Palettes, enc));
  }

  /** The `fileSize` loop: the byte lengths of all chunks added up. */
  method SumLengths(buffers: seq<seq<byte>>) returns (fileSize: nat)
    ensures fileSize == TotalLength(buffers)
  {
    fileSize := 0;
    var i := 0;
    while i < |buffers|
      invariant 0 <= i <= |buffers|
      invariant fileSize == TotalLength(buffers[..i])
    {
      assert buffers[..i + 1][..i] == buffers[..i];
      fileSize := fileSize + |buffers[i]|;
      i := i + 1;
    }
    assert buffers[..i] == buffers;
  }

  /** One backpatch loop: every chunk whose index idx lists is replaced by v; the others stay. */
  method Backpatch(buffers: seq<seq<byte>>, idx: seq<nat>, v: seq<byte>) returns (out: seq<seq<byte>>)
    requires forall k :: 0 <= k < |idx| ==> idx[k] < |buffers|
    ensures |out| == |buffers|
    ensures forall k :: 0 <= k < |out| ==> out[k] == if k in idx then v else buffers[k]
  {
    out := buffers;
    var i := 0;
    while i < |idx|
      invariant 0 <= i <= |idx| && |out| == |buffers|
      invariant forall k :: 0 <= k < |out| ==> out[k] == if k in idx[..i] then v else buffers[k]
    {
      assert idx[..i + 1] == idx[..i] + [idx[i]];
      out := out[idx[i] := v];
      i := i + 1;
    }
    assert idx[..i] == idx;
  }

  /** The copy of the chunks, one byte at a time, into a fresh buffer of the summed size. */
  method MergeChunks(buffers: seq<seq<byte>>, fileSize: nat) returns (merged: array<byte>)
    requires fileSize == TotalLength(buffers)
    ensures fresh(merged) && merged[..] == Flatten(buffers)
  {
    merged := new byte[fileSize];
    var at := 0;
    var i := 0;
    while i < |buffers|
      invariant 0 <= i <= |buffers|
      invariant at == TotalLength(buffers[..i]) <= fileSize
      invariant merged[..at] == Flatten(buffers[..i])
    {
      PrefixLength(buffers, i);
      var j := 0;
      while j < |buffers[i]|
        invariant 0 <= j <= |buffers[i]|
        invariant at == TotalLength(buffers[..i]) + j
        invariant merged[..at] == Flatten(buffers[..i]) + buffers[i][..j]
      {
        merged[at] := buffers[i][j];
        at := at + 1;
        j := j + 1;
      }
      assert buffers[i][..j] == buffers[i];
      assert buffers[..i + 1][..i] == buffers[..i];
      i := i + 1;
    }
    assert buffers[..i] == buffers;
    FlattenLength(buffers);
  }

  /** The first i + 1 chunks are no longer than all of them. */
  lemma PrefixLength(buffers: seq<seq<byte>>, i: nat)
    requires i < |buffers|
    ensures TotalLength(buffers[..i + 1]) == TotalLength(buffers[..i]) + |buffers[i]| <= TotalLength(buffers)
  {
    assert buffers[..i + 1][..i] == buffers[..i];
    assert buffers == buffers[..i + 1] + buffers[i + 1..];
    TotalLengthAppend(buffers[..i + 1], buffers[i + 1..]);
  }

  /** The CRC-32 of the body stored, little-endian, at footer bytes 88 and 97. */
  method StoreChecksum(merged: array<byte>, fileSize: nat)
    requires fileSize == merged.Length >= HEADER_SIZE + FOOTER_SIZE
    modifies merged
    ensures merged[..] == Checksummed(old(merged[..]))
  {
    ghost var m := merged[..];
    var bodySize := fileSize - (FOOTER_SIZE + HEADER_SIZE);
    var crcOffset := HEADER_SIZE - 4;
    var table := BuildCrcTable();
    var crc := ComputeCrc32(merged, crcOffset, bodySize, table);
    assert crc == BodyCrc(m);
    var crcBytes := LE32(crc as int);
    var footerStart := fileSize - FOOTER_SIZE;
    merged[footerStart + 88] := crcBytes[0];
    merged[footerStart + 89] := crcBytes[1];
    merged[footerStart + 90] := crcBytes[2];
    merged[footerStart + 91] := crcBytes[3];
    merged[footerStart + 97] := crcBytes[0];
    merged[footerStart + 98] := crcBytes[1];
    merged[footerStart + 99] := crcBytes[2];
    merged[footerStart + 100] := crcBytes[3];
    ChecksumStores(m, crcBytes, merged[..]);
  }

  /** Eight single-byte stores, in the order the writer makes them, are the two checksum
      stores. */
  lemma ChecksumStores(m: seq<byte>, c: seq<byte>, r: seq<byte>)
    requires |m| >= FOOTER_SIZE && |c| == 4 && |r| == |m|
    requires var s := |m| - FOOTER_SIZE;
      forall k :: 0 <= k < |m| ==>
        r[k] == (if s + CHECKSUM1 <= k < s + CHECKSUM1 + 4 then c[k - s - CHECKSUM1]
                 else if s + CHECKSUM2 <= k < s + CHECKSUM2 + 4 then c[k - s - CHECKSUM2]
                 else m[k])
    ensures r == WithChecksum(m, c)
  {
  }

  /** The three backpatch loops: the file size, the file size less the footer and the body
      size, each written at the indices recorded for it. */
  method FillSizes(buffers: seq<seq<byte>>, fileSize: int, fileSizeIdx: seq<nat>, minusFooterIdx: seq<nat>, bodySizeIdx: seq<nat>)
    returns (out: seq<seq<byte>>)
    requires forall k :: 0 <= k < |fileSizeIdx| ==> fileSizeIdx[k] < |buffers|
    requires forall k :: 0 <= k < |minusFooterIdx| ==> minusFooterIdx[k] < |buffers|
    requires forall k :: 0 <= k < |bodySizeIdx| ==> bodySizeIdx[k] < |buffers|
    ensures |out| == |buffers|
    ensures forall k :: 0 <= k < |buffers| ==>
      out[k] == (if k in bodySizeIdx then LE64(fileSize - (FOOTER_SIZE + HEADER_SIZE))
                 else if k in minusFooterIdx then LE64(fileSize - FOOTER_SIZE)
                 else if k in fileSizeIdx then LE64(fileSize)
                 else buffers[k])
  {
    var fileSizeBuffer := LE64(fileSize);
    var fileSizeMinusFooterBuffer := LE64(fileSize - FOOTER_SIZE);
    var bodySizeBuffer := LE64(fileSize - (FOOTER_SIZE + HEADER_SIZE));
    out := Backpatch(buffers, fileSizeIdx, fileSizeBuffer);
    out := Backpatch(out, minusFooterIdx, fileSizeMinusFooterBuffer);
    out := Backpatch(out, bodySizeIdx, bodySizeBuffer);
  }

  /** The recorded placeholders all lie inside a chunk list of at least 45 chunks. */
  lemma PlaceholdersInRange(n: nat, fileIdx: seq<nat>, minusFooterIdx: seq<nat>, bodyIdx: seq<nat>)
    requires n >= 45
    requires fileIdx == [5, n - 18] && minusFooterIdx == [4] && bodyIdx == [6, n - 17, n - 7, n - 6]
    ensures forall k :: 0 <= k < |fileIdx| ==> fileIdx[k] < n
    ensures forall k :: 0 <= k < |minusFooterIdx| ==> minusFooterIdx[k] < n
    ensures forall k :: 0 <= k < |bodyIdx| ==> bodyIdx[k] < n
  {
  }

  /** Two chunk lists that agree with the same description at every index are equal. */
  lemma SameChunks(a: seq<seq<byte>>, b: seq<seq<byte>>, staged: seq<seq<byte>>,
                   fileIdx: seq<nat>, minusFooterIdx: seq<nat>, bodyIdx: seq<nat>, vf: seq<byte>, vm: seq<byte>, vb: seq<byte>)
    requires |a| == |b| == |staged|
    requires forall k :: 0 <= k < |staged| ==>
      a[k] == (if k in bodyIdx then vb else if k in minusFooterIdx then vm else if k in fileIdx then vf else staged[k])
    requires forall k :: 0 <= k < |staged| ==>
      b[k] == (if k in bodyIdx then vb else if k in minusFooterIdx then vm else if k in fileIdx then vf else staged[k])
    ensures a == b
  {
  }

  /** The middle of `buildAffinityPaletteBuffer`: add up the sizes of the staged chunks of ct
      and backpatch the size fields at the recorded placeholders. */
  method FillSizeFields(ghost ct: Content, buffers: seq<seq<byte>>,
                        fileSizeIdx: seq<nat>, minusFooterIdx: seq<nat>, bodySizeIdx: seq<nat>)
    returns (out: seq<seq<byte>>, fileSize: int)
    requires buffers == Chunks(ct, Unpatched)
    requires var n := |buffers|;
      fileSizeIdx == [5, n - 18] && minusFooterIdx == [4] && bodySizeIdx == [6, n - 17, n - 7, n - 6]
    ensures fileSize == FileSize(ct)
    ensures out == Chunks(ct, SizesFor(fileSize))
  {
    fileSize := SumLengths(buffers);
    SizesPatched(ct, fileSize, fileSizeIdx, minusFooterIdx, bodySizeIdx);
    PlaceholdersInRange(|buffers|, fileSizeIdx, minusFooterIdx, bodySizeIdx);
    out := FillSizes(buffers, fileSize, fileSizeIdx, minusFooterIdx, bodySizeIdx);
    SameChunks(out, Chunks(ct, SizesFor(fileSize)), buffers, fileSizeIdx, minusFooterIdx, bodySizeIdx,
      LE64(fileSize), LE64(fileSize - FOOTER_SIZE), LE64(fileSize - (FOOTER_SIZE + HEADER_SIZE)));
  }

  /** `buildAffinityPaletteBuffer`: stage the chunks, fill in their size fields, merge them into
      one buffer, and store the checksum. */
  method BuildAffinityPaletteBuffer(pd: PaletteData, enc: AfEncoders) returns (merged: array<byte>)
    ensures fresh(merged) && merged[..] == AfPaletteFile(pd, enc)
  {
    ghost var ct := ContentOf(pd, enc);
    var buffers, fileSizeIdx, minusFooterIdx, bodySizeIdx := BuildChunkList(pd, enc);
    var fileSize;
    buffers, fileSize := FillSizeFields(ct, buffers, fileSizeIdx, minusFooterIdx, bodySizeIdx);
    FileSizeFixed(ct, SizesFor(fileSize));
    merged := MergeChunks(buffers, fileSize);
    assert merged[..] == Merged(ct);
    StoreChecksum(merged, fileSize);
  }
}
