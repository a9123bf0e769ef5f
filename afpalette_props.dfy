/** What the gradient and name blocks of the Affinity palette writer promise: the midpoint
    shift, the first-occurrence rules for the verbose entries, the single id counter, the
    stop counts and the size of the names block. */
module AfPaletteProps {
  import opened Wrappers
  import opened Bytes
  import opened Seqs
  import opened Colour
  import opened AfPalette

  /** Stop j contributes its position and then the midpoint of stop j + 1; the last stop
      contributes 0.5 instead. */
  lemma {:induction false} PositionEntriesAt(cs: seq<ColorStop>, enc: AfEncoders, n: nat)
    requires n <= |cs|
    ensures var r := PositionEntries(cs, enc, n);
      forall j :: 0 <= j < n ==>
        && r[2 * j] == F64(enc, Some(cs[j].Position))
        && r[2 * j + 1] == (if j < |cs| - 1 then F64(enc, cs[j + 1].Midpoint) else F64(enc, Some(1.0 / 2.0)))
  {
    if n > 0 {
      PositionEntriesAt(cs, enc, n - 1);
      var prev, last := PositionEntries(cs, enc, n - 1), PositionEntry(cs, enc, n - 1);
      Floats64Two(enc, Some(cs[n - 1].Position), ShiftedMidpoint(cs, n - 1));
      assert PositionEntries(cs, enc, n) == prev + last;
    }
  }

  /** 'Posn' and 0xB1 'sloC' both carry the stop count of the gradient, and the position block
      holds two entries per stop. */
  lemma GradientCounts(p: Palette, enc: AfEncoders, first: bool, firstRgba: bool, id: int)
    ensures var r, h, n := GradientChunks(p, enc, first, firstRgba, id), |FillHead(first, id)|, |p.Colours|;
      && r[h] == POSN && r[h + 1] == LE32(n)
      && r[h + 2 + 2 * n] == COLS && r[h + 3 + 2 * n] == LE32(n)
  {
  }

  /** A colour entry ends with a 0 byte exactly when another colour of the same gradient
      follows it; the last entry ends with its 4-byte alpha. */
  lemma ColourEntryEnd(cs: seq<ColorStop>, enc: AfEncoders, j: nat, verbose: bool, id: int)
    requires j < |cs|
    ensures var r := ColourEntry(cs, enc, j, verbose, id);
      r[|r| - 1] == [0] <==> j < |cs| - 1
  {
    var c := cs[j];
    Floats32Four(enc, Some(c.Red), Some(c.Green), Some(c.Blue), c.Alpha);
  }

  /** The entry of colour j is the verbose one exactly when `firstRGBA` still holds, that is
      when it is colour 0 of a gradient that opens with the first colour of the file. */
  lemma ColourEntryVerbose(cs: seq<ColorStop>, enc: AfEncoders, j: nat, verbose: bool, id: int)
    requires j < |cs|
    ensures var r := ColourEntry(cs, enc, j, verbose, id);
      (r[2] == [0] && r[4] == VERBOSE_MARK) <==> verbose
  {
  }

  lemma {:induction false} ColourCountMonotone(ps: seq<Palette>, m: nat, n: nat)
    requires m <= n <= |ps|
    ensures ColourCount(ps, m) <= ColourCount(ps, n)
    decreases n - m
  {
    if m < n {
      ColourCountMonotone(ps, m, n - 1);
    }
  }

  /** No colour precedes gradient k exactly when every gradient before it is empty. */
  lemma {:induction false} NoColourBefore(ps: seq<Palette>, k: nat)
    requires k <= |ps|
    ensures ColourCount(ps, k) == 0 <==> forall i :: 0 <= i < k ==> |ps[i].Colours| == 0
  {
    if k > 0 {
      NoColourBefore(ps, k - 1);
    }
  }

  /** Only one colour entry of the whole file is verbose: colour j of gradient k is written
      verbose when no colour came before it, and that holds of one (k, j) at most. */
  lemma VerboseColourOnce(ps: seq<Palette>, k1: nat, j1: nat, k2: nat, j2: nat)
    requires k1 < |ps| && j1 < |ps[k1].Colours| && k2 < |ps| && j2 < |ps[k2].Colours|
    requires ColourCount(ps, k1) == 0 && j1 == 0
    requires ColourCount(ps, k2) == 0 && j2 == 0
    ensures k1 == k2
  {
    if k1 < k2 {
      ColourCountMonotone(ps, k1 + 1, k2);
    } else if k2 < k1 {
      ColourCountMonotone(ps, k2 + 1, k1);
    }
  }

  /** The ids the writer hands out for gradient k, in push order: the fill, the gradient, and
      one per colour. */
  function GradientIds(ps: seq<Palette>, k: nat): (r: seq<int>)
    requires k < |ps|
    ensures |r| == 2 + |ps[k].Colours|
  {
    var id := IdBefore(ps, k);
    [id, id + 1] + seq(|ps[k].Colours|, j => id + 2 + j)
  }

  /** The ids of the first n gradients, in push order. */
  function Ids(ps: seq<Palette>, n: nat): seq<int>
    requires n <= |ps|
  {
    if n == 0 then [] else Ids(ps, n - 1) + GradientIds(ps, n - 1)
  }

  /** `currentPaletteId` is one counter: the ids in push order are 0, 1, 2, ... with none
      skipped or repeated, and the counter ends at their number. */
  lemma {:induction false} IdsConsecutive(ps: seq<Palette>, n: nat)
    requires n <= |ps|
    ensures |Ids(ps, n)| == IdBefore(ps, n)
    ensures forall i :: 0 <= i < |Ids(ps, n)| ==> Ids(ps, n)[i] == i
  {
    if n > 0 {
      IdsConsecutive(ps, n - 1);
      var prev, g := Ids(ps, n - 1), GradientIds(ps, n - 1);
      assert Ids(ps, n) == prev + g;
      forall i | 0 <= i < |prev + g|
        ensures (prev + g)[i] == i
      {
        if i >= |prev| {
          assert (prev + g)[i] == g[i - |prev|];
        }
      }
    }
  }

  lemma {:induction false} GradientsChunksPrefix(ps: seq<Palette>, enc: AfEncoders, k: nat, n: nat)
    requires k <= n <= |ps|
    ensures GradientsChunks(ps, enc, k) <= GradientsChunks(ps, enc, n)
    decreases n - k
  {
    if k < n {
      var front, g := GradientsChunks(ps, enc, n - 1),
        GradientChunks(ps[n - 1], enc, n - 1 == 0, ColourCount(ps, n - 1) == 0, IdBefore(ps, n - 1));
      GradientsChunksPrefix(ps, enc, k, n - 1);
      GradientsChunksStep(ps, enc, n - 1);
      assert GradientsChunks(ps, enc, n) == front + g;
      PrefixGrows(GradientsChunks(ps, enc, k), front, g);
    }
  }

  /** Gradient k sits in the gradients block right after the gradients before it, written with
      the verbose fill head exactly when k is 0, the verbose colour exactly when no colour came
      before it, and its ids starting at IdBefore(ps, k). */
  lemma GradientAt(ps: seq<Palette>, enc: AfEncoders, k: nat)
    requires k < |ps|
    ensures GradientsChunks(ps, enc, k) + GradientChunks(ps[k], enc, k == 0, ColourCount(ps, k) == 0, IdBefore(ps, k))
         <= GradientsChunks(ps, enc, |ps|)
  {
    GradientsChunksPrefix(ps, enc, k + 1, |ps|);
    GradientsChunksStep(ps, enc, k);
  }

  /** The 'PaNV' size field is the number of bytes of the name blocks that follow it. */
  lemma {:induction false} NamesSizeIsLength(ps: seq<Palette>, enc: AfEncoders, n: nat)
    requires n <= |ps|
    ensures NamesSize(ps, enc, n) == TotalLength(NameStrings(ps, enc, n))
  {
    if n > 0 {
      NamesSizeIsLength(ps, enc, n - 1);
      TotalLengthAppend(NameStrings(ps, enc, n - 1), [StringToBytes(enc, ps[n - 1].Name)]);
      assert TotalLength([StringToBytes(enc, ps[n - 1].Name)]) == |StringToBytes(enc, ps[n - 1].Name)| by {
        assert [StringToBytes(enc, ps[n - 1].Name)][..0] == [];
      }
    }
  }
}
