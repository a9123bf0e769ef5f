/** Flattening and joining of sequences, the two ways the writers assemble their output. */
module Seqs {

  /** The pieces concatenated in order (`Array.prototype.flat`, or copying chunks one after another). */
  function Flatten<T>(ss: seq<seq<T>>): seq<T>
  {
    if ss == [] then [] else Flatten(ss[..|ss| - 1]) + ss[|ss| - 1]
  }

  /** The sum of the lengths of the pieces. */
  function TotalLength<T>(ss: seq<seq<T>>): nat
  {
    if ss == [] then 0 else TotalLength(ss[..|ss| - 1]) + |ss[|ss| - 1]|
  }

  /** Where piece k starts once the pieces are concatenated. */
  function OffsetOf<T>(ss: seq<seq<T>>, k: nat): nat
    requires k <= |ss|
  {
    TotalLength(ss[..k])
  }

  lemma {:induction false} FlattenLength<T>(ss: seq<seq<T>>)
    ensures |Flatten(ss)| == TotalLength(ss)
  {
    if ss != [] {
      FlattenLength(ss[..|ss| - 1]);
    }
  }

  lemma {:induction false} FlattenAppend<T>(a: seq<seq<T>>, b: seq<seq<T>>)
    ensures Flatten(a + b) == Flatten(a) + Flatten(b)
    decreases |b|
  {
    if b == [] {
      assert a + b == a;
    } else {
      var b', last := b[..|b| - 1], b[|b| - 1];
      assert (a + b)[..|a + b| - 1] == a + b' && (a + b)[|a + b| - 1] == last;
      calc {
        Flatten(a + b);
        Flatten(a + b') + last;
        { FlattenAppend(a, b'); }
        Flatten(a) + Flatten(b') + last;
      }
    }
  }

  lemma {:induction false} TotalLengthAppend<T>(a: seq<seq<T>>, b: seq<seq<T>>)
    ensures TotalLength(a + b) == TotalLength(a) + TotalLength(b)
    decreases |b|
  {
    FlattenAppend(a, b);
    FlattenLength(a + b);
    FlattenLength(a);
    FlattenLength(b);
  }

  /** Piece k of the pieces sits, unchanged, at OffsetOf(ss, k) of their concatenation. */
  lemma FlattenPiece<T>(ss: seq<seq<T>>, k: nat)
    requires k < |ss|
    ensures OffsetOf(ss, k) + |ss[k]| <= |Flatten(ss)|
    ensures Flatten(ss)[OffsetOf(ss, k)..OffsetOf(ss, k) + |ss[k]|] == ss[k]
  {
    assert ss == ss[..k] + [ss[k]] + ss[k + 1..];
    FlattenAppend(ss[..k] + [ss[k]], ss[k + 1..]);
    FlattenAppend(ss[..k], [ss[k]]);
    assert Flatten([ss[k]]) == ss[k] by {
      assert [ss[k]][..0] == [];
    }
    FlattenLength(ss[..k]);
  }

  /** Appending is associative. */
  lemma AppendAssoc<T>(a: seq<T>, b: seq<T>, c: seq<T>)
    ensures a + (b + c) == (a + b) + c
  {
  }

  /** A prefix of a sequence stays a prefix when more is appended. */
  lemma PrefixGrows<T>(a: seq<T>, b: seq<T>, c: seq<T>)
    requires a <= b
    ensures a <= b + c
  {
    assert (b + c)[..|a|] == b[..|a|];
  }

  /** The concatenation of a short list of pieces, written out. */
  lemma Flatten5<T>(a: seq<T>, b: seq<T>, c: seq<T>, d: seq<T>, e: seq<T>)
    ensures Flatten([a]) == a
    ensures Flatten([a, b]) == a + b
    ensures Flatten([a, b, c]) == a + b + c
    ensures Flatten([a, b, c, d]) == a + b + c + d
    ensures Flatten([a, b, c, d, e]) == a + b + c + d + e
  {
    assert [a, b, c, d, e][..4] == [a, b, c, d];
    assert [a, b, c, d][..3] == [a, b, c];
    assert [a, b, c][..2] == [a, b];
    assert [a, b][..1] == [a];
    assert [a][..0] == [];
    assert Flatten([a]) == a;
    assert Flatten([a, b]) == a + b;
    assert Flatten([a, b, c]) == a + b + c;
    assert Flatten([a, b, c, d]) == a + b + c + d;
  }

  /** `parts.join(sep)`: the parts with one separator between neighbours. */
  function Join<T>(parts: seq<seq<T>>, sep: seq<T>): seq<T>
  {
    if |parts| == 0 then []
    else if |parts| == 1 then parts[0]
    else Join(parts[..|parts| - 1], sep) + sep + parts[|parts| - 1]
  }

  /** Each part followed by its own terminator. */
  function Terminated<T>(parts: seq<seq<T>>, term: seq<T>): seq<T>
  {
    if parts == [] then [] else Terminated(parts[..|parts| - 1], term) + parts[|parts| - 1] + term
  }

  /** `lines.join("\n") + "\n"` writes every line followed by its own terminator. */
  lemma {:induction false} JoinThenTerminate<T>(parts: seq<seq<T>>, sep: seq<T>)
    requires parts != []
    ensures Join(parts, sep) + sep == Terminated(parts, sep)
  {
    if |parts| > 1 {
      JoinThenTerminate(parts[..|parts| - 1], sep);
    } else {
      assert parts[..0] == [];
    }
  }

  lemma {:induction false} TerminatedAppend<T>(a: seq<seq<T>>, b: seq<seq<T>>, term: seq<T>)
    ensures Terminated(a + b, term) == Terminated(a, term) + Terminated(b, term)
    decreases |b|
  {
    if b == [] {
      assert a + b == a;
    } else {
      var b' := b[..|b| - 1];
      assert (a + b)[..|a + b| - 1] == a + b';
      TerminatedAppend(a, b', term);
    }
  }
}
