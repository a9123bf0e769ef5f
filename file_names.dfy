/** The file-name helpers of the loader: the extension that picks a parser, and the base name
    that names a palette (load_gradients.js, `getFileExtension`, `getFileNameWithoutExtension`). */
module FileNames {
  import opened Js

  const DOT: Unit := 0x2E

  /** One unit lower-cased; only the ASCII capitals change. */
  function LowerUnit(u: Unit): (r: Unit)
    ensures r == DOT <==> u == DOT
    ensures 0x41 <= u <= 0x5A ==> r == u + 0x20
    ensures !(0x41 <= u <= 0x5A) ==> r == u
  {
    if 0x41 <= u <= 0x5A then u + 0x20 else u
  }

  /** `s.toLowerCase()` on the ASCII capitals. */
  function Lower(s: JsString): (r: JsString)
    ensures |r| == |s|
    ensures forall i :: 0 <= i < |s| ==> r[i] == LowerUnit(s[i])
  {
    seq(|s|, i requires 0 <= i < |s| => LowerUnit(s[i]))
  }

  /** What follows the last dot of the name, as written; empty when there is no dot. */
  function RawExtension(name: JsString): JsString {
    var d := LastIndexOf(name, DOT);
    if d < 0 then [] else name[d + 1..]
  }

  /** `getFileExtension`: the part after the last dot, lower-cased, or "" when the name
      has no dot. It never holds a dot itself. */
  function FileExtension(name: JsString): (r: JsString)
    ensures DOT !in name ==> r == []
    ensures forall i :: 0 <= i < |r| ==> r[i] != DOT
    ensures r != [] ==> |r| < |name|
  {
    Lower(RawExtension(name))
  }

  /** `getFileNameWithoutExtension`: the name up to its last dot; the whole name exactly when
      it has no dot. */
  function FileNameWithoutExtension(name: JsString): (r: JsString)
    ensures r <= name
    ensures r == name <==> DOT !in name
  {
    var d := LastIndexOf(name, DOT);
    name[..if d < 0 then |name| else d]
  }

  /** A name with a dot is its base name, the last dot and its extension as written, and
      the extension the loader dispatches on is that last part lower-cased. */
  lemma SplitAtLastDot(name: JsString)
    requires DOT in name
    ensures name == FileNameWithoutExtension(name) + [DOT] + RawExtension(name)
    ensures FileExtension(name) == Lower(RawExtension(name))
  {
    var d := LastIndexOf(name, DOT);
    assert d >= 0 by {
      var k :| 0 <= k < |name| && name[k] == DOT;
    }
    assert name == name[..d] + [name[d]] + name[d + 1..];
  }

  /** Joining a base name and a dot-free extension with a dot and splitting the result again
      gives back the base name and the lower-cased extension, whatever dots the base holds. */
  lemma JoinThenSplit(base: JsString, ext: JsString)
    requires DOT !in ext
    ensures FileNameWithoutExtension(base + [DOT] + ext) == base
    ensures FileExtension(base + [DOT] + ext) == Lower(ext)
  {
    var name := base + [DOT] + ext;
    var d := LastIndexOf(name, DOT);
    assert name[|base|] == DOT;
    assert d == |base|;
    assert name[..d] == base;
    assert name[d + 1..] == ext;
  }
}
