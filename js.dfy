/** The JavaScript values the source manipulates: UTF-16 strings, Math.round, String(n), trim. */
module Js {

  /** A UTF-16 code unit; a JavaScript string is a sequence of them (lone surrogates included). */
  type Unit = u: int | 0 <= u < 0x10000

  type JsString = seq<Unit>

  /** The exceptions the modelled code can throw: `TypeError` from calling a method of
      `undefined`, `RangeError` from a `DataView` read past the end of its buffer. */
  datatype Exception = TypeError | RangeError

  /** `Number.prototype.toFixed(digits)`, borrowed from the host. */
  datatype NumberFormat = NumberFormat(toFixed: (real, nat) -> JsString)

  /** An ASCII literal of the source, as code units. */
  function S(s: string): (r: JsString)
    ensures |r| == |s|
  {
    seq(|s|, i requires 0 <= i < |s| => (s[i] as int) % 0x10000)
  }

  /** `Math.round`: the nearest integer, a half rounded towards +infinity. */
  function Round(x: real): (r: int)
    ensures r as real - 1.0 / 2.0 <= x < r as real + 1.0 / 2.0
  {
    (x + 1.0 / 2.0).Floor
  }

  /** JavaScript `a % b` on integers: the remainder takes the sign of the dividend. */
  function TruncRem(a: int, b: int): (r: int)
    requires b > 0
    ensures a >= 0 ==> 0 <= r < b
    ensures a < 0 ==> -b < r <= 0
  {
    if a >= 0 then a % b else -((-a) % b)
  }

  predicate IsDigit(u: Unit) {
    48 <= u <= 57
  }

  /** The decimal digits of n, most significant first, without leading zeros. */
  function Digits(n: nat): (r: JsString)
    ensures |r| >= 1 && (forall i :: 0 <= i < |r| ==> IsDigit(r[i]))
    ensures n > 0 ==> r[0] != 48
  {
    if n < 10 then [48 + n] else Digits(n / 10) + [48 + n % 10]
  }

  /** `String(n)` for an integer n. */
  function DecimalString(n: int): (r: JsString)
    ensures |r| >= 1
    ensures r[0] == 45 <==> n < 0
  {
    if n < 0 then [45] + Digits(-n) else Digits(n)
  }

  /** The value of a run of decimal digits, as `parseInt(s, 10)` reads it. */
  function DigitsValue(s: JsString): nat
    requires forall i :: 0 <= i < |s| ==> IsDigit(s[i])
  {
    if s == [] then 0
    else
      var last := s[|s| - 1];
      assert IsDigit(last);
      DigitsValue(s[..|s| - 1]) * 10 + (last - 48)
  }

  lemma {:induction false} DigitsRoundTrip(n: nat)
    ensures DigitsValue(Digits(n)) == n
  {
    if n >= 10 {
      DigitsRoundTrip(n / 10);
      var d := Digits(n / 10) + [48 + n % 10];
      assert d[..|d| - 1] == Digits(n / 10);
    }
  }

  /** Two integers print alike only if they are equal, so numbered ids and labels never collide. */
  lemma DecimalStringInjective(a: int, b: int)
    requires DecimalString(a) == DecimalString(b)
    ensures a == b
  {
    if a < 0 {
      assert DecimalString(a)[1..] == Digits(-a);
      assert DecimalString(b)[1..] == Digits(-b);
      DigitsRoundTrip(-a);
      DigitsRoundTrip(-b);
    } else {
      DigitsRoundTrip(a);
      DigitsRoundTrip(b);
    }
  }

  /** The white space and line terminators that `String.prototype.trim` removes. */
  predicate IsWhiteSpace(u: Unit) {
    (9 <= u <= 13) || u == 32 || u == 0xA0 || u == 0x1680 || (0x2000 <= u <= 0x200A)
    || u == 0x2028 || u == 0x2029 || u == 0x202F || u == 0x205F || u == 0x3000 || u == 0xFEFF
  }

  /** The first index at or after i whose unit is not white space, or |s|. */
  function SkipSpaceFrom(s: JsString, i: nat): (r: nat)
    requires i <= |s|
    ensures i <= r <= |s|
    decreases |s| - i
  {
    if i == |s| || !IsWhiteSpace(s[i]) then i else SkipSpaceFrom(s, i + 1)
  }

  /** The end of s[lo..j] once its trailing white space is dropped. */
  function SkipSpaceBack(s: JsString, lo: nat, j: nat): (r: nat)
    requires lo <= j <= |s|
    ensures lo <= r <= j
    decreases j
  {
    if j == lo || !IsWhiteSpace(s[j - 1]) then j else SkipSpaceBack(s, lo, j - 1)
  }

  /** `s.trim()`: s without its leading and trailing white space. */
  function Trim(s: JsString): (r: JsString)
    ensures |r| <= |s|
  {
    var a := SkipSpaceFrom(s, 0);
    s[a..SkipSpaceBack(s, a, |s|)]
  }

  lemma {:induction false} SkipSpaceFromSpec(s: JsString, i: nat)
    requires i <= |s|
    ensures forall k :: i <= k < SkipSpaceFrom(s, i) ==> IsWhiteSpace(s[k])
    ensures SkipSpaceFrom(s, i) < |s| ==> !IsWhiteSpace(s[SkipSpaceFrom(s, i)])
    decreases |s| - i
  {
    if i < |s| && IsWhiteSpace(s[i]) {
      SkipSpaceFromSpec(s, i + 1);
    }
  }

  lemma {:induction false} SkipSpaceBackSpec(s: JsString, lo: nat, j: nat)
    requires lo <= j <= |s|
    ensures forall k :: SkipSpaceBack(s, lo, j) <= k < j ==> IsWhiteSpace(s[k])
    ensures SkipSpaceBack(s, lo, j) > lo ==> !IsWhiteSpace(s[SkipSpaceBack(s, lo, j) - 1])
    decreases j
  {
    if j > lo && IsWhiteSpace(s[j - 1]) {
      SkipSpaceBackSpec(s, lo, j - 1);
    }
  }

  /** What trim removes is white space on either side of a piece of s that it keeps whole,
      and that piece neither starts nor ends with white space. */
  lemma TrimKeepsMiddle(s: JsString)
    ensures exists a, b :: (0 <= a <= b <= |s| && Trim(s) == s[a..b]
      && (forall i :: 0 <= i < a ==> IsWhiteSpace(s[i]))
      && (forall i :: b <= i < |s| ==> IsWhiteSpace(s[i])))
    ensures Trim(s) != [] ==> !IsWhiteSpace(Trim(s)[0]) && !IsWhiteSpace(Trim(s)[|Trim(s)| - 1])
  {
    var a := SkipSpaceFrom(s, 0);
    var b := SkipSpaceBack(s, a, |s|);
    SkipSpaceFromSpec(s, 0);
    SkipSpaceBackSpec(s, a, |s|);
    assert Trim(s) == s[a..b];
    if a < b {
      assert Trim(s)[0] == s[a];
      assert Trim(s)[|Trim(s)| - 1] == s[b - 1];
    }
  }

  /** The position of the last occurrence of u in s, or -1 (`s.lastIndexOf(u)`). */
  function LastIndexOf(s: JsString, u: Unit): (r: int)
    ensures -1 <= r < |s|
    ensures r >= 0 ==> s[r] == u
    ensures forall i :: r < i < |s| ==> s[i] != u
  {
    if s == [] then -1
    else if s[|s| - 1] == u then |s| - 1
    else LastIndexOf(s[..|s| - 1], u)
  }
}
