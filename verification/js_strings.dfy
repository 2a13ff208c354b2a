/**
 ECMAScript strings as sequences of UTF-16 code units, and the few string
 primitives the modelled program calls: `endsWith`, `includes`,
 `toLowerCase` (ASCII part only) and the decimal rendering of a
 non-negative integral Number.
 */
module JsStrings {
  import opened Wrappers

  /** One UTF-16 code unit, the element type of an ECMAScript string. */
  type CodeUnit = u: int | 0 <= u < 0x1_0000

  type JsString = seq<CodeUnit>

  function Unit(c: char): CodeUnit
    requires c as int < 0x1_0000
  {
    c as int
  }

  /** The code units of a source-text literal without characters beyond U+FFFF. */
  function Lit(s: string): JsString
    requires forall c | c in s :: c as int < 0x1_0000
  {
    seq(|s|, i requires 0 <= i < |s| => assert s[i] in s; Unit(s[i]))
  }

  /** `String.prototype.endsWith`. */
  predicate EndsWith<T(==)>(s: seq<T>, suffix: seq<T>) {
    |suffix| <= |s| && s[|s| - |suffix|..] == suffix
  }

  predicate OccursAt<T(==)>(s: seq<T>, t: seq<T>, i: int) {
    0 <= i <= |s| - |t| && s[i..i + |t|] == t
  }

  /** `String.prototype.includes`. */
  predicate Includes<T(==)>(s: seq<T>, t: seq<T>) {
    exists i | 0 <= i <= |s| - |t| :: OccursAt(s, t, i)
  }

  lemma NotIncludesWithoutFirst<T>(s: seq<T>, t: seq<T>)
    requires |t| > 0 && t[0] !in s
    ensures !Includes(s, t)
  {
  }

  /** The bytes before and after the first `sep`, if there is one. */
  function SplitFirst<T(==)>(bs: seq<T>, sep: T): Option<(seq<T>, seq<T>)> {
    if bs == [] then None
    else if bs[0] == sep then Some(([], bs[1..]))
    else
      match SplitFirst(bs[1..], sep)
      case None => None
      case Some((before, after)) => Some(([bs[0]] + before, after))
  }

  lemma {:induction false} SplitFirstAt<T>(before: seq<T>, sep: T, after: seq<T>)
    requires sep !in before
    ensures SplitFirst(before + [sep] + after, sep) == Some((before, after))
  {
    if before != [] {
      SplitFirstAt(before[1..], sep, after);
      assert (before + [sep] + after)[1..] == before[1..] + [sep] + after;
      assert before == [before[0]] + before[1..];
    }
  }

  // ---------------------------------------------------------------------
  // ASCII letters and `toLowerCase`

  predicate IsAsciiUpper(u: CodeUnit) { 'A' as int <= u <= 'Z' as int }

  predicate IsAsciiLower(u: CodeUnit) { 'a' as int <= u <= 'z' as int }

  predicate IsDigit(u: CodeUnit) { '0' as int <= u <= '9' as int }

  function LowerUnit(u: CodeUnit): CodeUnit {
    if IsAsciiUpper(u) then u + 32 else u
  }

  /** `String.prototype.toLowerCase`, restricted to the ASCII letters. */
  function ToLowerCase(s: JsString): (r: JsString)
    ensures |r| == |s|
  {
    seq(|s|, i requires 0 <= i < |s| => LowerUnit(s[i]))
  }

  /** Two strings that differ at most in the case of ASCII letters. */
  predicate SameIgnoringCase(a: JsString, b: JsString) {
    |a| == |b| && forall i | 0 <= i < |a| :: LowerUnit(a[i]) == LowerUnit(b[i])
  }

  /** Lower-casing forgets exactly the case of ASCII letters. */
  lemma ToLowerCaseIgnoresCase(a: JsString, b: JsString)
    ensures SameIgnoringCase(a, b) <==> ToLowerCase(a) == ToLowerCase(b)
  {
    if ToLowerCase(a) == ToLowerCase(b) {
      forall i | 0 <= i < |a|
        ensures LowerUnit(a[i]) == LowerUnit(b[i])
      {
        assert ToLowerCase(a)[i] == ToLowerCase(b)[i];
      }
    }
  }

  // ---------------------------------------------------------------------
  // Number::toString for the non-negative integral Numbers below 10^21,
  // which ECMAScript renders as plain decimal digits

  function DigitValue(u: CodeUnit): nat
    requires IsDigit(u)
  {
    u - '0' as int
  }

  function DigitUnit(d: nat): (u: CodeUnit)
    requires d < 10
    ensures IsDigit(u) && DigitValue(u) == d
  {
    '0' as int + d
  }

  predicate AllDigits(s: JsString) {
    forall i | 0 <= i < |s| :: IsDigit(s[i])
  }

  /** The value of a string of decimal digits, most significant first. */
  function DecimalValue(s: JsString): nat
    requires AllDigits(s)
  {
    if s == [] then 0
    else DecimalValue(s[..|s| - 1]) * 10 + DigitValue(s[|s| - 1])
  }

  /** The shortest decimal rendering of `n`: `String(n)` for such a Number. */
  function DecimalString(n: nat): (r: JsString)
    ensures |r| > 0 && AllDigits(r)
    ensures |r| > 1 ==> r[0] != '0' as int
  {
    if n < 10 then [DigitUnit(n)]
    else DecimalString(n / 10) + [DigitUnit(n % 10)]
  }

  /** Reading the digits back gives the number that was rendered. */
  lemma {:induction false} DecimalStringValue(n: nat)
    ensures DecimalValue(DecimalString(n)) == n
  {
    if n >= 10 {
      var s := DecimalString(n);
      assert s[..|s| - 1] == DecimalString(n / 10);
      DecimalStringValue(n / 10);
    }
  }

  /** Distinct numbers render as distinct strings. */
  lemma DecimalStringInjective(m: nat, n: nat)
    ensures DecimalString(m) == DecimalString(n) <==> m == n
  {
    if DecimalString(m) == DecimalString(n) {
      DecimalStringValue(m);
      DecimalStringValue(n);
    }
  }
}
