/**
 The two URL primitives the share link depends on: ECMAScript's
 `encodeURIComponent` (ECMA-262 section 19.2.6.5 and its abstract
 operation Encode) and the WHATWG URL Standard's `URLSearchParams`, built
 from a string with the application/x-www-form-urlencoded parser and
 queried with `get`.
 */
module Uri {
  import opened Wrappers
  import opened JsStrings
  import opened Unicode

  predicate IsAscii(s: seq<int>) {
    forall i | 0 <= i < |s| :: 0 <= s[i] < 0x80
  }

  /** The marks `encodeURIComponent` leaves unescaped besides letters and digits. */
  const UriMarks: set<CodeUnit> :=
    {'-' as int, '_' as int, '.' as int, '!' as int, '~' as int, '*' as int, '\'' as int, '(' as int, ')' as int}

  /** The code units `encodeURIComponent` copies unchanged. */
  predicate IsUriUnreserved(u: CodeUnit) {
    IsAsciiUpper(u) || IsAsciiLower(u) || IsDigit(u) || u in UriMarks
  }

  const Percent: CodeUnit := '%' as int
  const QuestionMark: CodeUnit := '?' as int
  const Ampersand: Byte := '&' as int
  const EqualsSign: Byte := '=' as int
  const Plus: Byte := '+' as int
  const Space: Byte := ' ' as int

  /** An upper-case hexadecimal digit. */
  function HexDigit(n: nat): (u: CodeUnit)
    requires n < 16
    ensures IsUriUnreserved(u)
  {
    if n < 10 then '0' as int + n else 'A' as int + (n - 10)
  }

  predicate IsHexByte(b: Byte) {
    ('0' as int <= b <= '9' as int) || ('A' as int <= b <= 'F' as int) || ('a' as int <= b <= 'f' as int)
  }

  function HexValue(b: Byte): (n: nat)
    requires IsHexByte(b)
    ensures n < 16
  {
    if b <= '9' as int then b - '0' as int
    else if b <= 'F' as int then b - 'A' as int + 10
    else b - 'a' as int + 10
  }

  lemma HexDigitValue(n: nat)
    requires n < 16
    ensures HexDigit(n) < 0x100 && IsHexByte(HexDigit(n)) && HexValue(HexDigit(n)) == n
  {
  }

  /** `%XX` for every byte, with upper-case hexadecimal digits. */
  function PercentBytes(bs: seq<Byte>): (r: JsString)
    ensures |r| == 3 * |bs|
    ensures forall i | 0 <= i < |r| :: IsUriUnreserved(r[i]) || r[i] == Percent
    ensures IsAscii(r)
  {
    if bs == [] then []
    else Escape(bs[0]) + PercentBytes(bs[1..])
  }

  /** What Encode appends for one code point. */
  function EncodeScalar(c: Scalar): (r: JsString)
    ensures forall i | 0 <= i < |r| :: IsUriUnreserved(r[i]) || r[i] == Percent
    ensures IsAscii(r)
  {
    if c < 0x80 && IsUriUnreserved(c) then [c] else PercentBytes(Utf8Encode(c))
  }

  function EncodeScalars(cs: seq<Scalar>): (r: JsString)
    ensures forall i | 0 <= i < |r| :: IsUriUnreserved(r[i]) || r[i] == Percent
    ensures IsAscii(r)
  {
    if cs == [] then [] else EncodeScalar(cs[0]) + EncodeScalars(cs[1..])
  }

  /**
   `encodeURIComponent(s)`; None stands for the URIError it throws on an
   unpaired surrogate. The result uses only unreserved units and `%`.
   */
  function EncodeUriComponent(s: JsString): (r: Option<JsString>)
    ensures r.Some? ==> forall i | 0 <= i < |r.value| :: IsUriUnreserved(r.value[i]) || r.value[i] == Percent
  {
    match ToScalars(s)
    case None => None
    case Some(cs) => Some(EncodeScalars(cs))
  }

  /** `encodeURIComponent` throws exactly on the strings that are not well formed UTF-16. */
  lemma EncodeUriComponentThrows(s: JsString)
    ensures EncodeUriComponent(s).None? <==> !WellFormed(s)
  {
    ToScalarsDefined(s);
  }

  // ---------------------------------------------------------------------
  // Which strings `encodeURIComponent` leaves unchanged

  lemma {:induction false} ToScalarsOfPlain(s: JsString)
    requires forall i | 0 <= i < |s| :: !IsSurrogate(s[i])
    ensures ToScalars(s) == Some(s)
    decreases |s|
  {
    if s != [] {
      ToScalarsOfPlain(s[1..]);
      assert s == [s[0]] + s[1..];
    }
  }

  lemma {:induction false} EncodeScalarsOfUnreserved(cs: seq<Scalar>)
    requires forall i | 0 <= i < |cs| :: cs[i] < 0x80 && IsUriUnreserved(cs[i])
    ensures EncodeScalars(cs) == cs
  {
    if cs != [] {
      EncodeScalarsOfUnreserved(cs[1..]);
      assert cs == [cs[0]] + cs[1..];
    }
  }

  /** Escaping makes the text longer than its UTF-16 form unless every scalar value is unreserved. */
  lemma {:induction false} EncodeScalarsLength(cs: seq<Scalar>)
    ensures |EncodeScalars(cs)| >= |FromScalars(cs)|
    ensures |EncodeScalars(cs)| == |FromScalars(cs)| ==>
              forall i | 0 <= i < |cs| :: cs[i] < 0x80 && IsUriUnreserved(cs[i])
  {
    if cs != [] {
      EncodeScalarsLength(cs[1..]);
      var c := cs[0];
      if !(c < 0x80 && IsUriUnreserved(c)) {
        assert |EncodeScalar(c)| >= 3;
      }
      if |EncodeScalars(cs)| == |FromScalars(cs)| {
        forall i | 0 <= i < |cs|
          ensures cs[i] < 0x80 && IsUriUnreserved(cs[i])
        {
          if i > 0 {
            assert cs[i] == cs[1..][i - 1];
          }
        }
      }
    }
  }

  lemma {:induction false} FromScalarsOfAscii(cs: seq<Scalar>)
    requires IsAscii(cs)
    ensures FromScalars(cs) == cs
  {
    if cs != [] {
      FromScalarsOfAscii(cs[1..]);
      assert cs == [cs[0]] + cs[1..];
    }
  }

  /** `encodeURIComponent` returns its argument unchanged exactly when every unit is unreserved. */
  lemma EncodeUriComponentIdentity(s: JsString)
    ensures EncodeUriComponent(s) == Some(s) <==> forall i | 0 <= i < |s| :: IsUriUnreserved(s[i])
  {
    if forall i | 0 <= i < |s| :: IsUriUnreserved(s[i]) {
      ToScalarsOfPlain(s);
      EncodeScalarsOfUnreserved(s);
    }
    if EncodeUriComponent(s) == Some(s) {
      var cs := ToScalars(s).value;
      FromScalarsOfToScalars(s);
      EncodeScalarsLength(cs);
      assert IsAscii(cs);
      FromScalarsOfAscii(cs);
    }
  }

  // ---------------------------------------------------------------------
  // The application/x-www-form-urlencoded parser

  /** Percent-decoding: `%` followed by two hexadecimal digits stands for one byte, anything else for itself. */
  function PercentDecode(bs: seq<Byte>): seq<Byte>
    decreases |bs|
  {
    if bs == [] then []
    else if bs[0] == Percent && |bs| >= 3 && IsHexByte(bs[1]) && IsHexByte(bs[2]) then
      [HexValue(bs[1]) * 16 + HexValue(bs[2])] + PercentDecode(bs[3..])
    else [bs[0]] + PercentDecode(bs[1..])
  }

  function PlusToSpace(bs: seq<Byte>): (r: seq<Byte>)
    ensures |r| == |bs|
  {
    seq(|bs|, i requires 0 <= i < |bs| => if bs[i] == Plus then Space else bs[i])
  }

  /** The pieces between occurrences of `sep`; there is always at least one. */
  function SplitOn(bs: seq<Byte>, sep: Byte): (r: seq<seq<Byte>>)
    ensures |r| >= 1
  {
    if bs == [] then [[]]
    else
      var tail := SplitOn(bs[1..], sep);
      if bs[0] == sep then [[]] + tail else [[bs[0]] + tail[0]] + tail[1..]
  }

  /** A name or value: `+` read as space, percent-decoded, then UTF-8 decoded. */
  function DecodeComponent(bs: seq<Byte>): JsString {
    FromScalars(Utf8Decode(PercentDecode(PlusToSpace(bs))))
  }

  /** One non-empty sequence: split at the first `=`, or all name and an empty value. */
  function ParsePair(bs: seq<Byte>): (JsString, JsString) {
    match SplitFirst(bs, EqualsSign)
    case Some((name, value)) => (DecodeComponent(name), DecodeComponent(value))
    case None => (DecodeComponent(bs), [])
  }

  function ParseSequences(pieces: seq<seq<Byte>>): seq<(JsString, JsString)> {
    if pieces == [] then []
    else (if pieces[0] == [] then [] else [ParsePair(pieces[0])]) + ParseSequences(pieces[1..])
  }

  /** `new URLSearchParams(init)` for a string `init`: its list of name-value pairs. */
  function SearchParams(init: JsString): seq<(JsString, JsString)> {
    var input := if |init| > 0 && init[0] == QuestionMark then init[1..] else init;
    ParseSequences(SplitOn(Utf8EncodeAll(ToUsv(input)), Ampersand))
  }

  /** `URLSearchParams.prototype.get`: the value of the first pair with that name, or null. */
  function Get(params: seq<(JsString, JsString)>, name: JsString): Option<JsString> {
    if params == [] then None
    else if params[0].0 == name then Some(params[0].1)
    else Get(params[1..], name)
  }

  // ---------------------------------------------------------------------
  // Reading back what `encodeURIComponent` wrote

  lemma {:induction false} ToUsvOfAscii(s: JsString)
    requires IsAscii(s)
    ensures ToUsv(s) == s
    decreases |s|
  {
    if s != [] {
      ToUsvOfAscii(s[1..]);
      assert s == [s[0]] + s[1..];
    }
  }

  lemma {:induction false} Utf8EncodeAllOfAscii(cs: seq<Scalar>)
    requires IsAscii(cs)
    ensures Utf8EncodeAll(cs) == cs
  {
    if cs != [] {
      Utf8EncodeAllOfAscii(cs[1..]);
      assert cs == [cs[0]] + cs[1..];
    }
  }

  lemma {:induction false} Utf8DecodeOfAscii(bs: seq<Byte>)
    requires IsAscii(bs)
    ensures Utf8Decode(bs) == bs
    decreases |bs|
  {
    if bs != [] {
      Utf8DecodeOfAscii(bs[1..]);
      assert bs == [bs[0]] + bs[1..];
    }
  }

  lemma {:induction false} SplitOnWithoutSep(bs: seq<Byte>, sep: Byte)
    requires sep !in bs
    ensures SplitOn(bs, sep) == [bs]
  {
    if bs != [] {
      SplitOnWithoutSep(bs[1..], sep);
      assert bs == [bs[0]] + bs[1..];
    }
  }

  lemma {:induction false} PercentDecodeOfPlain(bs: seq<Byte>)
    requires Percent !in bs
    ensures PercentDecode(bs) == bs
    decreases |bs|
  {
    if bs != [] {
      PercentDecodeOfPlain(bs[1..]);
      assert bs == [bs[0]] + bs[1..];
    }
  }

  /** The two hexadecimal digits written for a byte read back as that byte. */
  lemma HexPairValue(b: Byte)
    ensures IsHexByte(HexDigit(b / 16)) && IsHexByte(HexDigit(b % 16))
    ensures HexValue(HexDigit(b / 16)) * 16 + HexValue(HexDigit(b % 16)) == b
  {
    HexDigitValue(b / 16);
    HexDigitValue(b % 16);
  }

  lemma PercentDecodeEscape(p: seq<Byte>)
    requires |p| >= 3 && p[0] == Percent && IsHexByte(p[1]) && IsHexByte(p[2])
    ensures PercentDecode(p) == [HexValue(p[1]) * 16 + HexValue(p[2])] + PercentDecode(p[3..])
  {
  }

  lemma PercentDecodeOther(p: seq<Byte>)
    requires |p| >= 1 && p[0] != Percent
    ensures PercentDecode(p) == [p[0]] + PercentDecode(p[1..])
  {
  }

  /** The escape `%XX` written for one byte. */
  function Escape(b: Byte): seq<Byte> {
    [Percent, HexDigit(b / 16), HexDigit(b % 16)]
  }

  /** One escape `%XX` decodes to its byte. */
  lemma PercentDecodeOfOneEscape(b: Byte, rest: seq<Byte>)
    ensures PercentDecode(Escape(b) + rest) == [b] + PercentDecode(rest)
  {
    HexPairValue(b);
    var p: seq<Byte> := Escape(b) + rest;
    PercentDecodeEscape(p);
    assert p[3..] == rest;
  }

  lemma {:induction false} PercentDecodeOfPercentBytes(bs: seq<Byte>, rest: seq<Byte>)
    ensures PercentDecode(PercentBytes(bs) + rest) == bs + PercentDecode(rest)
  {
    if bs != [] {
      var b := bs[0];
      var tail: seq<Byte> := PercentBytes(bs[1..]);
      assert PercentBytes(bs) + rest == Escape(b) + (tail + rest) by {
        assert PercentBytes(bs) == Escape(b) + tail;
      }
      PercentDecodeOfOneEscape(b, tail + rest);
      PercentDecodeOfPercentBytes(bs[1..], rest);
      assert bs == [b] + bs[1..];
    } else {
      assert PercentBytes(bs) + rest == rest;
    }
  }

  /** Percent-decoding the output of `encodeURIComponent` gives the UTF-8 bytes of its input. */
  lemma {:induction false} PercentDecodeOfEncodeScalars(cs: seq<Scalar>)
    ensures PercentDecode(EncodeScalars(cs)) == Utf8EncodeAll(cs)
  {
    if cs != [] {
      var c := cs[0];
      var tail := EncodeScalars(cs[1..]);
      assert EncodeScalars(cs) == EncodeScalar(c) + tail;
      assert Utf8EncodeAll(cs) == Utf8Encode(c) + Utf8EncodeAll(cs[1..]);
      PercentDecodeOfEncodeScalars(cs[1..]);
      if c < 0x80 && IsUriUnreserved(c) {
        var e: seq<Byte> := [c] + tail;
        PercentDecodeOther(e);
        assert e[1..] == tail;
      } else {
        PercentDecodeOfPercentBytes(Utf8Encode(c), tail);
      }
    }
  }

  lemma PlusToSpaceOfPlain(bs: seq<Byte>)
    requires Plus !in bs
    ensures PlusToSpace(bs) == bs
  {
  }

  lemma DecodeComponentOfAsciiPlain(s: JsString)
    requires IsAscii(s) && Percent !in s && Plus !in s
    ensures DecodeComponent(s) == s
  {
    PlusToSpaceOfPlain(s);
    PercentDecodeOfPlain(s);
    Utf8DecodeOfAscii(s);
    FromScalarsOfAscii(s);
  }

  lemma DecodeComponentOfEncoded(s: JsString)
    requires WellFormed(s)
    ensures EncodeUriComponent(s).Some?
    ensures DecodeComponent(EncodeUriComponent(s).value) == s
  {
    ToScalarsDefined(s);
    var cs := ToScalars(s).value;
    var e := EncodeScalars(cs);
    assert Plus !in e by {
      forall i | 0 <= i < |e| ensures e[i] != Plus {
        assert IsUriUnreserved(e[i]) || e[i] == Percent;
      }
    }
    PlusToSpaceOfPlain(e);
    PercentDecodeOfEncodeScalars(cs);
    Utf8RoundTrip(cs);
    FromScalarsOfToScalars(s);
  }

  lemma UnreservedOrPercentIsPlain(s: JsString)
    requires forall i | 0 <= i < |s| :: IsUriUnreserved(s[i]) || s[i] == Percent
    ensures IsAscii(s) && Ampersand !in s && Plus !in s && EqualsSign !in s
  {
  }

  lemma UnreservedIsPlain(s: JsString)
    requires forall i | 0 <= i < |s| :: IsUriUnreserved(s[i])
    ensures IsAscii(s) && Ampersand !in s && Plus !in s && EqualsSign !in s && Percent !in s
  {
  }

  lemma AsciiConcat(a: JsString, b: JsString, c: JsString)
    requires IsAscii(a) && IsAscii(b) && IsAscii(c)
    ensures IsAscii(a + b + c)
  {
  }

  /** The bytes of a query string without `&` and with a `=` after the name. */
  lemma QueryBytes(name: JsString, value: JsString)
    requires IsAscii(name) && IsAscii(value)
    ensures var input := name + [EqualsSign] + value;
      Utf8EncodeAll(ToUsv(input)) == input
  {
    var input := name + [EqualsSign] + value;
    AsciiConcat(name, [EqualsSign], value);
    ToUsvOfAscii(input);
    Utf8EncodeAllOfAscii(input);
  }

  /** A query without `&` is a single name-value pair. */
  lemma SearchParamsOfSinglePair(name: JsString, value: JsString)
    requires IsAscii(name) && IsAscii(value)
    requires Ampersand !in name && Ampersand !in value && EqualsSign !in name
    ensures SearchParams([QuestionMark] + name + [EqualsSign] + value)
         == [(DecodeComponent(name), DecodeComponent(value))]
  {
    var query := [QuestionMark] + name + [EqualsSign] + value;
    var input := name + [EqualsSign] + value;
    assert query[1..] == input;
    QueryBytes(name, value);
    var bytes: seq<Byte> := input;
    assert Ampersand !in bytes;
    SplitOnWithoutSep(bytes, Ampersand);
    var nameBytes: seq<Byte> := name;
    var valueBytes: seq<Byte> := value;
    assert bytes == nameBytes + [EqualsSign] + valueBytes;
    SplitFirstAt(nameBytes, EqualsSign, valueBytes);
    assert ParsePair(bytes) == (DecodeComponent(name), DecodeComponent(value));
    calc {
      SearchParams(query);
      ParseSequences(SplitOn(bytes, Ampersand));
      ParseSequences([bytes]);
      [ParsePair(bytes)];
    }
  }

  /**
   A query `?name=` followed by `encodeURIComponent(s)` hands `s` back from
   `get(name)`, for every well-formed string `s` and every name made of
   unreserved units.
   */
  lemma QueryRoundTrip(name: JsString, s: JsString)
    requires forall i | 0 <= i < |name| :: IsUriUnreserved(name[i])
    requires WellFormed(s)
    ensures EncodeUriComponent(s).Some?
    ensures Get(SearchParams([QuestionMark] + name + [EqualsSign] + EncodeUriComponent(s).value), name) == Some(s)
  {
    DecodeComponentOfEncoded(s);
    var e := EncodeUriComponent(s).value;
    UnreservedOrPercentIsPlain(e);
    UnreservedIsPlain(name);
    DecodeComponentOfAsciiPlain(name);
    GetOfSinglePair(name, e);
  }

  /** `get(name)` on a query holding one pair whose name decodes to itself returns the decoded value. */
  lemma GetOfSinglePair(name: JsString, value: JsString)
    requires IsAscii(name) && IsAscii(value)
    requires Ampersand !in name && Ampersand !in value && EqualsSign !in name
    requires DecodeComponent(name) == name
    ensures Get(SearchParams([QuestionMark] + name + [EqualsSign] + value), name) == Some(DecodeComponent(value))
  {
    SearchParamsOfSinglePair(name, value);
  }
}
