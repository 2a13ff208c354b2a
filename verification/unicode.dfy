/**
 Unicode scalar values and the two encodings the share link passes
 through: UTF-16 (ECMAScript strings, ECMA-262 section 6.1.4) and UTF-8
 (the bytes `encodeURIComponent` percent-escapes, and the bytes the
 WHATWG Encoding Standard's UTF-8 decoder reads back).
 */
module Unicode {
  import opened Wrappers
  import opened JsStrings

  type Byte = b: int | 0 <= b < 0x100

  /** A code point that is not a surrogate. */
  type Scalar = c: int | 0 <= c < 0xD800 || 0xE000 <= c < 0x11_0000

  /** U+FFFD REPLACEMENT CHARACTER. */
  const Replacement: Scalar := 0xFFFD

  predicate IsHighSurrogate(u: CodeUnit) { 0xD800 <= u <= 0xDBFF }

  predicate IsLowSurrogate(u: CodeUnit) { 0xDC00 <= u <= 0xDFFF }

  predicate IsSurrogate(u: CodeUnit) { 0xD800 <= u <= 0xDFFF }

  /** The code point a surrogate pair stands for (ECMA-262 UTF16SurrogatePairToCodePoint). */
  function PairToScalar(hi: CodeUnit, lo: CodeUnit): Scalar
    requires IsHighSurrogate(hi) && IsLowSurrogate(lo)
  {
    (hi - 0xD800) * 0x400 + (lo - 0xDC00) + 0x1_0000
  }

  // ---------------------------------------------------------------------
  // UTF-16

  /**
   The scalar values of a string read with CodePointAt from left to right,
   or None when some surrogate is unpaired (where `encodeURIComponent`
   throws a URIError).
   */
  function ToScalars(s: JsString): Option<seq<Scalar>>
    decreases |s|
  {
    if s == [] then Some([])
    else if IsHighSurrogate(s[0]) && |s| >= 2 && IsLowSurrogate(s[1]) then
      match ToScalars(s[2..])
      case None => None
      case Some(rest) => Some([PairToScalar(s[0], s[1])] + rest)
    else if IsSurrogate(s[0]) then None
    else
      match ToScalars(s[1..])
      case None => None
      case Some(rest) => Some([s[0] as Scalar] + rest)
  }

  /** WebIDL's conversion to USVString: every unpaired surrogate becomes U+FFFD. */
  function ToUsv(s: JsString): seq<Scalar>
    decreases |s|
  {
    if s == [] then []
    else if IsHighSurrogate(s[0]) && |s| >= 2 && IsLowSurrogate(s[1]) then
      [PairToScalar(s[0], s[1])] + ToUsv(s[2..])
    else if IsSurrogate(s[0]) then [Replacement] + ToUsv(s[1..])
    else [s[0] as Scalar] + ToUsv(s[1..])
  }

  /** The unit at `i` is not a surrogate, or it is one half of a surrogate pair. */
  predicate PairedAt(s: JsString, i: int)
    requires 0 <= i < |s|
  {
    && (IsHighSurrogate(s[i]) ==> i + 1 < |s| && IsLowSurrogate(s[i + 1]))
    && (IsLowSurrogate(s[i]) ==> 0 < i && IsHighSurrogate(s[i - 1]))
  }

  /** Every high surrogate is followed by a low one and every low one preceded by a high one. */
  predicate WellFormed(s: JsString) {
    forall i | 0 <= i < |s| :: PairedAt(s, i)
  }

  function Utf16Encode(c: Scalar): (r: JsString)
    ensures 1 <= |r| <= 2
  {
    if c < 0x1_0000 then [c]
    else [0xD800 + (c - 0x1_0000) / 0x400, 0xDC00 + (c - 0x1_0000) % 0x400]
  }

  /** The ECMAScript string holding the given scalar values. */
  function FromScalars(cs: seq<Scalar>): JsString {
    if cs == [] then [] else Utf16Encode(cs[0]) + FromScalars(cs[1..])
  }

  /** Dropping a prefix that does not end inside a surrogate pair keeps a string well formed. */
  lemma WellFormedDrop(s: JsString, k: nat)
    requires WellFormed(s) && k <= |s|
    requires k == 0 || !IsHighSurrogate(s[k - 1])
    ensures WellFormed(s[k..])
  {
    var t := s[k..];
    forall i | 0 <= i < |t|
      ensures PairedAt(t, i)
    {
      assert PairedAt(s, i + k);
    }
  }

  /** Putting a non-surrogate unit or a whole pair in front of a well-formed string keeps it well formed. */
  lemma WellFormedPrepend(p: JsString, t: JsString)
    requires WellFormed(t)
    requires (|p| == 1 && !IsSurrogate(p[0]))
          || (|p| == 2 && IsHighSurrogate(p[0]) && IsLowSurrogate(p[1]))
    ensures WellFormed(p + t)
  {
    var s := p + t;
    forall i | 0 <= i < |s|
      ensures PairedAt(s, i)
    {
      if i >= |p| {
        assert PairedAt(t, i - |p|);
      } else if i == |p| - 1 && |t| > 0 {
        assert PairedAt(t, 0);
      }
    }
  }

  /** A string can be read as scalar values exactly when it is well formed. */
  lemma {:induction false} ToScalarsDefined(s: JsString)
    ensures ToScalars(s).Some? <==> WellFormed(s)
    decreases |s|
  {
    if s == [] {
    } else if IsHighSurrogate(s[0]) && |s| >= 2 && IsLowSurrogate(s[1]) {
      ToScalarsDefined(s[2..]);
      if WellFormed(s) {
        WellFormedDrop(s, 2);
      }
      if WellFormed(s[2..]) {
        WellFormedPrepend(s[..2], s[2..]);
        assert s[..2] + s[2..] == s;
      }
    } else if IsSurrogate(s[0]) {
      assert !PairedAt(s, 0);
    } else {
      ToScalarsDefined(s[1..]);
      if WellFormed(s) {
        WellFormedDrop(s, 1);
      }
      if WellFormed(s[1..]) {
        WellFormedPrepend(s[..1], s[1..]);
        assert s[..1] + s[1..] == s;
      }
    }
  }

  /** Encoding scalar values as UTF-16 and reading them back gives them unchanged. */
  lemma {:induction false} Utf16RoundTrip(cs: seq<Scalar>)
    ensures ToScalars(FromScalars(cs)) == Some(cs)
  {
    if cs != [] {
      var c := cs[0];
      var s := FromScalars(cs);
      Utf16RoundTrip(cs[1..]);
      assert cs == [c] + cs[1..];
      if c < 0x1_0000 {
        assert s[0] == c && !IsSurrogate(s[0]);
        assert s[1..] == FromScalars(cs[1..]);
      } else {
        assert s[2..] == FromScalars(cs[1..]);
        assert PairToScalar(s[0], s[1]) == c;
      }
    }
  }

  /** A well-formed string is the UTF-16 encoding of the scalar values read from it. */
  lemma {:induction false} FromScalarsOfToScalars(s: JsString)
    requires ToScalars(s).Some?
    ensures FromScalars(ToScalars(s).value) == s
    decreases |s|
  {
    if s == [] {
    } else if IsHighSurrogate(s[0]) && |s| >= 2 && IsLowSurrogate(s[1]) {
      FromScalarsOfToScalars(s[2..]);
      var c := PairToScalar(s[0], s[1]);
      assert Utf16Encode(c) == s[..2];
      assert s == s[..2] + s[2..];
    } else {
      FromScalarsOfToScalars(s[1..]);
      assert s == [s[0]] + s[1..];
    }
  }

  // ---------------------------------------------------------------------
  // UTF-8

  function Utf8Encode(c: Scalar): (r: seq<Byte>)
    ensures 1 <= |r| <= 4
  {
    if c < 0x80 then [c]
    else if c < 0x800 then [0xC0 + c / 0x40, 0x80 + c % 0x40]
    else if c < 0x1_0000 then
      var q1 := c / 0x40;
      [0xE0 + q1 / 0x40, 0x80 + q1 % 0x40, 0x80 + c % 0x40]
    else
      var q1 := c / 0x40;
      var q2 := q1 / 0x40;
      [0xF0 + q2 / 0x40, 0x80 + q2 % 0x40, 0x80 + q1 % 0x40, 0x80 + c % 0x40]
  }

  function Utf8EncodeAll(cs: seq<Scalar>): seq<Byte> {
    if cs == [] then [] else Utf8Encode(cs[0]) + Utf8EncodeAll(cs[1..])
  }

  /**
   The state of the WHATWG UTF-8 decoder: the code point gathered so far,
   the continuation bytes needed and seen, and the range the next byte
   must fall in.
   */
  datatype DecoderState = DecoderState(codePoint: nat, needed: nat, seen: nat, lower: Byte, upper: Byte)

  const Fresh := DecoderState(0, 0, 0, 0x80, 0xBF)

  /**
   The decoder is fresh, or every way of completing the current sequence
   with bytes inside the allowed ranges yields a scalar value.
   */
  ghost predicate Sound(st: DecoderState) {
    if st.needed == 0 then st == Fresh
    else
      var cp := st.codePoint;
      var lo := st.lower - 0x80;
      var hi := st.upper - 0x80;
      && st.seen < st.needed <= 3
      && 0x80 <= st.lower <= st.upper <= 0xBF
      && (st.needed - st.seen == 1 ==>
            cp * 0x40 + hi < 0x11_0000 && (cp * 0x40 + hi < 0xD800 || 0xE000 <= cp * 0x40 + lo))
      && (st.needed - st.seen == 2 ==>
            cp * 0x1000 + hi * 0x40 + 0x3F < 0x11_0000
            && (cp * 0x1000 + hi * 0x40 + 0x3F < 0xD800 || 0xE000 <= cp * 0x1000 + lo * 0x40))
      && (st.needed - st.seen == 3 ==>
            cp * 0x4_0000 + hi * 0x1000 + 0xFFF < 0x11_0000
            && (cp * 0x4_0000 + hi * 0x1000 + 0xFFF < 0xD800 || 0xE000 <= cp * 0x4_0000 + lo * 0x1000))
  }

  /** The state after a lead byte, as the decoder's first step sets it. */
  function LeadState(b: Byte): (st: DecoderState)
    requires 0xC2 <= b <= 0xF4
    ensures Sound(st)
  {
    if b <= 0xDF then DecoderState(b % 0x20, 1, 0, 0x80, 0xBF)
    else if b <= 0xEF then
      DecoderState(b % 0x10, 2, 0, if b == 0xE0 then 0xA0 else 0x80, if b == 0xED then 0x9F else 0xBF)
    else
      DecoderState(b % 0x08, 3, 0, if b == 0xF0 then 0x90 else 0x80, if b == 0xF4 then 0x8F else 0xBF)
  }

  /** The state after an accepted continuation byte that does not end the sequence. */
  function ContinueState(st: DecoderState, b: Byte): (st': DecoderState)
    requires Sound(st) && st.needed > 0 && st.lower <= b <= st.upper
    requires st.seen + 1 < st.needed
    ensures Sound(st')
  {
    DecoderState(st.codePoint * 0x40 + b % 0x40, st.needed, st.seen + 1, 0x80, 0xBF)
  }

  /** The code point completed by the last continuation byte of a sequence. */
  function Completed(st: DecoderState, b: Byte): Scalar
    requires Sound(st) && st.needed > 0 && st.lower <= b <= st.upper
    requires st.seen + 1 == st.needed
  {
    st.codePoint * 0x40 + b % 0x40
  }

  /**
   The WHATWG UTF-8 decoder in replacement mode, from state `st`: every
   malformed sequence yields one U+FFFD, and a byte that breaks a sequence
   is read again from a fresh state.
   */
  function DecodeFrom(st: DecoderState, bytes: seq<Byte>): seq<Scalar>
    requires Sound(st)
    decreases |bytes|, st.needed
  {
    if bytes == [] then
      if st.needed != 0 then [Replacement] else []
    else
      var b := bytes[0];
      if st.needed == 0 then
        if b <= 0x7F then [b] + DecodeFrom(Fresh, bytes[1..])
        else if 0xC2 <= b <= 0xF4 then DecodeFrom(LeadState(b), bytes[1..])
        else [Replacement] + DecodeFrom(Fresh, bytes[1..])
      else if b < st.lower || st.upper < b then
        [Replacement] + DecodeFrom(Fresh, bytes)
      else if st.seen + 1 == st.needed then
        [Completed(st, b)] + DecodeFrom(Fresh, bytes[1..])
      else
        DecodeFrom(ContinueState(st, b), bytes[1..])
  }

  /** "UTF-8 decode without BOM" of the Encoding Standard. */
  function Utf8Decode(bytes: seq<Byte>): seq<Scalar> {
    DecodeFrom(Fresh, bytes)
  }

  /** A lead byte moves the fresh decoder to its lead state. */
  lemma LeadStep(b: Byte, rest: seq<Byte>)
    requires 0xC2 <= b <= 0xF4
    ensures DecodeFrom(Fresh, [b] + rest) == DecodeFrom(LeadState(b), rest)
  {
    assert ([b] + rest)[1..] == rest;
  }

  /** An accepted continuation byte that does not end the sequence. */
  lemma ContinueStep(st: DecoderState, b: Byte, rest: seq<Byte>)
    requires Sound(st) && st.needed > 0 && st.lower <= b <= st.upper
    requires st.seen + 1 < st.needed
    ensures DecodeFrom(st, [b] + rest) == DecodeFrom(ContinueState(st, b), rest)
  {
    assert ([b] + rest)[1..] == rest;
  }

  /** The last continuation byte emits the completed code point. */
  lemma CompleteStep(st: DecoderState, b: Byte, rest: seq<Byte>)
    requires Sound(st) && st.needed > 0 && st.lower <= b <= st.upper
    requires st.seen + 1 == st.needed
    ensures DecodeFrom(st, [b] + rest) == [Completed(st, b)] + DecodeFrom(Fresh, rest)
  {
    assert ([b] + rest)[1..] == rest;
  }

  lemma DecodeTwo(c: Scalar, rest: seq<Byte>)
    requires 0x80 <= c < 0x800
    ensures DecodeFrom(Fresh, Utf8Encode(c) + rest) == [c] + DecodeFrom(Fresh, rest)
  {
    var e := Utf8Encode(c);
    assert e[0] == 0xC0 + c / 0x40 && e[1] == 0x80 + c % 0x40;
    var st := LeadState(e[0]);
    assert st.codePoint == c / 0x40;
    assert e[1] % 0x40 == c % 0x40;
    assert Completed(st, e[1]) == c;
    assert e + rest == [e[0]] + ([e[1]] + rest);
    LeadStep(e[0], [e[1]] + rest);
    CompleteStep(st, e[1], rest);
  }

  lemma DecodeThree(c: Scalar, rest: seq<Byte>)
    requires 0x800 <= c < 0x1_0000
    ensures DecodeFrom(Fresh, Utf8Encode(c) + rest) == [c] + DecodeFrom(Fresh, rest)
  {
    var e := Utf8Encode(c);
    var q1 := c / 0x40;
    assert e[0] == 0xE0 + q1 / 0x40 && e[1] == 0x80 + q1 % 0x40 && e[2] == 0x80 + c % 0x40;
    var st := LeadState(e[0]);
    assert st.codePoint == q1 / 0x40;
    assert st.lower <= e[1] <= st.upper;
    assert e[1] % 0x40 == q1 % 0x40;
    var st2 := ContinueState(st, e[1]);
    assert st2.codePoint == q1;
    assert e[2] % 0x40 == c % 0x40;
    assert Completed(st2, e[2]) == c;
    assert e + rest == [e[0]] + ([e[1]] + ([e[2]] + rest));
    LeadStep(e[0], [e[1]] + ([e[2]] + rest));
    ContinueStep(st, e[1], [e[2]] + rest);
    CompleteStep(st2, e[2], rest);
  }

  /** The states a four-byte sequence passes through, and the code point it completes. */
  lemma FourByteStates(c: Scalar)
    requires 0x1_0000 <= c
    ensures var e := Utf8Encode(c);
      var st := LeadState(e[0]);
      && st.lower <= e[1] <= st.upper
      && var st2 := ContinueState(st, e[1]);
      && var st3 := ContinueState(st2, e[2]);
      && Completed(st3, e[3]) == c
  {
    var e := Utf8Encode(c);
    var q1 := c / 0x40;
    var q2 := q1 / 0x40;
    assert e[0] == 0xF0 + q2 / 0x40 && e[1] == 0x80 + q2 % 0x40;
    assert e[2] == 0x80 + q1 % 0x40 && e[3] == 0x80 + c % 0x40;
    var st := LeadState(e[0]);
    assert st.codePoint == q2 / 0x40;
    assert st.lower <= e[1] <= st.upper;
    assert e[1] % 0x40 == q2 % 0x40;
    var st2 := ContinueState(st, e[1]);
    assert st2.codePoint == q2;
    assert e[2] % 0x40 == q1 % 0x40;
    var st3 := ContinueState(st2, e[2]);
    assert st3.codePoint == q1;
    assert e[3] % 0x40 == c % 0x40;
  }

  lemma DecodeFour(c: Scalar, rest: seq<Byte>)
    requires 0x1_0000 <= c
    ensures DecodeFrom(Fresh, Utf8Encode(c) + rest) == [c] + DecodeFrom(Fresh, rest)
  {
    var e := Utf8Encode(c);
    FourByteStates(c);
    var st := LeadState(e[0]);
    var st2 := ContinueState(st, e[1]);
    var st3 := ContinueState(st2, e[2]);
    assert e + rest == [e[0]] + ([e[1]] + ([e[2]] + ([e[3]] + rest)));
    LeadStep(e[0], [e[1]] + ([e[2]] + ([e[3]] + rest)));
    ContinueStep(st, e[1], [e[2]] + ([e[3]] + rest));
    ContinueStep(st2, e[2], [e[3]] + rest);
    CompleteStep(st3, e[3], rest);
  }

  /** Decoding the UTF-8 encoding of one scalar value yields that value and leaves the decoder fresh. */
  lemma DecodeOne(c: Scalar, rest: seq<Byte>)
    ensures DecodeFrom(Fresh, Utf8Encode(c) + rest) == [c] + DecodeFrom(Fresh, rest)
  {
    if c < 0x80 {
      assert (Utf8Encode(c) + rest)[1..] == rest;
    } else if c < 0x800 {
      DecodeTwo(c, rest);
    } else if c < 0x1_0000 {
      DecodeThree(c, rest);
    } else {
      DecodeFour(c, rest);
    }
  }

  /** The decoder reads back exactly the scalar values the encoder wrote. */
  lemma {:induction false} Utf8RoundTrip(cs: seq<Scalar>)
    ensures Utf8Decode(Utf8EncodeAll(cs)) == cs
  {
    if cs != [] {
      DecodeOne(cs[0], Utf8EncodeAll(cs[1..]));
      Utf8RoundTrip(cs[1..]);
    }
  }
}
