/**
 * encodeURIComponent, as ECMA-262 defines it: every character outside the
 * component's unreserved set is written as the UTF-8 bytes of its code point,
 * each as "%" and two upper-case hexadecimal digits (the percent-encoding of
 * section 2.1 of RFC 3986). Decode is the partner used to state that nothing
 * is lost: it reads an encoded component back.
 */
module Uri {
  import opened Wrappers

  type Byte = b: int | 0 <= b < 256

  /** The characters encodeURIComponent leaves as they are: letters, digits and - _ . ! ~ * ' ( ). */
  predicate IsUnreserved(c: char) {
    || 'A' <= c <= 'Z' || 'a' <= c <= 'z' || '0' <= c <= '9'
    || c == '-' || c == '_' || c == '.' || c == '!' || c == '~'
    || c == '*' || c == '\'' || c == '(' || c == ')'
  }

  predicate IsUpperHexDigit(c: char) {
    '0' <= c <= '9' || 'A' <= c <= 'F'
  }

  function HexDigit(n: nat): (c: char)
    requires n < 16
    ensures IsUpperHexDigit(c)
  {
    if n < 10 then ('0' as int + n) as char else ('A' as int + (n - 10)) as char
  }

  function HexValue(c: char): (r: Option<nat>)
    ensures r.Some? ==> r.value < 16
  {
    if '0' <= c <= '9' then Some(c as int - '0' as int)
    else if 'A' <= c <= 'F' then Some(c as int - 'A' as int + 10)
    else if 'a' <= c <= 'f' then Some(c as int - 'a' as int + 10)
    else None
  }

  /** The UTF-8 encoding of one code point (section 3 of RFC 3629). */
  function Utf8(c: char): (bs: seq<Byte>)
    ensures 1 <= |bs| <= 4
  {
    var cp := c as int;
    var a := cp / 64;
    var b := a / 64;
    if cp < 0x80 then [cp]
    else if cp < 0x800 then [0xC0 + a, 0x80 + cp % 64]
    else if cp < 0x10000 then [0xE0 + b, 0x80 + a % 64, 0x80 + cp % 64]
    else [0xF0 + b / 64, 0x80 + b % 64, 0x80 + a % 64, 0x80 + cp % 64]
  }

  function PercentByte(b: Byte): (r: string)
    ensures |r| == 3
  {
    ['%', HexDigit(b / 16), HexDigit(b % 16)]
  }

  function Escape(bs: seq<Byte>): (r: string)
    ensures |r| == 3 * |bs|
  {
    if bs == [] then [] else PercentByte(bs[0]) + Escape(bs[1..])
  }

  /** One character becomes itself or up to four escaped bytes. */
  function EncodeChar(c: char): (r: string)
    ensures 1 <= |r| <= 12
  {
    if IsUnreserved(c) then [c] else Escape(Utf8(c))
  }

  /**
   * encodeURIComponent on a string of Unicode scalar values. The result is
   * never shorter than the input and at most twelve times as long.
   */
  function Encode(s: string): (r: string)
    ensures |s| <= |r| <= 12 * |s|
  {
    if s == [] then [] else EncodeChar(s[0]) + Encode(s[1..])
  }

  /** The byte written as "%HH" at position i of e, if there is one. */
  function ReadByte(e: string, i: nat): Option<Byte> {
    if i + 3 <= |e| && e[i] == '%' then
      match (HexValue(e[i + 1]), HexValue(e[i + 2]))
      case (Some(h), Some(l)) => Some(16 * h + l)
      case _ => None
    else None
  }

  /** The low six bits of a UTF-8 continuation byte written at position i of e. */
  function ReadContinuation(e: string, i: nat): Option<nat> {
    match ReadByte(e, i)
    case Some(b) => if 0x80 <= b < 0xC0 then Some(b - 0x80) else None
    case None => None
  }

  function ScalarOf(cp: int, width: nat): Option<(char, nat)> {
    if 0 <= cp < 0xD800 || 0xE000 <= cp < 0x110000 then Some((cp as char, width)) else None
  }

  /** The first character of an encoded component and how many characters of e it takes. */
  function DecodeChar(e: string): (r: Option<(char, nat)>)
    requires e != []
    ensures r.Some? ==> 0 < r.value.1 <= |e|
  {
    if e[0] != '%' then Some((e[0], 1))
    else match ReadByte(e, 0)
      case None => None
      case Some(b0) =>
        if b0 < 0x80 then ScalarOf(b0, 3)
        else if 0xC0 <= b0 < 0xE0 then
          match ReadContinuation(e, 3)
          case None => None
          case Some(c1) => ScalarOf((b0 - 0xC0) * 64 + c1, 6)
        else if 0xE0 <= b0 < 0xF0 then
          match (ReadContinuation(e, 3), ReadContinuation(e, 6))
          case (Some(c1), Some(c2)) => ScalarOf(((b0 - 0xE0) * 64 + c1) * 64 + c2, 9)
          case _ => None
        else if 0xF0 <= b0 < 0xF8 then
          match (ReadContinuation(e, 3), ReadContinuation(e, 6), ReadContinuation(e, 9))
          case (Some(c1), Some(c2), Some(c3)) =>
            ScalarOf((((b0 - 0xF0) * 64 + c1) * 64 + c2) * 64 + c3, 12)
          case _ => None
        else None
  }

  /** decodeURIComponent: the string an encoded component stands for, or None if it is malformed. */
  function Decode(e: string): Option<string>
    decreases |e|
  {
    if e == [] then Some([])
    else match DecodeChar(e)
      case None => None
      case Some((c, k)) =>
        match Decode(e[k..])
        case None => None
        case Some(t) => Some([c] + t)
  }

  lemma HexDigitValue(n: nat)
    requires n < 16
    ensures HexValue(HexDigit(n)) == Some(n)
  {
  }

  /** The k-th byte of an escaped byte string is read back at position 3k, whatever follows. */
  lemma {:induction false} ReadEscaped(bs: seq<Byte>, rest: string, k: nat)
    requires k < |bs|
    ensures ReadByte(Escape(bs) + rest, 3 * k) == Some(bs[k])
  {
    var e := Escape(bs) + rest;
    if k == 0 {
      var b := bs[0];
      assert e[0] == '%' && e[1] == HexDigit(b / 16) && e[2] == HexDigit(b % 16);
      HexDigitValue(b / 16);
      HexDigitValue(b % 16);
    } else {
      ReadEscaped(bs[1..], rest, k - 1);
      var e' := Escape(bs[1..]) + rest;
      assert e == PercentByte(bs[0]) + e';
      assert |e| == 3 + |e'|;
      assert e[3 * k] == e'[3 * (k - 1)] && e[3 * k + 1] == e'[3 * (k - 1) + 1] && e[3 * k + 2] == e'[3 * (k - 1) + 2];
    }
  }

  lemma ReadContinuationEscaped(bs: seq<Byte>, rest: string, k: nat)
    requires k < |bs| && 0x80 <= bs[k] < 0xC0
    ensures ReadContinuation(Escape(bs) + rest, 3 * k) == Some(bs[k] - 0x80)
  {
    ReadEscaped(bs, rest, k);
  }

  /** The bytes of a code point's UTF-8 form, by range, and how its code point is rebuilt from them. */
  lemma Utf8Bytes(c: char)
    ensures var cp, bs := c as int, Utf8(c);
      && (cp < 0x80 ==> |bs| == 1 && bs[0] == cp)
      && (0x80 <= cp < 0x800 ==>
            && |bs| == 2 && 0xC0 <= bs[0] < 0xE0 && 0x80 <= bs[1] < 0xC0
            && (bs[0] as int - 0xC0) * 64 + (bs[1] as int - 0x80) == cp)
      && (0x800 <= cp < 0x10000 ==>
            && |bs| == 3 && 0xE0 <= bs[0] < 0xF0 && 0x80 <= bs[1] < 0xC0 && 0x80 <= bs[2] < 0xC0
            && ((bs[0] as int - 0xE0) * 64 + (bs[1] as int - 0x80)) * 64 + (bs[2] as int - 0x80) == cp)
      && (0x10000 <= cp ==>
            && |bs| == 4 && 0xF0 <= bs[0] < 0xF8
            && 0x80 <= bs[1] < 0xC0 && 0x80 <= bs[2] < 0xC0 && 0x80 <= bs[3] < 0xC0
            && (((bs[0] as int - 0xF0) * 64 + (bs[1] as int - 0x80)) * 64 + (bs[2] as int - 0x80)) * 64 + (bs[3] as int - 0x80) == cp)
  {
    var cp := c as int;
    var a := cp / 64;
    var b := a / 64;
    assert cp == a * 64 + cp % 64;
    assert a == b * 64 + a % 64;
    assert b == (b / 64) * 64 + b % 64;
  }

  // DecodeChar on a "%HH" sequence, one lemma per UTF-8 length.

  lemma DecodeOne(e: string, b0: Byte)
    requires e != [] && ReadByte(e, 0) == Some(b0) && b0 < 0x80
    ensures DecodeChar(e) == ScalarOf(b0, 3)
  {
  }

  lemma DecodeTwo(e: string, b0: Byte, c1: nat)
    requires e != [] && ReadByte(e, 0) == Some(b0) && 0xC0 <= b0 < 0xE0
    requires ReadContinuation(e, 3) == Some(c1)
    ensures DecodeChar(e) == ScalarOf((b0 - 0xC0) * 64 + c1, 6)
  {
  }

  lemma DecodeThree(e: string, b0: Byte, c1: nat, c2: nat)
    requires e != [] && ReadByte(e, 0) == Some(b0) && 0xE0 <= b0 < 0xF0
    requires ReadContinuation(e, 3) == Some(c1) && ReadContinuation(e, 6) == Some(c2)
    ensures DecodeChar(e) == ScalarOf(((b0 - 0xE0) * 64 + c1) * 64 + c2, 9)
  {
  }

  lemma DecodeFour(e: string, b0: Byte, c1: nat, c2: nat, c3: nat)
    requires e != [] && ReadByte(e, 0) == Some(b0) && 0xF0 <= b0 < 0xF8
    requires ReadContinuation(e, 3) == Some(c1) && ReadContinuation(e, 6) == Some(c2)
    requires ReadContinuation(e, 9) == Some(c3)
    ensures DecodeChar(e) == ScalarOf((((b0 - 0xF0) * 64 + c1) * 64 + c2) * 64 + c3, 12)
  {
  }

  lemma DecodeEscapedChar(c: char, rest: string)
    requires !IsUnreserved(c)
    ensures DecodeChar(Escape(Utf8(c)) + rest) == Some((c, 3 * |Utf8(c)|))
  {
    var cp := c as int;
    Utf8Bytes(c);
    ReadEscaped(Utf8(c), rest, 0);
    if cp < 0x80 {
      DecodeOne(Escape(Utf8(c)) + rest, Utf8(c)[0]);
    } else if cp < 0x800 {
      DecodeEscapedTwo(c, rest);
    } else if cp < 0x10000 {
      DecodeEscapedThree(c, rest);
    } else {
      DecodeEscapedFour(c, rest);
    }
  }

  lemma DecodeEscapedTwo(c: char, rest: string)
    requires 0x80 <= c as int < 0x800
    ensures DecodeChar(Escape(Utf8(c)) + rest) == Some((c, 6))
  {
    var bs := Utf8(c);
    Utf8Bytes(c);
    ReadEscaped(bs, rest, 0);
    ReadContinuationEscaped(bs, rest, 1);
    DecodeTwo(Escape(bs) + rest, bs[0], bs[1] - 0x80);
  }

  lemma DecodeEscapedThree(c: char, rest: string)
    requires 0x800 <= c as int < 0x10000
    ensures DecodeChar(Escape(Utf8(c)) + rest) == Some((c, 9))
  {
    var bs := Utf8(c);
    Utf8Bytes(c);
    ReadEscaped(bs, rest, 0);
    ReadContinuationEscaped(bs, rest, 1);
    ReadContinuationEscaped(bs, rest, 2);
    DecodeThree(Escape(bs) + rest, bs[0], bs[1] - 0x80, bs[2] - 0x80);
  }

  lemma DecodeEscapedFour(c: char, rest: string)
    requires 0x10000 <= c as int
    ensures DecodeChar(Escape(Utf8(c)) + rest) == Some((c, 12))
  {
    var bs := Utf8(c);
    Utf8Bytes(c);
    ReadEscaped(bs, rest, 0);
    ReadContinuationEscaped(bs, rest, 1);
    ReadContinuationEscaped(bs, rest, 2);
    ReadContinuationEscaped(bs, rest, 3);
    DecodeFour(Escape(bs) + rest, bs[0], bs[1] - 0x80, bs[2] - 0x80, bs[3] - 0x80);
  }

  /** Decoding the encoding of a character gives the character back and consumes exactly its encoding. */
  lemma DecodeEncodeChar(c: char, rest: string)
    ensures DecodeChar(EncodeChar(c) + rest) == Some((c, |EncodeChar(c)|))
  {
    if !IsUnreserved(c) {
      DecodeEscapedChar(c, rest);
    }
  }

  /** Round trip: decodeURIComponent undoes encodeURIComponent. */
  lemma {:induction false} DecodeEncode(s: string)
    ensures Decode(Encode(s)) == Some(s)
  {
    if s != [] {
      var head := EncodeChar(s[0]);
      var e := Encode(s);
      assert e == head + Encode(s[1..]);
      DecodeEncodeChar(s[0], Encode(s[1..]));
      assert DecodeChar(e) == Some((s[0], |head|));
      assert e[|head|..] == Encode(s[1..]);
      DecodeEncode(s[1..]);
      assert Decode(e) == Some([s[0]] + s[1..]);
      assert s == [s[0]] + s[1..];
    }
  }

  /** Two different strings never encode alike. */
  lemma EncodeInjective(s: string, t: string)
    requires Encode(s) == Encode(t)
    ensures s == t
  {
    DecodeEncode(s);
    DecodeEncode(t);
  }

  /** Every character of an encoded component is unreserved, a '%' or an upper-case hexadecimal digit. */
  predicate IsEncodedAlphabet(c: char) {
    IsUnreserved(c) || c == '%' || IsUpperHexDigit(c)
  }

  lemma {:induction false} EscapeAlphabet(bs: seq<Byte>)
    ensures forall i :: 0 <= i < |Escape(bs)| ==> IsEncodedAlphabet(Escape(bs)[i])
  {
    if bs != [] {
      EscapeAlphabet(bs[1..]);
      assert Escape(bs) == PercentByte(bs[0]) + Escape(bs[1..]);
    }
  }

  lemma {:induction false} EncodeAlphabet(s: string)
    ensures forall i :: 0 <= i < |Encode(s)| ==> IsEncodedAlphabet(Encode(s)[i])
  {
    if s != [] {
      EncodeAlphabet(s[1..]);
      EscapeAlphabet(Utf8(s[0]));
      assert Encode(s) == EncodeChar(s[0]) + Encode(s[1..]);
    }
  }

  /** An encoded component never holds a space, a slash, a '?', a '&', a '#', a '=' or a '$'. */
  lemma EncodeHasNoDelimiters(s: string)
    ensures forall i :: 0 <= i < |Encode(s)| ==> Encode(s)[i] !in " /?&#=$"
  {
    EncodeAlphabet(s);
  }

  /** Encoding leaves a string unchanged exactly when every character of it is unreserved. */
  lemma {:induction false} EncodeIdentity(s: string)
    ensures Encode(s) == s <==> forall i :: 0 <= i < |s| ==> IsUnreserved(s[i])
    ensures |Encode(s)| >= |s|
  {
    if s != [] {
      EncodeIdentity(s[1..]);
      assert Encode(s) == EncodeChar(s[0]) + Encode(s[1..]);
      if IsUnreserved(s[0]) {
        assert s == [s[0]] + s[1..];
        if Encode(s) == s {
          assert Encode(s[1..]) == Encode(s)[1..] == s[1..];
        }
        if forall i :: 0 <= i < |s| ==> IsUnreserved(s[i]) {
          assert forall i :: 0 <= i < |s[1..]| ==> IsUnreserved(s[1..][i]) by {
            forall i | 0 <= i < |s[1..]| ensures IsUnreserved(s[1..][i]) {
              assert s[1..][i] == s[i + 1];
            }
          }
        }
      } else {
        assert |EncodeChar(s[0])| >= 3;
      }
    }
  }
}
