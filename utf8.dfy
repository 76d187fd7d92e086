/** UTF-8 well-formedness as the grammar of section 4 of RFC 3629 states it,
    with the encoder of scalar values as its partner: the grammar accepts a
    byte sequence exactly when it is the encoding of some sequence of scalar
    values. Go's utf8.Valid, which the binary sniffer calls, implements this
    grammar. */
module Utf8 {

  newtype byte = x: int | 0 <= x < 256

  /** UTF8-tail = %x80-BF */
  predicate IsTail(b: byte) {
    0x80 <= b <= 0xBF
  }

  /** Length of the well-formed character (UTF8-char) at the head of s,
      or 0 when s does not start with one. */
  function HeadLength(s: seq<byte>): (n: nat)
    ensures n <= |s| && n <= 4
    ensures n == 0 || s != []
  {
    if |s| == 0 then 0
    else
      var b0 := s[0];
      if b0 <= 0x7F then 1
      else if 0xC2 <= b0 <= 0xDF then
        if |s| >= 2 && IsTail(s[1]) then 2 else 0
      else if b0 == 0xE0 then
        if |s| >= 3 && 0xA0 <= s[1] <= 0xBF && IsTail(s[2]) then 3 else 0
      else if (0xE1 <= b0 <= 0xEC) || (0xEE <= b0 <= 0xEF) then
        if |s| >= 3 && IsTail(s[1]) && IsTail(s[2]) then 3 else 0
      else if b0 == 0xED then
        if |s| >= 3 && 0x80 <= s[1] <= 0x9F && IsTail(s[2]) then 3 else 0
      else if b0 == 0xF0 then
        if |s| >= 4 && 0x90 <= s[1] <= 0xBF && IsTail(s[2]) && IsTail(s[3]) then 4 else 0
      else if 0xF1 <= b0 <= 0xF3 then
        if |s| >= 4 && IsTail(s[1]) && IsTail(s[2]) && IsTail(s[3]) then 4 else 0
      else if b0 == 0xF4 then
        if |s| >= 4 && 0x80 <= s[1] <= 0x8F && IsTail(s[2]) && IsTail(s[3]) then 4 else 0
      else 0
  }

  /** UTF8-octets = *( UTF8-char ) */
  predicate Valid(s: seq<byte>)
    decreases |s|
  {
    s == [] || (HeadLength(s) > 0 && Valid(s[HeadLength(s)..]))
  }

  /** A Unicode scalar value: a code point that is not a surrogate. */
  predicate IsScalar(cp: int) {
    0 <= cp <= 0x10FFFF && !(0xD800 <= cp <= 0xDFFF)
  }

  /** The UTF-8 encoding of one scalar value (the table of section 3 of
      RFC 3629). */
  function Encode(cp: int): (s: seq<byte>)
    requires IsScalar(cp)
    ensures 1 <= |s| <= 4
  {
    if cp < 0x80 then [cp as byte]
    else if cp < 0x800 then
      [(0xC0 + cp / 64) as byte, (0x80 + cp % 64) as byte]
    else if cp < 0x10000 then
      [(0xE0 + cp / 4096) as byte, (0x80 + (cp / 64) % 64) as byte, (0x80 + cp % 64) as byte]
    else
      [(0xF0 + cp / 262144) as byte, (0x80 + (cp / 4096) % 64) as byte,
       (0x80 + (cp / 64) % 64) as byte, (0x80 + cp % 64) as byte]
  }

  predicate AllScalars(cps: seq<int>) {
    forall i :: 0 <= i < |cps| ==> IsScalar(cps[i])
  }

  function EncodeAll(cps: seq<int>): seq<byte>
    requires AllScalars(cps)
  {
    if cps == [] then [] else Encode(cps[0]) + EncodeAll(cps[1..])
  }

  /** The scalar value of the well-formed character at the head of s. */
  function DecodeHead(s: seq<byte>): (cp: int)
    requires HeadLength(s) > 0
  {
    var n := HeadLength(s);
    if n == 1 then s[0] as int
    else if n == 2 then (s[0] as int - 0xC0) * 64 + (s[1] as int - 0x80)
    else if n == 3 then
      (s[0] as int - 0xE0) * 4096 + (s[1] as int - 0x80) * 64 + (s[2] as int - 0x80)
    else
      (s[0] as int - 0xF0) * 262144 + (s[1] as int - 0x80) * 4096
        + (s[2] as int - 0x80) * 64 + (s[3] as int - 0x80)
  }

  function DecodeAll(s: seq<byte>): (cps: seq<int>)
    requires Valid(s)
    decreases |s|
  {
    if s == [] then [] else [DecodeHead(s)] + DecodeAll(s[HeadLength(s)..])
  }

  /** Digits of a two-byte scalar value in base 64. */
  lemma Split2(cp: int)
    requires 0x80 <= cp < 0x800
    ensures 2 <= cp / 64 < 32 && cp == (cp / 64) * 64 + cp % 64
  {
  }

  /** Digits of a three-byte scalar value, with the ranges section 4 of
      RFC 3629 gives for the second byte after 0xE0 and 0xED. */
  lemma Split3(cp: int)
    requires 0x800 <= cp < 0x10000 && !(0xD800 <= cp <= 0xDFFF)
    ensures 0 <= cp / 4096 < 16
    ensures cp == (cp / 4096) * 4096 + ((cp / 64) % 64) * 64 + cp % 64
    ensures cp / 4096 == 0 ==> (cp / 64) % 64 >= 32
    ensures cp / 4096 == 13 ==> (cp / 64) % 64 < 32
  {
    var a, q := cp / 4096, cp / 64;
    assert q / 64 == a;
  }

  /** Digits of a four-byte scalar value, with the ranges section 4 of
      RFC 3629 gives for the second byte after 0xF0 and 0xF4. */
  lemma Split4(cp: int)
    requires 0x10000 <= cp <= 0x10FFFF
    ensures 0 <= cp / 262144 <= 4
    ensures cp == (cp / 262144) * 262144 + ((cp / 4096) % 64) * 4096
                  + ((cp / 64) % 64) * 64 + cp % 64
    ensures cp / 262144 == 0 ==> (cp / 4096) % 64 >= 16
    ensures cp / 262144 == 4 ==> (cp / 4096) % 64 < 16
  {
    var q1, q2 := cp / 64, cp / 4096;
    assert q1 / 64 == q2;
    assert q2 / 64 == cp / 262144;
  }

  /** The grammar recognises the encoding of every scalar value as one
      character, whatever follows it. */
  lemma EncodeIsOneChar(cp: int, rest: seq<byte>)
    requires IsScalar(cp)
    ensures HeadLength(Encode(cp) + rest) == |Encode(cp)|
    ensures DecodeHead(Encode(cp) + rest) == cp
  {
    if cp < 0x80 {
    } else if cp < 0x800 {
      Split2(cp);
    } else if cp < 0x10000 {
      Split3(cp);
      Head3(cp, rest);
    } else {
      Split4(cp);
      Head4(cp, rest);
    }
  }

  lemma Head3(cp: int, rest: seq<byte>)
    requires IsScalar(cp) && 0x800 <= cp < 0x10000
    ensures HeadLength(Encode(cp) + rest) == 3
    ensures DecodeHead(Encode(cp) + rest) == cp
  {
    Split3(cp);
    var a, b, c := cp / 4096, (cp / 64) % 64, cp % 64;
    var s := Encode(cp) + rest;
    assert s[0] as int == 0xE0 + a && s[1] as int == 0x80 + b && s[2] as int == 0x80 + c;
  }

  lemma Head4(cp: int, rest: seq<byte>)
    requires IsScalar(cp) && 0x10000 <= cp
    ensures HeadLength(Encode(cp) + rest) == 4
    ensures DecodeHead(Encode(cp) + rest) == cp
  {
    Split4(cp);
    var a, b, c, d := cp / 262144, (cp / 4096) % 64, (cp / 64) % 64, cp % 64;
    var s := Encode(cp) + rest;
    assert s[0] as int == 0xF0 + a && s[1] as int == 0x80 + b;
    assert s[2] as int == 0x80 + c && s[3] as int == 0x80 + d;
  }

  /** Every byte sequence the encoder produces is well-formed UTF-8, and
      decoding it gives back the scalar values. */
  lemma {:induction false} EncodeAllValid(cps: seq<int>)
    requires AllScalars(cps)
    ensures Valid(EncodeAll(cps))
    ensures DecodeAll(EncodeAll(cps)) == cps
  {
    if cps != [] {
      var rest := EncodeAll(cps[1..]);
      EncodeIsOneChar(cps[0], rest);
      assert AllScalars(cps[1..]);
      EncodeAllValid(cps[1..]);
      assert (Encode(cps[0]) + rest)[|Encode(cps[0])|..] == rest;
    }
  }

  /** Base-64 digits of a value assembled from them. */
  lemma Digits(a: int, b: int, c: int, d: int)
    requires 0 <= a && 0 <= b < 64 && 0 <= c < 64 && 0 <= d < 64
    ensures var cp := a * 262144 + b * 4096 + c * 64 + d;
      cp / 262144 == a && (cp / 4096) % 64 == b && (cp / 64) % 64 == c && cp % 64 == d
  {
    var cp := a * 262144 + b * 4096 + c * 64 + d;
    assert cp / 64 == a * 4096 + b * 64 + c;
    assert cp / 4096 == a * 64 + b;
  }

  /** The head character of a well-formed sequence is the encoding of the
      scalar value it decodes to. */
  lemma DecodeHeadEncodes(s: seq<byte>)
    requires HeadLength(s) > 0
    ensures IsScalar(DecodeHead(s))
    ensures Encode(DecodeHead(s)) == s[..HeadLength(s)]
  {
    var n := HeadLength(s);
    if n == 2 {
      Decode2(s);
    } else if n == 3 {
      Decode3(s);
    } else if n == 4 {
      Decode4(s);
    }
  }

  lemma Decode2(s: seq<byte>)
    requires HeadLength(s) == 2
    ensures IsScalar(DecodeHead(s)) && Encode(DecodeHead(s)) == s[..2]
  {
    assert 0xC2 <= s[0] <= 0xDF && IsTail(s[1]);
    Digits(0, 0, s[0] as int - 0xC0, s[1] as int - 0x80);
  }

  lemma Head3Ranges(s: seq<byte>)
    requires HeadLength(s) == 3
    ensures 0xE0 <= s[0] <= 0xEF && IsTail(s[1]) && IsTail(s[2])
    ensures s[0] == 0xE0 ==> s[1] >= 0xA0
    ensures s[0] == 0xED ==> s[1] <= 0x9F
  {
  }

  lemma Decode3(s: seq<byte>)
    requires HeadLength(s) == 3
    ensures IsScalar(DecodeHead(s)) && Encode(DecodeHead(s)) == s[..3]
  {
    Head3Ranges(s);
    var a, b, c := s[0] as int - 0xE0, s[1] as int - 0x80, s[2] as int - 0x80;
    Digits(0, a, b, c);
    var cp := DecodeHead(s);
    assert cp == a * 4096 + b * 64 + c;
    assert IsScalar(cp);
    var e := Encode(cp);
    assert e[0] == s[0] && e[1] == s[1] && e[2] == s[2];
  }

  lemma Head4Ranges(s: seq<byte>)
    requires HeadLength(s) == 4
    ensures 0xF0 <= s[0] <= 0xF4 && IsTail(s[1]) && IsTail(s[2]) && IsTail(s[3])
    ensures s[0] == 0xF0 ==> s[1] >= 0x90
    ensures s[0] == 0xF4 ==> s[1] <= 0x8F
  {
  }

  lemma Decode4(s: seq<byte>)
    requires HeadLength(s) == 4
    ensures IsScalar(DecodeHead(s)) && Encode(DecodeHead(s)) == s[..4]
  {
    Head4Ranges(s);
    var a, b, c, d := s[0] as int - 0xF0, s[1] as int - 0x80, s[2] as int - 0x80, s[3] as int - 0x80;
    Digits(a, b, c, d);
    var cp := DecodeHead(s);
    assert cp == a * 262144 + b * 4096 + c * 64 + d;
    assert IsScalar(cp);
    var e := Encode(cp);
    assert e[0] == s[0] && e[1] == s[1] && e[2] == s[2] && e[3] == s[3];
  }

  /** Every well-formed sequence is the encoding of the scalar values it
      decodes to: together with EncodeAllValid, the grammar accepts exactly
      the encodings of scalar sequences. */
  lemma {:induction false} ValidIsEncoding(s: seq<byte>)
    requires Valid(s)
    ensures AllScalars(DecodeAll(s))
    ensures EncodeAll(DecodeAll(s)) == s
  {
    if s != [] {
      var n := HeadLength(s);
      DecodeHeadEncodes(s);
      ValidIsEncoding(s[n..]);
      var cps := DecodeAll(s);
      assert cps == [DecodeHead(s)] + DecodeAll(s[n..]);
      assert cps[1..] == DecodeAll(s[n..]);
      SplitAt(s, n);
    }
  }

  lemma SplitAt(s: seq<byte>, n: nat)
    requires n <= |s|
    ensures s[..n] + s[n..] == s
  {
  }

  /** A sequence of bytes below 0x80 (plain ASCII) is well-formed. */
  lemma {:induction false} AsciiValid(s: seq<byte>)
    requires forall i :: 0 <= i < |s| ==> s[i] < 0x80
    ensures Valid(s)
  {
    if s != [] {
      AsciiValid(s[1..]);
    }
  }

  /** Well-formedness is preserved by concatenation. */
  lemma {:induction false} ValidConcat(a: seq<byte>, b: seq<byte>)
    requires Valid(a) && Valid(b)
    ensures Valid(a + b)
  {
    if a != [] {
      var n := HeadLength(a);
      assert (a + b)[..n] == a[..n];
      HeadLengthPrefix(a, b);
      ValidConcat(a[n..], b);
      assert (a + b)[n..] == a[n..] + b;
    } else {
      assert a + b == b;
    }
  }

  /** The head character only depends on the bytes it spans. */
  lemma HeadLengthPrefix(a: seq<byte>, b: seq<byte>)
    requires HeadLength(a) > 0
    ensures HeadLength(a + b) == HeadLength(a)
  {
  }

  /** Dropping a well-formed ASCII prefix keeps the rest well-formed. */
  lemma {:induction false} ValidAfterAscii(a: seq<byte>, b: seq<byte>)
    requires forall i :: 0 <= i < |a| ==> a[i] < 0x80
    requires Valid(a + b)
    ensures Valid(b)
  {
    if a != [] {
      assert (a + b)[0] == a[0];
      assert (a + b)[1..] == a[1..] + b;
      ValidAfterAscii(a[1..], b);
    } else {
      assert a + b == b;
    }
  }

  /** Only the scalar value 0 (NUL) encodes to a sequence holding a 0 byte. */
  lemma {:induction false} EncodeAllNoNul(cps: seq<int>)
    requires AllScalars(cps)
    requires forall i :: 0 <= i < |cps| ==> cps[i] != 0
    ensures 0 !in EncodeAll(cps)
  {
    if cps != [] {
      EncodeAllNoNul(cps[1..]);
    }
  }
}
