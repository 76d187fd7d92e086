/** The binary-versus-text decision of isBinary: it looks at the first read
    of at most 8000 bytes and calls the file binary when that sample holds a
    NUL byte or is not well-formed UTF-8. Opening and reading the file are
    the caller's concern (see Content), so the decision here is pure. */
module Sniff {
  import opened Utf8

  /** Size of the buffer isBinary reads into. */
  const SampleSize: nat := 8000

  /** The bytes one read of the buffer returns: the whole file when it is
      shorter than the buffer, its first 8000 bytes otherwise. */
  function Sample(data: seq<byte>): (s: seq<byte>)
    ensures |s| <= SampleSize && |s| <= |data|
    ensures s == data[..|s|]
    ensures |s| == SampleSize || s == data
  {
    if |data| <= SampleSize then data else data[..SampleSize]
  }

  /** The classification isBinary returns when the read succeeds. */
  predicate IsBinary(data: seq<byte>) {
    var sample := Sample(data);
    0 in sample || !Valid(sample)
  }

  /** A file is binary if and only if one of its first 8000 bytes is NUL or
      those bytes are not well-formed UTF-8. */
  lemma {:induction false} BinaryIff(data: seq<byte>)
    ensures IsBinary(data) <==>
      (exists i :: 0 <= i < |data| && i < SampleSize && data[i] == 0) ||
      !Valid(data[..if |data| < SampleSize then |data| else SampleSize])
  {
    var s := Sample(data);
    if exists i :: 0 <= i < |data| && i < SampleSize && data[i] == 0 {
      var i :| 0 <= i < |data| && i < SampleSize && data[i] == 0;
      assert s[i] == 0;
    }
    if 0 in s {
      var i :| 0 <= i < |s| && s[i] == 0;
      assert data[i] == 0;
    }
    assert data[..if |data| < SampleSize then |data| else SampleSize] == s;
  }

  /** The empty file is text. */
  lemma EmptyIsText()
    ensures !IsBinary([])
  {
  }

  /** Bytes after the first 8000 never change the classification. */
  lemma OnlySampleMatters(a: seq<byte>, b: seq<byte>)
    requires |a| >= SampleSize && |b| >= SampleSize
    requires a[..SampleSize] == b[..SampleSize]
    ensures IsBinary(a) == IsBinary(b)
  {
  }

  /** The encoding of NUL-free text that fits in the sample is text. */
  lemma TextIsText(cps: seq<int>)
    requires AllScalars(cps)
    requires forall i :: 0 <= i < |cps| ==> cps[i] != 0
    requires |EncodeAll(cps)| <= SampleSize
    ensures !IsBinary(EncodeAll(cps))
  {
    EncodeAllValid(cps);
    EncodeAllNoNul(cps);
  }

  /** Any NUL among the first 8000 bytes makes the file binary, whatever the
      rest of it holds. */
  lemma NulIsBinary(data: seq<byte>, i: nat)
    requires i < |data| && i < SampleSize && data[i] == 0
    ensures IsBinary(data)
  {
    assert Sample(data)[i] == 0;
  }

  /** The sample is one read, not a character-aware prefix: a well-formed
      text whose two-byte character straddles byte 8000 is classified as
      binary. */
  lemma StraddlingCharIsBinary()
    ensures var text := seq(SampleSize - 1, _ => 0x61 as byte) + [0xC3, 0xA9];
      Valid(text) && 0 !in text && IsBinary(text)
  {
    var ascii := seq(SampleSize - 1, _ => 0x61 as byte);
    var text := ascii + [0xC3, 0xA9];
    AsciiValid(ascii);
    assert HeadLength([0xC3, 0xA9]) == 2;
    assert Valid([0xC3, 0xA9][2..]);
    ValidConcat(ascii, [0xC3, 0xA9]);
    assert Sample(text) == ascii + [0xC3];
    assert HeadLength([0xC3]) == 0;
    if Valid(ascii + [0xC3]) {
      ValidAfterAscii(ascii, [0xC3]);
    }
  }

  /** The bytes of the unit test of isBinary, {0x00, 0xFF, 0x10}, are
      binary, and so are bytes without NUL that break the grammar
      (a lone 0xFF). */
  lemma SniffExamples()
    ensures IsBinary([0x00, 0xFF, 0x10])
    ensures IsBinary([0xFF])
    ensures !IsBinary([0x68, 0x69])
  {
    assert [0x00, 0xFF, 0x10][0] == 0;
    AsciiValid([0x68, 0x69]);
  }
}
