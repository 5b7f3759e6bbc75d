/**
 * Well-formed UTF-8 as section 4 of RFC 3629 ("Syntax of UTF-8 Byte
 * Sequences") defines it. This is the check PCRE applies to a subject
 * string before it runs a pattern compiled with the `u` modifier.
 */
module Utf8 {
  import opened PhpValue

  /** UTF8-tail = %x80-BF */
  predicate IsTail(b: byte)
  {
    0x80 <= b <= 0xBF
  }

  /** The three-octet alternatives of UTF8-3. */
  predicate IsThreeOctetChar(a: byte, b: byte, c: byte)
  {
    || (a == 0xE0 && 0xA0 <= b <= 0xBF && IsTail(c))
    || (0xE1 <= a <= 0xEC && IsTail(b) && IsTail(c))
    || (a == 0xED && 0x80 <= b <= 0x9F && IsTail(c))
    || (0xEE <= a <= 0xEF && IsTail(b) && IsTail(c))
  }

  /** The four-octet alternatives of UTF8-4. */
  predicate IsFourOctetChar(a: byte, b: byte, c: byte, d: byte)
  {
    || (a == 0xF0 && 0x90 <= b <= 0xBF && IsTail(c) && IsTail(d))
    || (0xF1 <= a <= 0xF3 && IsTail(b) && IsTail(c) && IsTail(d))
    || (a == 0xF4 && 0x80 <= b <= 0x8F && IsTail(c) && IsTail(d))
  }

  /** UTF8-char = UTF8-1 / UTF8-2 / UTF8-3 / UTF8-4: `c` encodes exactly one character. */
  predicate IsUtf8Char(c: seq<byte>)
  {
    || (|c| == 1 && c[0] <= 0x7F)
    || (|c| == 2 && 0xC2 <= c[0] <= 0xDF && IsTail(c[1]))
    || (|c| == 3 && IsThreeOctetChar(c[0], c[1], c[2]))
    || (|c| == 4 && IsFourOctetChar(c[0], c[1], c[2], c[3]))
  }

  /** How many octets a character starting with `lead` has; 0 when no character starts so. */
  function SequenceLength(lead: byte): (n: nat)
    ensures n <= 4
    ensures n == 0 <==> lead in {0xC0, 0xC1} || 0x80 <= lead <= 0xBF || 0xF5 <= lead
  {
    if lead <= 0x7F then 1
    else if 0xC2 <= lead <= 0xDF then 2
    else if 0xE0 <= lead <= 0xEF then 3
    else if 0xF0 <= lead <= 0xF4 then 4
    else 0
  }

  /** A character's first octet determines its length, so a string splits into characters in one way only. */
  lemma CharLengthFromLead(c: seq<byte>)
    requires IsUtf8Char(c)
    ensures |c| == SequenceLength(c[0]) > 0
  {
  }

  /** UTF8-octets = *( UTF8-char ), read from the front one character at a time. */
  predicate ValidUtf8(s: seq<byte>): (v: bool)
    ensures v && s != [] ==> SequenceLength(s[0]) > 0
    decreases |s|
  {
    if s == [] then true
    else
      var n := SequenceLength(s[0]);
      0 < n <= |s| && IsUtf8Char(s[..n]) && ValidUtf8(s[n..])
  }

  /** The octets of `cs` written one after another. */
  function Concat(cs: seq<seq<byte>>): (s: seq<byte>)
  {
    if cs == [] then [] else cs[0] + Concat(cs[1..])
  }

  /** Any sequence of characters, written out, is well-formed. */
  lemma {:induction false} ConcatOfCharsIsValid(cs: seq<seq<byte>>)
    requires forall i :: 0 <= i < |cs| ==> IsUtf8Char(cs[i])
    ensures ValidUtf8(Concat(cs))
  {
    if cs != [] {
      var c, s := cs[0], Concat(cs);
      CharLengthFromLead(c);
      ConcatOfCharsIsValid(cs[1..]);
      assert s[..|c|] == c;
      assert s[|c|..] == Concat(cs[1..]);
    }
  }

  /** The characters a well-formed string consists of: the converse of ConcatOfCharsIsValid. */
  function Chars(s: seq<byte>): (cs: seq<seq<byte>>)
    requires ValidUtf8(s)
    ensures Concat(cs) == s
    ensures forall i :: 0 <= i < |cs| ==> IsUtf8Char(cs[i])
    decreases |s|
  {
    if s == [] then []
    else
      var n := SequenceLength(s[0]);
      var rest := Chars(s[n..]);
      assert ([s[..n]] + rest)[1..] == rest;
      [s[..n]] + rest
  }

  /** A string splits into characters in one way only: any split is the one Chars finds. */
  lemma {:induction false} UniqueSplit(cs: seq<seq<byte>>, s: seq<byte>)
    requires forall i :: 0 <= i < |cs| ==> IsUtf8Char(cs[i])
    requires Concat(cs) == s
    ensures ValidUtf8(s) && cs == Chars(s)
  {
    ConcatOfCharsIsValid(cs);
    if cs != [] {
      CharLengthFromLead(cs[0]);
      assert s[..|cs[0]|] == cs[0];
      assert s[|cs[0]|..] == Concat(cs[1..]);
      UniqueSplit(cs[1..], s[|cs[0]|..]);
    }
  }

  /** Octets below 0x80 are one-octet characters, so pure ASCII is well-formed UTF-8. */
  lemma {:induction false} AsciiIsValidUtf8(s: seq<byte>)
    requires forall i :: 0 <= i < |s| ==> s[i] < 0x80
    ensures ValidUtf8(s)
  {
    if s != [] {
      AsciiIsValidUtf8(s[1..]);
    }
  }

  /**
   * The octets C0, C1 and F5 to FF never appear in well-formed UTF-8: stated
   * in section 1 of RFC 3629, and a consequence of the grammar of section 4.
   */
  lemma {:induction false} NeverAppearingOctets(s: seq<byte>)
    requires ValidUtf8(s)
    ensures forall i :: 0 <= i < |s| ==> s[i] != 0xC0 && s[i] != 0xC1 && s[i] < 0xF5
  {
    if s != [] {
      var n := SequenceLength(s[0]);
      NeverAppearingOctets(s[n..]);
      forall i | 0 <= i < |s|
        ensures s[i] != 0xC0 && s[i] != 0xC1 && s[i] < 0xF5
      {
        if i < n {
          assert s[i] == s[..n][i];
        } else {
          assert s[i] == s[n..][i - n];
        }
      }
    }
  }
}
