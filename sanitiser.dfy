/**
 * The checks a field value passes before it is written to the database
 * (`validate_property` and `validate_string`), over PHP byte strings.
 */
module Sanitiser {
  import opened PhpValue
  import opened Utf8
  import opened Subsequence

  /**
   * A field's options from the record's configuration. An option that is not
   * set, or set to null, is `Null` (PHP's `isset` is false for both).
   */
  datatype Options = Options(max: Value, multibyte: Value)

  /** `isset($config['multibyte']) && $config['multibyte'] === false` */
  predicate AsciiOnly(o: Options): (a: bool)
    ensures a ==> !Truthy(o.multibyte)
  {
    o.multibyte == Bool(false)
  }

  /** `preg_replace('/[\x80-\xFF]/', '', $value)`: every octet 0x80-0xFF deleted. */
  function StripHighBytes(s: seq<byte>): (r: seq<byte>)
    ensures |r| <= |s|
    ensures forall i :: 0 <= i < |r| ==> r[i] < 0x80
  {
    if s == [] then []
    else if s[0] < 0x80 then [s[0]] + StripHighBytes(s[1..])
    else StripHighBytes(s[1..])
  }

  /**
   * `preg_match('/^./u', $value)` succeeds: with `u`, PCRE refuses a subject
   * that is not well-formed UTF-8, and `.` matches any first character but a
   * line feed (PCRE's default newline).
   */
  predicate MatchesLeadingChar(s: seq<byte>): (m: bool)
    ensures m ==> |s| > 0 && SequenceLength(s[0]) > 0 && s[0] != 0x0A
  {
    ValidUtf8(s) && s != [] && s[0] != 0x0A
  }

  /**
   * `validate_string`. The later truncation step hands the value to a helper
   * and discards what it returns, so it leaves the value as it is.
   */
  function ValidateString(value: seq<byte>, opts: Options): (r: seq<byte>)
    ensures IsEmptyString(value) ==> r == []
    ensures AsciiOnly(opts) && !IsEmptyString(value) ==> r == StripHighBytes(value)
    ensures !AsciiOnly(opts) ==> (r == value || r == [])
    ensures !AsciiOnly(opts) && !IsEmptyString(value) ==> (r == value <==> MatchesLeadingChar(value))
    ensures ValidUtf8(r)
    ensures |r| <= |value|
  {
    if IsEmptyString(value) then
      []
    else if AsciiOnly(opts) then
      var stripped := StripHighBytes(value);
      AsciiIsValidUtf8(stripped);
      stripped
    else if !MatchesLeadingChar(value) then
      []
    else
      value
  }

  /** `validate_property`: strings are validated, every other value passes unchanged. */
  function ValidateProperty(value: Value, opts: Options): (r: Value)
    ensures !value.Str? ==> r == value
    ensures value.Str? ==> r.Str? && ValidUtf8(r.bytes) && |r.bytes| <= |value.bytes|
  {
    match value
    case Str(s) => Str(ValidateString(s, opts))
    case _ => value
  }

  /** Deleting high octets works piece by piece. */
  lemma {:induction false} StripConcat(a: seq<byte>, b: seq<byte>)
    ensures StripHighBytes(a + b) == StripHighBytes(a) + StripHighBytes(b)
  {
    if a == [] {
      assert a + b == b;
    } else {
      assert (a + b)[1..] == a[1..] + b;
      StripConcat(a[1..], b);
    }
  }

  /** The ASCII octets that remain keep their relative order. */
  lemma {:induction false} StripIsSubsequence(s: seq<byte>)
    ensures IsSubsequence(StripHighBytes(s), s)
  {
    if s == [] {
      assert IsEmbedding([], StripHighBytes(s), s);
    } else {
      StripIsSubsequence(s[1..]);
      var idx :| IsEmbedding(idx, StripHighBytes(s[1..]), s[1..]);
      assert [s[0]] + s[1..] == s;
      if s[0] < 0x80 {
        ExtendAtFront(idx, StripHighBytes(s[1..]), s[1..], s[0], true);
        assert IsEmbedding([0] + Shift(idx), StripHighBytes(s), s);
      } else {
        ExtendAtFront(idx, StripHighBytes(s[1..]), s[1..], s[0], false);
        assert IsEmbedding(Shift(idx), StripHighBytes(s), s);
      }
    }
  }

  /** Every ASCII octet survives as often as it occurs; no high octet survives. */
  lemma {:induction false} StripKeepsAsciiCounts(s: seq<byte>)
    ensures forall b: byte :: multiset(StripHighBytes(s))[b] == if b < 0x80 then multiset(s)[b] else 0
  {
    if s != [] {
      StripKeepsAsciiCounts(s[1..]);
      assert s == [s[0]] + s[1..];
      assert multiset(s) == multiset([s[0]]) + multiset(s[1..]);
    }
  }

  /** The filter changes a string exactly when it holds a high octet. */
  lemma {:induction false} StripFixedPoint(s: seq<byte>)
    ensures StripHighBytes(s) == s <==> forall i :: 0 <= i < |s| ==> s[i] < 0x80
  {
    if s != [] {
      StripFixedPoint(s[1..]);
      if s[0] >= 0x80 {
        assert |StripHighBytes(s)| < |s| by {
          assert StripHighBytes(s) == StripHighBytes(s[1..]);
        }
      } else {
        assert StripHighBytes(s) == [s[0]] + StripHighBytes(s[1..]);
        if forall i :: 0 <= i < |s| ==> s[i] < 0x80 {
          assert forall i :: 0 <= i < |s[1..]| ==> s[1..][i] < 0x80 by {
            forall i | 0 <= i < |s[1..]| ensures s[1..][i] < 0x80 {
              assert s[1..][i] == s[i + 1];
            }
          }
          assert s == [s[0]] + s[1..];
        }
      }
    }
  }

  /** Deleting the high octets twice is deleting them once. */
  lemma StripIdempotent(s: seq<byte>)
    ensures StripHighBytes(StripHighBytes(s)) == StripHighBytes(s)
  {
    StripFixedPoint(StripHighBytes(s));
  }

  /**
   * Validating a validated string changes nothing, except in one case: the
   * ASCII filter left just '0', which the empty check (made before the filter)
   * had let through, and a second pass empties it.
   */
  lemma ValidateStringIdempotent(value: seq<byte>, opts: Options)
    ensures var once := ValidateString(value, opts);
            ValidateString(once, opts) == once <==> once != [Zero]
  {
    var once := ValidateString(value, opts);
    if AsciiOnly(opts) && !IsEmptyString(value) && !IsEmptyString(once) {
      StripIdempotent(value);
    }
  }

  /** An input that shows the exception above: 0xE9 followed by '0'. */
  lemma ValidateStringNotIdempotentExample()
    ensures var opts := Options(Null, Bool(false));
            var once := ValidateString([0xE9, Zero], opts);
            once == [Zero] && ValidateString(once, opts) == []
  {
    assert StripHighBytes([0xE9, Zero]) == StripHighBytes([Zero]);
    assert [Zero][1..] == [];
  }

  /** With multibyte disabled, a high octet such as 0xE9 is deleted and nothing else. */
  lemma {:induction false} AsciiBranchDeletesHighOctet(a: seq<byte>, c: seq<byte>, opts: Options)
    requires AsciiOnly(opts)
    ensures ValidateString(a + [0xE9] + c, opts) == StripHighBytes(a) + StripHighBytes(c)
  {
    StripConcat(a + [0xE9], c);
    StripConcat(a, [0xE9]);
    assert StripHighBytes([0xE9]) == StripHighBytes([]);
  }

  /** A string that is not well-formed UTF-8 is emptied unless multibyte is disabled. */
  lemma MalformedIsEmptied(value: seq<byte>, opts: Options)
    requires !AsciiOnly(opts)
    requires !ValidUtf8(value)
    ensures ValidateString(value, opts) == []
  {
  }
}
