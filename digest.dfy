/**
 * Bucket indexing of the hash table: the SHA-256 hexadecimal digest of a key,
 * the integer its first eight hexadecimal characters denote, and that integer
 * reduced modulo the number of buckets.
 *
 * The SHA-256 computation itself is a foreign primitive. It appears here only
 * as a total function from keys to 64-character lowercase hexadecimal
 * strings, which every operation takes as a parameter.
 */
module Digest {

  /** Length, in hexadecimal characters, of a SHA-256 digest. */
  const DigestLength: nat := 64

  /** Number of leading digest characters that the hash value is read from. */
  const PrefixLength: nat := 8

  predicate IsHexDigit(c: char) {
    '0' <= c <= '9' || 'a' <= c <= 'f'
  }

  predicate IsHexString(s: string) {
    forall i :: 0 <= i < |s| ==> IsHexDigit(s[i])
  }

  /** A SHA-256 digest in the lowercase hexadecimal form the hashing library returns. */
  type HexDigest = s: string | |s| == DigestLength && IsHexString(s)
    witness seq(DigestLength, _ => '0')

  /** The abstract SHA-256 primitive: deterministic, total, no salt. */
  type Sha256 = string -> HexDigest

  function Pow16(n: nat): (p: nat)
    ensures p >= 1
  {
    if n == 0 then 1 else 16 * Pow16(n - 1)
  }

  /** The lowercase hexadecimal digit for a value 0..15. */
  function HexChar(d: nat): (c: char)
    requires d < 16
    ensures IsHexDigit(c)
  {
    if d < 10 then ('0' as int + d) as char else ('a' as int + d - 10) as char
  }

  /** The value 0..15 of one hexadecimal digit; HexChar undoes it. */
  function DigitValue(c: char): (d: nat)
    requires IsHexDigit(c)
    ensures d < 16 && HexChar(d) == c
  {
    if '0' <= c <= '9' then c as int - '0' as int else c as int - 'a' as int + 10
  }

  /**
   * Base-16 reading of a string of hexadecimal digits, most significant digit
   * first: the integer that base-16 parsing gives for such a string.
   */
  function ParseHex(s: string): (n: nat)
    requires IsHexString(s)
    ensures n < Pow16(|s|)
  {
    if s == [] then 0
    else
      var prefix := s[..|s| - 1];
      var high := ParseHex(prefix);
      assert high <= Pow16(|prefix|) - 1;
      assert high * 16 <= Pow16(|s|) - 16;
      high * 16 + DigitValue(s[|s| - 1])
  }

  /**
   * The inverse of ParseHex: `n` written in exactly `width` lowercase
   * hexadecimal digits, padded with leading zeros. Used only to state what
   * ParseHex computes.
   */
  function ToHex(n: nat, width: nat): (s: string)
    ensures |s| == width && IsHexString(s)
  {
    if width == 0 then []
    else ToHex(n / 16, width - 1) + [HexChar(n % 16)]
  }

  /** Splitting off the last base-16 digit of `high * 16 + d`. */
  lemma LastDigit(high: nat, d: nat)
    requires d < 16
    ensures (high * 16 + d) / 16 == high && (high * 16 + d) % 16 == d
  {
  }

  /** A value below `16 * p` has a quotient by 16 below `p`. */
  lemma QuotientFits(n: nat, p: nat)
    requires n < 16 * p
    ensures n / 16 < p && n == (n / 16) * 16 + n % 16
  {
  }

  /** Writing a value that fits in `width` digits and parsing it back gives the value. */
  lemma {:induction false} ParseToHex(n: nat, width: nat)
    requires n < Pow16(width)
    ensures ParseHex(ToHex(n, width)) == n
  {
    if width > 0 {
      var s := ToHex(n, width);
      var high := ToHex(n / 16, width - 1);
      assert s == high + [HexChar(n % 16)];
      assert s[..|s| - 1] == high;
      QuotientFits(n, Pow16(width - 1));
      ParseToHex(n / 16, width - 1);
      assert ParseHex(s) == (n / 16) * 16 + DigitValue(HexChar(n % 16));
    }
  }

  /** Parsing a hexadecimal string and writing the result back at the same width gives the string. */
  lemma {:induction false} ToHexParse(s: string)
    requires IsHexString(s)
    ensures ToHex(ParseHex(s), |s|) == s
  {
    if s != [] {
      var prefix := s[..|s| - 1];
      var high := ParseHex(prefix);
      var d := DigitValue(s[|s| - 1]);
      LastDigit(high, d);
      ToHexParse(prefix);
      assert ToHex(ParseHex(s), |s|) == ToHex(high, |prefix|) + [HexChar(d)];
      assert s == prefix + [s[|s| - 1]];
    }
  }

  /**
   * The hash value of a key: the integer denoted by the first eight hexadecimal
   * characters of its SHA-256 digest. It is an unsigned 32-bit value, and
   * written back in eight hexadecimal digits it is exactly that digest prefix.
   */
  function Hash(sha256: Sha256, key: string): (h: nat)
    ensures h <= 0xFFFF_FFFF
    ensures ToHex(h, PrefixLength) == sha256(key)[..PrefixLength]
  {
    var prefix := sha256(key)[..PrefixLength];
    ToHexParse(prefix);
    assert Pow16(PrefixLength) == 0x1_0000_0000;
    ParseHex(prefix)
  }

  /**
   * The bucket of a key in a table of `capacity` buckets: the remainder of its
   * hash value on division by `capacity`, hence a valid bucket index.
   */
  function HashMod(sha256: Sha256, key: string, capacity: nat): (i: nat)
    requires capacity > 0
    ensures i < capacity
    ensures Hash(sha256, key) < capacity ==> i == Hash(sha256, key)
  {
    var h := Hash(sha256, key);
    RemainderBounds(h, capacity);
    h % capacity
  }

  lemma RemainderBounds(h: nat, c: nat)
    requires c > 0
    ensures h % c < c
    ensures h < c ==> h % c == h
  {
  }

  /**
   * The bucket is the remainder of the hash value: the hash value is some
   * multiple of `capacity` plus the bucket index.
   */
  lemma HashModIsRemainder(sha256: Sha256, key: string, capacity: nat) returns (q: nat)
    requires capacity > 0
    ensures Hash(sha256, key) == q * capacity + HashMod(sha256, key, capacity)
  {
    var h := Hash(sha256, key);
    q := h / capacity;
    Remainder(h, capacity);
  }

  /** Euclidean division of a natural number. */
  lemma Remainder(h: nat, c: nat)
    requires c > 0
    ensures h == (h / c) * c + h % c
  {
  }
}
