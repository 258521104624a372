/** Image identities (md5 hex digests) and the hex text of raw bytes. */
module Digests {
  import opened Basics

  /** The alphabet of `hexdigest()` and of `bytes.hex()`: 0-9 and a-f. */
  predicate IsHexChar(c: char) {
    '0' <= c <= '9' || 'a' <= c <= 'f'
  }

  predicate IsHexText(s: string) {
    forall i :: 0 <= i < |s| ==> IsHexChar(s[i])
  }

  /** What `hashlib.md5(data).hexdigest()` returns: 32 lower-case hex digits. */
  predicate IsHexDigest(s: string) {
    |s| == 32 && IsHexText(s)
  }

  type Digest = s: string | IsHexDigest(s) witness "00000000000000000000000000000000"

  /** A digest never contains the filename separator, so it survives the split in the audio endpoint. */
  lemma DigestHasNoUnderscore(d: Digest)
    ensures '_' !in d
  {
  }

  function HexDigit(n: int): (c: char)
    requires 0 <= n < 16
    ensures IsHexChar(c)
  {
    if n < 10 then ('0' as int + n) as char else ('a' as int + n - 10) as char
  }

  /** Value of a hex digit. */
  function DigitValue(c: char): (n: int)
    requires IsHexChar(c)
    ensures 0 <= n < 16 && HexDigit(n) == c
  {
    if c <= '9' then c as int - '0' as int else c as int - 'a' as int + 10
  }

  /** `bytes.hex()`: two lower-case hex digits per byte, high nibble first. */
  function Hex(b: Bytes): (r: string)
    ensures |r| == 2 * |b|
    ensures IsHexText(r)
  {
    if b == [] then "" else [HexDigit(b[0] as int / 16), HexDigit(b[0] as int % 16)] + Hex(b[1..])
  }

  /** The inverse of `Hex`: reads two digits per byte. */
  function Unhex(s: string): (b: Bytes)
    requires |s| % 2 == 0 && IsHexText(s)
    ensures |b| == |s| / 2
  {
    if s == [] then [] else [(DigitValue(s[0]) * 16 + DigitValue(s[1])) as byte] + Unhex(s[2..])
  }

  /** Reading back the two digits of one byte gives the byte. */
  lemma ByteDigitsRoundTrip(b: byte)
    ensures (DigitValue(HexDigit(b as int / 16)) * 16 + DigitValue(HexDigit(b as int % 16))) as byte == b
  {
    var n := b as int;
    HexDigitInjective(DigitValue(HexDigit(n / 16)), n / 16);
    HexDigitInjective(DigitValue(HexDigit(n % 16)), n % 16);
  }

  /** The hex text of an image determines the image. */
  lemma {:induction false} UnhexHex(b: Bytes)
    ensures Unhex(Hex(b)) == b
  {
    if b != [] {
      var hi, lo := HexDigit(b[0] as int / 16), HexDigit(b[0] as int % 16);
      var tail := Hex(b[1..]);
      assert Hex(b) == [hi, lo] + tail;
      UnhexCons(hi, lo, tail);
      ByteDigitsRoundTrip(b[0]);
      UnhexHex(b[1..]);
    }
  }

  /**
   * Decoding peels off the two leading digits. The proof is direct; automatic induction
   * on `tail` is switched off because the hypothesis it would add only slows the solver.
   */
  lemma {:induction false} UnhexCons(hi: char, lo: char, tail: string)
    requires IsHexChar(hi) && IsHexChar(lo)
    requires |tail| % 2 == 0 && IsHexText(tail)
    ensures IsHexText([hi, lo] + tail)
    ensures Unhex([hi, lo] + tail) == [(DigitValue(hi) * 16 + DigitValue(lo)) as byte] + Unhex(tail)
  {
    var s := [hi, lo] + tail;
    assert |s| == |tail| + 2;
    assert |s| % 2 == 0;
    assert s[0] == hi && s[1] == lo;
    assert s[2..] == tail;
  }

  lemma HexDigitInjective(m: int, n: int)
    requires 0 <= m < 16 && 0 <= n < 16
    requires HexDigit(m) == HexDigit(n)
    ensures m == n
  {
  }
}
