/**
 * Hex encoding of the digest in `FileScanner.execute`: every byte of
 * `MD.digest()` is appended to a `StringBuilder` as `String.format("%02x", b)`.
 */
module HexEncoding {
  import opened Wrappers

  /** A Java `byte`: signed, eight bits. */
  type JByte = b: int | -128 <= b < 128

  /** What `MessageDigest.digest()` returns for SHA-256: 32 bytes. */
  type Digest = d: seq<JByte> | |d| == 32 witness seq(32, _ => 0)

  /** `%x` formats a negative byte as the byte plus 2^8. */
  function Unsigned(b: JByte): (u: nat)
    ensures u < 256
    ensures (u - b) % 256 == 0
  {
    if b < 0 then b + 256 else b
  }

  /** The byte whose unsigned value is `u`. */
  function Signed(u: nat): (b: JByte)
    requires u < 256
    ensures Unsigned(b) == u
  {
    if u < 128 then u else u - 256
  }

  /** The lower-case hexadecimal digits `%x` prints. */
  predicate IsHexChar(c: char) {
    '0' <= c <= '9' || 'a' <= c <= 'f'
  }

  function HexDigit(n: nat): (c: char)
    requires n < 16
    ensures IsHexChar(c)
  {
    if n < 10 then ('0' as int + n) as char else ('a' as int + n - 10) as char
  }

  /** The reference decoder of one digit: the inverse of `HexDigit`. */
  function DigitValue(c: char): (r: Option<nat>)
    ensures r.Some? <==> IsHexChar(c)
    ensures r.Some? ==> r.value < 16 && HexDigit(r.value) == c
  {
    if '0' <= c <= '9' then Some(c as int - '0' as int)
    else if 'a' <= c <= 'f' then Some(c as int - 'a' as int + 10)
    else None
  }

  /** `String.format("%02x", b)`: two lower-case digits, high nibble first. */
  function Format02x(b: JByte): (s: string)
    ensures |s| == 2 && IsHexChar(s[0]) && IsHexChar(s[1])
    ensures DigitValue(s[0]).value * 16 + DigitValue(s[1]).value == Unsigned(b)
  {
    [HexDigit(Unsigned(b) / 16), HexDigit(Unsigned(b) % 16)]
  }

  /** The string the `StringBuilder` holds after appending every byte of `d`. */
  function HexOf(d: seq<JByte>): (s: string)
    ensures |s| == 2 * |d|
    ensures forall i :: 0 <= i < |s| ==> IsHexChar(s[i])
  {
    if d == [] then "" else HexOf(d[..|d| - 1]) + Format02x(d[|d| - 1])
  }

  /** A reference decoder: lower-case hex of even length back to signed bytes. */
  function Unhex(s: string): Option<seq<JByte>>
    decreases |s|
  {
    if s == [] then Some([])
    else if |s| < 2 then None
    else
      match (DigitValue(s[|s| - 2]), DigitValue(s[|s| - 1]), Unhex(s[..|s| - 2]))
      case (Some(hi), Some(lo), Some(init)) => Some(init + [Signed(hi * 16 + lo)])
      case _ => None
  }

  lemma SignedUnsigned(b: JByte)
    ensures Signed(Unsigned(b)) == b
  {
  }

  /** Decoding an encoded digest gives the digest back. */
  lemma {:induction false} UnhexHexOf(d: seq<JByte>)
    ensures Unhex(HexOf(d)) == Some(d)
  {
    if d != [] {
      var init, b := d[..|d| - 1], d[|d| - 1];
      var s := HexOf(d);
      assert s == HexOf(init) + Format02x(b);
      assert s[..|s| - 2] == HexOf(init);
      assert s[|s| - 2..] == Format02x(b);
      UnhexHexOf(init);
      SignedUnsigned(b);
      assert d == init + [b];
    }
  }

  /** Only the encoding of a byte sequence decodes, and only to that sequence. */
  lemma {:induction false} HexOfUnhex(s: string, d: seq<JByte>)
    requires Unhex(s) == Some(d)
    ensures HexOf(d) == s
  {
    if s != [] {
      var hi, lo := DigitValue(s[|s| - 2]).value, DigitValue(s[|s| - 1]).value;
      var init := Unhex(s[..|s| - 2]).value;
      assert d == init + [Signed(hi * 16 + lo)];
      HexOfUnhex(s[..|s| - 2], init);
      assert d[..|d| - 1] == init;
      var f := Format02x(d[|d| - 1]);
      assert Unsigned(d[|d| - 1]) == hi * 16 + lo;
      assert f[0] == HexDigit(hi) && f[1] == HexDigit(lo);
      assert s == s[..|s| - 2] + [s[|s| - 2], s[|s| - 1]];
    }
  }

  /** Distinct digests have distinct hex strings. */
  lemma HexOfInjective(a: seq<JByte>, b: seq<JByte>)
    requires HexOf(a) == HexOf(b)
    ensures a == b
  {
    UnhexHexOf(a);
    UnhexHexOf(b);
  }

  /** A SHA-256 digest encodes to 64 lower-case hex characters. */
  lemma DigestHexLength(d: Digest)
    ensures |HexOf(d)| == 64
  {
  }

  /** The `for` loop over `MD.digest()` with its `StringBuilder`. */
  method EncodeHex(digest: seq<JByte>) returns (hex: string)
    ensures hex == HexOf(digest)
  {
    hex := "";
    for i := 0 to |digest|
      invariant hex == HexOf(digest[..i])
    {
      assert digest[..i + 1][..i] == digest[..i];
      hex := hex + Format02x(digest[i]);
    }
    assert digest[..|digest|] == digest;
  }
}
