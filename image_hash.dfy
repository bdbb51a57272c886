/**
 * The content identifier of an image (get_image_hash): the SHA-256 digest of
 * the PNG bytes, written out by hexdigest() as 64 lower-case hexadecimal
 * characters. SHA-256 itself is a library function and is a parameter here;
 * the hexadecimal spelling of its 32 bytes is modelled exactly.
 */
module ImageHash {

  type Byte = x: int | 0 <= x < 256
  type Bytes = seq<Byte>

  /** A SHA-256 digest is 32 bytes long. */
  type Digest = d: Bytes | |d| == 32 witness seq(32, _ => 0)

  predicate IsHexDigit(c: char) {
    '0' <= c <= '9' || 'a' <= c <= 'f'
  }

  predicate IsHexString(s: string) {
    forall i :: 0 <= i < |s| ==> IsHexDigit(s[i])
  }

  /** The lower-case hexadecimal digit of a nibble. */
  function HexDigit(n: int): (c: char)
    requires 0 <= n < 16
    ensures IsHexDigit(c)
  {
    if n < 10 then ('0' as int + n) as char else ('a' as int + n - 10) as char
  }

  /** The value of a hexadecimal digit; inverse of HexDigit. */
  function NibbleValue(c: char): (n: int)
    requires IsHexDigit(c)
    ensures 0 <= n < 16 && HexDigit(n) == c
  {
    if c <= '9' then c as int - '0' as int else c as int - 'a' as int + 10
  }

  /** Two hexadecimal digits, high nibble first. */
  function HexByte(b: Byte): (s: string)
    ensures |s| == 2 && IsHexString(s)
    ensures NibbleValue(s[0]) * 16 + NibbleValue(s[1]) == b
  {
    [HexDigit(b / 16), HexDigit(b % 16)]
  }

  /** hexdigest(): every byte as two hexadecimal digits, in order. */
  function HexDigest(d: Bytes): (s: string)
    ensures |s| == 2 * |d|
    ensures IsHexString(s)
  {
    if d == [] then "" else HexByte(d[0]) + HexDigest(d[1..])
  }

  /** Reads a hexadecimal string back into the bytes it spells. */
  function Unhex(s: string): (d: Bytes)
    requires |s| % 2 == 0 && IsHexString(s)
    ensures |d| == |s| / 2
  {
    if s == [] then [] else [NibbleValue(s[0]) * 16 + NibbleValue(s[1])] + Unhex(s[2..])
  }

  /** get_image_hash(img_bytes) */
  function GetImageHash(sha256: Bytes -> Digest, img: Bytes): (h: string)
    ensures |h| == 64 && IsHexString(h)
  {
    HexDigest(sha256(img))
  }

  /** Reading the hexdigest back gives the digest. */
  lemma {:induction false} UnhexHexDigest(d: Bytes)
    ensures Unhex(HexDigest(d)) == d
  {
    if d != [] {
      var s := HexDigest(d);
      assert s == HexByte(d[0]) + HexDigest(d[1..]);
      assert s[2..] == HexDigest(d[1..]);
      UnhexHexDigest(d[1..]);
    }
  }

  /** Every even-length lower-case hexadecimal string is the hexdigest of some bytes. */
  lemma {:induction false} HexDigestUnhex(s: string)
    requires |s| % 2 == 0 && IsHexString(s)
    ensures HexDigest(Unhex(s)) == s
  {
    if s != [] {
      var b := NibbleValue(s[0]) * 16 + NibbleValue(s[1]);
      assert b / 16 == NibbleValue(s[0]) && b % 16 == NibbleValue(s[1]);
      assert Unhex(s) == [b] + Unhex(s[2..]);
      assert Unhex(s)[1..] == Unhex(s[2..]);
      HexDigestUnhex(s[2..]);
      assert s == s[..2] + s[2..];
    }
  }

  /**
   * Two images get the same hash string exactly when SHA-256 gives them the
   * same digest: hexdigest() neither merges nor splits digests.
   */
  lemma SameHashIffSameDigest(sha256: Bytes -> Digest, a: Bytes, b: Bytes)
    ensures GetImageHash(sha256, a) == GetImageHash(sha256, b) <==> sha256(a) == sha256(b)
  {
    UnhexHexDigest(sha256(a));
    UnhexHexDigest(sha256(b));
  }
}
