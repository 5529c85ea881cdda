/** Stand-ins for the SHA-1 and SHA-256 digests rendered in lower-case
    hexadecimal (`hex::encode(Sha1::digest(..))`). The cryptography is not
    modelled: a digest here is a deterministic polynomial fold of the input
    rendered with the real digest's width. Nothing in the model relies on
    collision resistance; the model relies only on determinism, width and
    the hexadecimal alphabet. */
module Digests {
  import opened Bytes

  predicate IsHexChar(c: char) {
    '0' <= c <= '9' || 'a' <= c <= 'f'
  }

  predicate IsHex(s: string) {
    forall c <- s :: IsHexChar(c)
  }

  /** The lower-case hexadecimal digit for `d`. */
  function HexChar(d: nat): (c: char)
    requires d < 16
    ensures IsHexChar(c)
  {
    if d < 10 then (('0' as int) + d) as char else (('a' as int) + d - 10) as char
  }

  /** `n` rendered as exactly `width` hexadecimal digits (higher digits are
      dropped, as a fixed-width digest would drop them). */
  function Hex(n: nat, width: nat): (h: string)
    ensures |h| == width && IsHex(h)
  {
    if width == 0 then [] else Hex(n / 16, width - 1) + [HexChar(n % 16)]
  }

  /** The last digit of a rendering is the number's lowest digit. */
  lemma HexLastDigit(n: nat, width: nat)
    requires width > 0
    ensures Hex(n, width)[width - 1] == HexChar(n % 16)
  {
  }

  const Modulus: nat := 0x1_0000_0000_0000_0000_0000_0000_0000_0000

  function FoldChars(s: string, acc: nat): nat {
    if s == [] then acc else FoldChars(s[1..], (acc * 131 + s[0] as int) % Modulus)
  }

  function FoldBytes(bs: seq<byte>, acc: nat): nat {
    if bs == [] then acc else FoldBytes(bs[1..], (acc * 257 + bs[0] as int) % Modulus)
  }

  /** Stand-in for the 40-digit SHA-1 hex digest of a string. */
  function Sha1Hex(s: string): (h: string)
    ensures |h| == 40 && IsHex(h)
  {
    Hex(FoldChars(s, 1), 40)
  }

  /** Stand-in for the 64-digit SHA-256 hex digest of a string. */
  function Sha256Hex(s: string): (h: string)
    ensures |h| == 64 && IsHex(h)
  {
    Hex(FoldChars(s, 2), 64)
  }

  /** Stand-in for a digest of raw bytes, `width` hex digits wide; `seed`
      tells the algorithms apart. */
  function BytesHex(bs: seq<byte>, seed: nat, width: nat): (h: string)
    ensures |h| == width && IsHex(h)
  {
    Hex(FoldBytes(bs, seed), width)
  }
}
