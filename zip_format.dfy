/** Byte-level helpers shared by the ZIP structures the trimmer reads:
    little-endian fields, as used throughout PKWARE's APPNOTE.TXT. */
module ZipFormat {

  /** An octet. */
  newtype byte = x: int | 0 <= x < 0x100

  function Min(a: nat, b: nat): (m: nat)
    ensures m <= a && m <= b && (m == a || m == b)
  {
    if a <= b then a else b
  }

  /** Unsigned little-endian 16-bit field starting at offset i. */
  function U16LE(b: seq<byte>, i: nat): (v: nat)
    requires i + 2 <= |b|
    ensures v < 0x1_0000
  {
    b[i] as nat + 0x100 * b[i + 1] as nat
  }

  /** Unsigned little-endian 32-bit field starting at offset i. */
  function U32LE(b: seq<byte>, i: nat): (v: nat)
    requires i + 4 <= |b|
    ensures v < 0x1_0000_0000
  {
    U16LE(b, i) + 0x1_0000 * U16LE(b, i + 2)
  }

  /** The two bytes that encode x as a little-endian 16-bit field. */
  function LE16(x: nat): (b: seq<byte>)
    requires x < 0x1_0000
    ensures |b| == 2 && U16LE(b, 0) == x
  {
    [(x % 0x100) as byte, (x / 0x100) as byte]
  }

  /** The four bytes that encode x as a little-endian 32-bit field. */
  function LE32(x: nat): (b: seq<byte>)
    requires x < 0x1_0000_0000
    ensures |b| == 4 && U32LE(b, 0) == x
  {
    var lo, hi := LE16(x % 0x1_0000), LE16(x / 0x1_0000);
    assert (lo + hi)[2..] == hi;
    lo + hi
  }

  function Zeros(n: nat): (z: seq<byte>)
    ensures |z| == n && forall i :: 0 <= i < n ==> z[i] == 0
  {
    seq(n, _ => 0)
  }
}
