/** Bytes and big-endian numbers on the wire. */
module Bytes {

  newtype byte = b: int | 0 <= b < 256

  type bytes = seq<byte>

  /** `w` stands in `data` at `off`. */
  ghost predicate Has(data: bytes, off: nat, w: bytes) {
    off + |w| <= |data| && data[off..off + |w|] == w
  }

  lemma HasLength(data: bytes, off: nat, w: bytes)
    ensures Has(data, off, w) ==> off + |w| <= |data|
  {
  }

  lemma HasParts(data: bytes, off: nat, a: bytes, b: bytes)
    ensures Has(data, off, a + b) <==> Has(data, off, a) && Has(data, off + |a|, b)
  {
    if Has(data, off, a) && Has(data, off + |a|, b) {
      assert data[off..off + |a + b|] == data[off..off + |a|] + data[off + |a|..off + |a| + |b|];
    }
    if Has(data, off, a + b) {
      assert data[off..off + |a|] == (a + b)[..|a|];
      assert data[off + |a|..off + |a| + |b|] == (a + b)[|a|..];
    }
  }

  function ReadU16(data: bytes, off: nat): (n: nat)
    requires off + 2 <= |data|
    ensures n < 0x1_0000
  {
    data[off] as nat * 0x100 + data[off + 1] as nat
  }

  function ReadU32(data: bytes, off: nat): (n: nat)
    requires off + 4 <= |data|
    ensures n < 0x1_0000_0000
  {
    ReadU16(data, off) * 0x1_0000 + ReadU16(data, off + 2)
  }

  /** Most significant byte first. */
  lemma BigEndian(data: bytes, off: nat)
    ensures off + 2 <= |data| ==> ReadU16(data, off) == 256 * data[off] as nat + data[off + 1] as nat
    ensures off + 4 <= |data| ==>
              ReadU32(data, off) == 16777216 * data[off] as nat + 65536 * data[off + 1] as nat
                                    + 256 * data[off + 2] as nat + data[off + 3] as nat
  {
  }

  function U16(n: nat): (w: bytes)
    requires n < 0x1_0000
    ensures |w| == 2
  {
    [(n / 0x100) as byte, (n % 0x100) as byte]
  }

  function U32(n: nat): (w: bytes)
    requires n < 0x1_0000_0000
    ensures |w| == 4
  {
    U16(n / 0x1_0000) + U16(n % 0x1_0000)
  }

  lemma U16RoundTrip(data: bytes, off: nat, n: nat)
    requires n < 0x1_0000 && Has(data, off, U16(n))
    ensures ReadU16(data, off) == n
  {
    assert data[off] == data[off..off + 2][0] && data[off + 1] == data[off..off + 2][1];
  }

  lemma U32RoundTrip(data: bytes, off: nat, n: nat)
    requires n < 0x1_0000_0000 && Has(data, off, U32(n))
    ensures ReadU32(data, off) == n
  {
    HasParts(data, off, U16(n / 0x1_0000), U16(n % 0x1_0000));
    U16RoundTrip(data, off, n / 0x1_0000);
    U16RoundTrip(data, off + 2, n % 0x1_0000);
  }
}
