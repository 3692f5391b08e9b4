/** Little-endian integers, as `struct.pack` writes them and C structs hold them. */
module LittleEndian {
  type Byte = x: nat | x < 256
  type Bytes = seq<Byte>

  function Pow256(w: nat): (r: nat)
    ensures r > 0
  {
    if w == 0 then 1 else 256 * Pow256(w - 1)
  }

  /** The w low-order bytes of n, least significant first. */
  function Encode(n: nat, w: nat): (b: Bytes)
    ensures |b| == w
  {
    if w == 0 then [] else [n % 256] + Encode(n / 256, w - 1)
  }

  function Decode(b: Bytes): (n: nat)
    ensures n < Pow256(|b|)
  {
    if b == [] then 0 else b[0] + 256 * Decode(b[1..])
  }

  lemma {:induction false} DecodeEncode(n: nat, w: nat)
    requires n < Pow256(w)
    ensures Decode(Encode(n, w)) == n
  {
    if w > 0 {
      DecodeEncode(n / 256, w - 1);
      assert Encode(n, w)[1..] == Encode(n / 256, w - 1);
    }
  }

  /** Two's complement: what struct.pack "i" stores and reads. */
  predicate FitsI32(i: int) { -0x8000_0000 <= i < 0x8000_0000 }

  function EncodeI32(i: int): (b: Bytes)
    ensures |b| == 4
  {
    Encode(i % 0x1_0000_0000, 4)
  }

  function DecodeI32(b: Bytes): (i: int)
    requires |b| == 4
    ensures FitsI32(i)
  {
    var n := Decode(b);
    assert Pow256(4) == 0x1_0000_0000;
    if n < 0x8000_0000 then n else n - 0x1_0000_0000
  }

  lemma DecodeEncodeI32(i: int)
    requires FitsI32(i)
    ensures DecodeI32(EncodeI32(i)) == i
  {
    assert Pow256(4) == 0x1_0000_0000;
    DecodeEncode(i % 0x1_0000_0000, 4);
  }

  lemma Pow256Values()
    ensures Pow256(4) == 0x1_0000_0000 && Pow256(8) == 0x1_0000_0000_0000_0000
  {
    assert Pow256(4) == 0x1_0000_0000;
  }
}
