/**
The bit-exact FP4 re-layout of server/scripts/convert_ds4_dspark_draft_to_gguf.py: from the checkpoint's packing
(elements 2k and 2k+1 in byte k) to ggml's 17-byte MXFP4 blocks (a scale byte, then elements j and j+16 in byte j).
The reference for the result is ggml's own dequantizer, server/deps/llama.cpp/ggml/src/ggml-quants.c.
*/
module Mxfp4 {
  import opened Arith
  import Bfloat16

  type Bits = seq<bv8>

  function Low(b: bv8): bv8 { b & 0x0F }
  function High(b: bv8): bv8 { b >> 4 }
  function Pair(lo: bv8, hi: bv8): bv8 { lo | (hi << 4) }

  lemma PairSplits(b: bv8)
    ensures Pair(Low(b), High(b)) == b && Low(b) < 16 && High(b) < 16
  {}

  lemma PairJoins(lo: bv8, hi: bv8)
    requires lo < 16 && hi < 16
    ensures Low(Pair(lo, hi)) == lo && High(Pair(lo, hi)) == hi
  {}

  // ---- the two layouts

  /** Element e of the checkpoint packing. */
  function PackedNibble(q: Bits, e: nat): bv8
    requires e < 2 * |q|
  {
    if e % 2 == 0 then Low(q[e / 2]) else High(q[e / 2])
  }

  /** Element j of the 32 packed in bytes 16 * g and following. */
  function PackedAt(q: Bits, g: nat, j: nat): bv8
    requires 16 * g + 16 <= |q| && j < 32
  {
    if j % 2 == 0 then Low(q[16 * g + j / 2]) else High(q[16 * g + j / 2])
  }

  /** Element j of ggml block g. */
  function BlockAt(blocks: Bits, g: nat, j: nat): bv8
    requires 17 * g + 17 <= |blocks| && j < 32
  {
    if j < 16 then Low(blocks[17 * g + 1 + j]) else High(blocks[17 * g + 1 + (j - 16)])
  }

  function BlockScale(blocks: Bits, g: nat): bv8
    requires 17 * g + 17 <= |blocks|
  {
    blocks[17 * g]
  }

  /** `blocks` is the ggml form of the elements of q with one scale per 32 of them. */
  ghost predicate IsRepack(q: Bits, scales: Bits, blocks: Bits) {
    && |q| == 16 * |scales| && |blocks| == 17 * |scales|
    && (forall g, j :: 0 <= g < |scales| && 0 <= j < 32 ==> BlockAt(blocks, g, j) == PackedAt(q, g, j))
    && forall g :: 0 <= g < |scales| ==> BlockScale(blocks, g) == scales[g]
  }

  lemma NibbleNumbers(b: bv8)
    ensures Low(b) as nat == b as nat % 16 && High(b) as nat == b as nat / 16
  {
    LowNumber(b);
    HighNumber(b);
    hide Low, High;
  }

  lemma LowNumber(b: bv8)
    ensures Low(b) as nat == b as nat % 16
  {}

  lemma HighNumber(b: bv8)
    ensures High(b) as nat == b as nat / 16
  {}

  /** Both layouts keep their earlier element in byte % 16 and their later one in byte / 16: the checkpoint pairs
      neighbours, a ggml block pairs elements that are 16 apart. */
  lemma NibbleOrder(q: Bits, blocks: Bits, g: nat, i: nat)
    requires 16 * g + 16 <= |q| && 17 * g + 17 <= |blocks| && i < 16
    ensures PackedAt(q, g, 2 * i) as nat == q[16 * g + i] as nat % 16
    ensures PackedAt(q, g, 2 * i + 1) as nat == q[16 * g + i] as nat / 16
    ensures BlockAt(blocks, g, i) as nat == blocks[17 * g + 1 + i] as nat % 16
    ensures BlockAt(blocks, g, 16 + i) as nat == blocks[17 * g + 1 + i] as nat / 16
  {
    hide Low, High;
    NibbleNumbers(q[16 * g + i]);
    NibbleNumbers(blocks[17 * g + 1 + i]);
  }

  lemma PackedTogether(q: Bits, g: nat, j: nat)
    requires 16 * g + 16 <= |q| && j < 32
    ensures PackedNibble(q, 32 * g + j) == PackedAt(q, g, j)
  {
    hide Low, High;
    assert (32 * g + j) / 2 == 16 * g + j / 2 && (32 * g + j) % 2 == j % 2;
  }

  // ---- repack_mxfp4

  datatype Error = DtypeAssert | ReshapeError | ScaleShapeAssert
  datatype Result = Ok(blocks: Bits) | Err(error: Error)

  /** repack_mxfp4 on raw tensors: `i8` is the dtype test, shape and scaleShape come from the safetensors header. */
  method Repack(i8: bool, shape: seq<nat>, q: Bits, scaleShape: seq<nat>, scales: Bits) returns (r: Result)
    ensures !i8 ==> r == Err(DtypeAssert)
    ensures i8 && (|shape| != 2 || |q| != shape[0] * shape[1]) ==> r == Err(ReshapeError)
    ensures i8 && |shape| == 2 && |q| == shape[0] * shape[1] ==>
      if scaleShape != [shape[0], shape[1] * 2 / 32] then r == Err(ScaleShapeAssert)
      else if |q| != 16 * (shape[0] * (shape[1] * 2 / 32)) || |scales| != shape[0] * (shape[1] * 2 / 32)
      then r == Err(ReshapeError)
      else r.Ok? && IsRepack(q, scales, r.blocks)
  {
    if !i8 {
      return Err(DtypeAssert);
    }
    if |shape| != 2 || |q| != shape[0] * shape[1] {
      return Err(ReshapeError);
    }
    var out, half := shape[0], shape[1];
    var nib := SplitNibbles(q);
    var nb := half * 2 / 32;
    if scaleShape != [out, nb] {
      return Err(ScaleShapeAssert);
    }
    if |q| != 16 * (out * nb) || |scales| != out * nb {
      return Err(ReshapeError);
    }
    var blocks := FillBlocks(nib, scales);
    RepackFromNibbles(q, scales, nib, blocks);
    return Ok(blocks);
  }

  /** nib[:, 0::2] and nib[:, 1::2]. */
  method SplitNibbles(q: Bits) returns (r: Bits)
    ensures |r| == 2 * |q| && forall e :: 0 <= e < |r| ==> r[e] == PackedNibble(q, e)
  {
    var nib := new bv8[2 * |q|];
    for k := 0 to |q|
      invariant forall e :: 0 <= e < 2 * k && e % 2 == 0 ==> nib[e] == PackedNibble(q, e)
    {
      nib[2 * k] := Low(q[k]);
    }
    for k := 0 to |q|
      invariant forall e :: 0 <= e < nib.Length && e % 2 == 0 ==> nib[e] == PackedNibble(q, e)
      invariant forall e :: 0 <= e < 2 * k && e % 2 == 1 ==> nib[e] == PackedNibble(q, e)
    {
      nib[2 * k + 1] := High(q[k]);
    }
    r := nib[..];
  }

  /** Byte i of the ggml rows, from the split nibbles. */
  function BlockByte(nib: Bits, scales: Bits, i: nat): bv8
    requires |nib| == 32 * |scales| && i < 17 * |scales|
  {
    var g, j := i / 17, i % 17;
    if j == 0 then scales[g] else Pair(nib[32 * g + (j - 1)], nib[32 * g + 16 + (j - 1)])
  }

  /** blocks[:, :, 0] and blocks[:, :, 1:]. */
  method FillBlocks(nib: Bits, scales: Bits) returns (r: Bits)
    requires |nib| == 32 * |scales|
    ensures |r| == 17 * |scales|
    ensures forall i :: 0 <= i < |r| ==> r[i] == BlockByte(nib, scales, i)
  {
    var blocks := new bv8[17 * |scales|];
    for g := 0 to |scales|
      invariant forall i :: 0 <= i < 17 * g && i % 17 == 0 ==> blocks[i] == BlockByte(nib, scales, i)
    {
      blocks[17 * g] := scales[g];
    }
    for g := 0 to |scales|
      invariant forall i :: 0 <= i < blocks.Length && i % 17 == 0 ==> blocks[i] == BlockByte(nib, scales, i)
      invariant forall i :: 0 <= i < 17 * g ==> blocks[i] == BlockByte(nib, scales, i)
    {
      for j := 0 to 16
        invariant forall i :: 0 <= i < blocks.Length && i % 17 == 0 ==> blocks[i] == BlockByte(nib, scales, i)
        invariant forall i :: 0 <= i < 17 * g + 1 + j ==> blocks[i] == BlockByte(nib, scales, i)
      {
        hide Pair;
        assert (17 * g + 1 + j) / 17 == g && (17 * g + 1 + j) % 17 == 1 + j;
        blocks[17 * g + 1 + j] := Pair(nib[32 * g + j], nib[32 * g + 16 + j]);
      }
    }
    r := blocks[..];
  }

  /** The blocks filled from the split nibbles hold every element at its ggml position. */
  lemma RepackFromNibbles(q: Bits, scales: Bits, nib: Bits, blocks: Bits)
    requires |q| == 16 * |scales| && |nib| == 2 * |q| && |blocks| == 17 * |scales|
    requires forall e :: 0 <= e < |nib| ==> nib[e] == PackedNibble(q, e)
    requires forall i :: 0 <= i < |blocks| ==> blocks[i] == BlockByte(nib, scales, i)
    ensures IsRepack(q, scales, blocks)
  {
    hide PackedNibble, BlockByte, BlockAt, PackedAt;
    forall g, j | 0 <= g < |scales| && 0 <= j < 32 ensures BlockAt(blocks, g, j) == PackedAt(q, g, j) {
      var i := if j < 16 then j else j - 16;
      PackedTogether(q, g, i);
      PackedTogether(q, g, 16 + i);
      NibbleSmall(q, g, i);
      NibbleSmall(q, g, 16 + i);
      assert nib[32 * g + i] == PackedAt(q, g, i) && nib[32 * g + (16 + i)] == PackedAt(q, g, 16 + i);
      NibbleInBlock(nib, scales, blocks, g, i);
      ElementInBlock(blocks, g, i, PackedAt(q, g, i), PackedAt(q, g, 16 + i));
    }
    forall g | 0 <= g < |scales| ensures BlockScale(blocks, g) == scales[g] { ScaleInBlock(nib, scales, blocks, g); }
  }

  lemma NibbleInBlock(nib: Bits, scales: Bits, blocks: Bits, g: nat, i: nat)
    requires |nib| == 32 * |scales| && |blocks| == 17 * |scales| && g < |scales| && i < 16
    requires blocks[17 * g + 1 + i] == BlockByte(nib, scales, 17 * g + 1 + i)
    ensures blocks[17 * g + 1 + i] == Pair(nib[32 * g + i], nib[32 * g + (16 + i)])
  {
    hide Pair;
    assert (17 * g + 1 + i) / 17 == g && (17 * g + 1 + i) % 17 == 1 + i;
  }

  lemma ScaleInBlock(nib: Bits, scales: Bits, blocks: Bits, g: nat)
    requires |nib| == 32 * |scales| && |blocks| == 17 * |scales| && g < |scales|
    requires blocks[17 * g] == BlockByte(nib, scales, 17 * g)
    ensures blocks[17 * g] == scales[g]
  {
    hide Pair;
    assert 17 * g / 17 == g && 17 * g % 17 == 0;
  }

  lemma ElementInBlock(blocks: Bits, g: nat, i: nat, lo: bv8, hi: bv8)
    requires 17 * g + 17 <= |blocks| && i < 16 && lo < 16 && hi < 16
    requires blocks[17 * g + 1 + i] == Pair(lo, hi)
    ensures BlockAt(blocks, g, i) == lo && BlockAt(blocks, g, 16 + i) == hi
  {
    PairJoins(lo, hi);
    hide Low, High, Pair;
  }

  lemma NibbleSmall(q: Bits, g: nat, j: nat)
    requires 16 * g + 16 <= |q| && j < 32
    ensures PackedAt(q, g, j) < 16
  {
    PairSplits(q[16 * g + j / 2]);
    hide Low, High, Pair;
  }

  lemma BlockSmall(blocks: Bits, g: nat, j: nat)
    requires 17 * g + 17 <= |blocks| && j < 32
    ensures BlockAt(blocks, g, j) < 16
  {
    PairSplits(blocks[17 * g + 1 + (if j < 16 then j else j - 16)]);
    hide Low, High, Pair;
  }

  // ---- the repack loses nothing

  /** The inverse layout change: byte k of group g. */
  function UnpackAt(blocks: Bits, g: nat, k: nat): bv8
    requires 17 * g + 17 <= |blocks| && k < 16
  {
    Pair(BlockAt(blocks, g, 2 * k), BlockAt(blocks, g, 2 * k + 1))
  }

  function UnpackBytes(blocks: Bits, n: nat): (q: Bits)
    requires |blocks| == 17 * n
    ensures |q| == 16 * n
  {
    seq(16 * n, i requires 0 <= i < 16 * n => UnpackAt(blocks, i / 16, i % 16))
  }

  function UnpackScales(blocks: Bits, n: nat): (s: Bits)
    requires |blocks| == 17 * n
  {
    seq(n, g requires 0 <= g < n => BlockScale(blocks, g))
  }

  lemma UnpackedAt(blocks: Bits, n: nat, g: nat, k: nat)
    requires |blocks| == 17 * n && g < n && k < 16
    ensures UnpackBytes(blocks, n)[16 * g + k] == UnpackAt(blocks, g, k)
  {
    hide UnpackAt;
    assert (16 * g + k) / 16 == g && (16 * g + k) % 16 == k;
  }

  /** From the blocks alone both checkpoint tensors are recovered. */
  lemma RepackInvertible(q: Bits, scales: Bits, blocks: Bits)
    requires IsRepack(q, scales, blocks)
    ensures UnpackBytes(blocks, |scales|) == q && UnpackScales(blocks, |scales|) == scales
  {
    hide UnpackAt, BlockAt, PackedAt, BlockScale, UnpackBytes;
    forall i | 0 <= i < |q| ensures UnpackBytes(blocks, |scales|)[i] == q[i] {
      var g, k := i / 16, i % 16;
      UnpackedAt(blocks, |scales|, g, k);
      RecoveredByte(q, scales, blocks, g, k);
    }
  }

  lemma IsRepackLengths(q: Bits, scales: Bits, blocks: Bits)
    requires IsRepack(q, scales, blocks)
    ensures |q| == 16 * |scales| && |blocks| == 17 * |scales|
  {
    hide BlockAt, PackedAt, BlockScale;
  }

  lemma RecoveredByte(q: Bits, scales: Bits, blocks: Bits, g: nat, k: nat)
    requires IsRepack(q, scales, blocks) && g < |scales| && k < 16
    ensures UnpackAt(blocks, g, k) == q[16 * g + k]
  {
    assert BlockAt(blocks, g, 2 * k) == PackedAt(q, g, 2 * k) by { hide BlockAt, PackedAt, BlockScale; }
    assert BlockAt(blocks, g, 2 * k + 1) == PackedAt(q, g, 2 * k + 1) by { hide BlockAt, PackedAt, BlockScale; }
    PairSplits(q[16 * g + k]);
    hide Low, High, Pair, BlockAt, IsRepack;
    assert 2 * k / 2 == k && (2 * k + 1) / 2 == k;
  }

  /** The blocks are determined by the tensors, so repacking is a bijection onto whole blocks. */
  lemma RepackUnique(q: Bits, scales: Bits, a: Bits, b: Bits)
    requires IsRepack(q, scales, a) && IsRepack(q, scales, b)
    ensures a == b
  {
    hide IsRepack;
    IsRepackLengths(q, scales, a);
    IsRepackLengths(q, scales, b);
    forall i | 0 <= i < |a| ensures a[i] == b[i] {
      var g, j := i / 17, i % 17;
      if j == 0 { SameScale(q, scales, a, b, g); } else { SameByte(q, scales, a, b, g, j - 1); }
    }
  }

  lemma SameScale(q: Bits, scales: Bits, a: Bits, b: Bits, g: nat)
    requires IsRepack(q, scales, a) && IsRepack(q, scales, b) && g < |scales|
    ensures a[17 * g] == b[17 * g]
  {
    hide BlockAt, PackedAt;
    assert BlockScale(a, g) == scales[g] == BlockScale(b, g);
  }

  lemma SameByte(q: Bits, scales: Bits, a: Bits, b: Bits, g: nat, j: nat)
    requires IsRepack(q, scales, a) && IsRepack(q, scales, b) && g < |scales| && j < 16
    ensures a[17 * g + 1 + j] == b[17 * g + 1 + j]
  {
    assert BlockAt(a, g, j) == BlockAt(b, g, j) && BlockAt(a, g, 16 + j) == BlockAt(b, g, 16 + j) by {
      hide BlockAt, PackedAt, BlockScale;
    }
    PairSplits(a[17 * g + 1 + j]);
    PairSplits(b[17 * g + 1 + j]);
    hide Low, High, Pair, IsRepack;
  }

  /** Every sequence of whole blocks is the repack of what is unpacked from it. */
  lemma EveryBlockIsARepack(blocks: Bits, n: nat)
    requires |blocks| == 17 * n
    ensures IsRepack(UnpackBytes(blocks, n), UnpackScales(blocks, n), blocks)
  {
    hide BlockAt, PackedAt, UnpackBytes, BlockScale;
    var q := UnpackBytes(blocks, n);
    forall g, j | 0 <= g < n && 0 <= j < 32 ensures BlockAt(blocks, g, j) == PackedAt(q, g, j) {
      UnpackedAt(blocks, n, g, j / 2);
      UnpackedNibble(blocks, q, g, j);
    }
  }

  lemma UnpackedNibble(blocks: Bits, q: Bits, g: nat, j: nat)
    requires j < 32 && 16 * g + 16 <= |q| && 17 * g + 17 <= |blocks| && q[16 * g + j / 2] == UnpackAt(blocks, g, j / 2)
    ensures BlockAt(blocks, g, j) == PackedAt(q, g, j)
  {
    hide BlockAt, Low, High, Pair;
    var k := j / 2;
    BlockSmall(blocks, g, 2 * k);
    BlockSmall(blocks, g, 2 * k + 1);
    PairJoins(BlockAt(blocks, g, 2 * k), BlockAt(blocks, g, 2 * k + 1));
    assert j == 2 * k || j == 2 * k + 1;
  }

  // ---- the dequantized matrices

  /** E2M1, the FP4 values of section 5.3.3 of the OCP Microscaling Formats (MX) specification v1.0. */
  function E2M1(n: bv8): real
    requires n < 16
  {
    var m := n & 0x07;
    var v := if m == 0 then 0.0 else if m == 1 then 0.5 else if m == 2 then 1.0 else if m == 3 then 1.5
      else if m == 4 then 2.0 else if m == 5 then 3.0 else if m == 6 then 4.0 else 6.0;
    if n < 8 then v else -v
  }

  /** One sign bit, two exponent bits with bias 1, one mantissa bit, and subnormals at exponent 0. */
  lemma E2M1Format(sign: bv8, exponent: bv8, mantissa: bv8)
    requires sign < 2 && exponent < 4 && mantissa < 2
    ensures var n := (sign << 3) | (exponent << 1) | mantissa;
      var half := if mantissa == 1 then 0.5 else 0.0;
      var power := if exponent == 1 then 1.0 else if exponent == 2 then 2.0 else 4.0;
      var size := if exponent == 0 then half else power * (1.0 + half);
      n < 16 && E2M1(n) == if sign == 0 then size else -size
  {}

  /** kvalues_mxfp4 of ggml: the E2M1 values doubled. */
  function KValue(n: bv8): int
    requires n < 16
  {
    if n == 0 then 0 else if n == 1 then 1 else if n == 2 then 2 else if n == 3 then 3
    else if n == 4 then 4 else if n == 5 then 6 else if n == 6 then 8 else if n == 7 then 12
    else if n == 8 then 0 else if n == 9 then -1 else if n == 10 then -2 else if n == 11 then -3
    else if n == 12 then -4 else if n == 13 then -6 else if n == 14 then -8 else -12
  }

  datatype Scale = Finite(units: nat) | Infinite

  /** e8m0 of the converter, in units of 2^-149: ldexp(1, b - 127), which overflows float32 for b = 255. */
  function E8M0(b: bv8): Scale {
    if b == 255 then Infinite else Finite(Bfloat16.Pow2(b as nat + 22))
  }

  /** The float32 bits ggml builds for half the scale: 0x00200000 << x below 2, (x - 1) << 23 from 2 on. */
  function HalfScaleBits(x: nat): nat {
    if x < 2 then 0x0020_0000 * Bfloat16.Pow2(x) else (x - 1) * 0x80_0000
  }

  function HalfScale(b: bv8): Scale { Finite(Bfloat16.Value(HalfScaleBits(b as nat))) }

  lemma {:induction false} Pow2Sum(a: nat, b: nat)
    ensures Bfloat16.Pow2(a + b) == Bfloat16.Pow2(a) * Bfloat16.Pow2(b)
  {
    if a > 0 {
      Pow2Sum(a - 1, b);
      MulAssoc(2, Bfloat16.Pow2(a - 1), Bfloat16.Pow2(b));
    }
  }

  /** ggml's half scale is 2^(x - 128) for every scale byte, the two subnormal patterns included. */
  lemma HalfScaleValue(x: nat)
    ensures Bfloat16.Value(HalfScaleBits(x)) == Bfloat16.Pow2(x + 21)
  {
    assert Bfloat16.Pow2(21) == 0x20_0000 by {
      assert Bfloat16.Pow2(11) == 0x800; Pow2Sum(11, 10); assert Bfloat16.Pow2(10) == 0x400;
    }
    if x < 2 {
      assert Bfloat16.Pow2(1) == 2 && Bfloat16.Pow2(0) == 1;
    } else {
      var m := HalfScaleBits(x);
      assert m / 0x80_0000 == x - 1 && m % 0x80_0000 == 0;
      assert Bfloat16.Ulp(m) == Bfloat16.Pow2(x - 2);
      Pow2Sum(23, x - 2);
      Pow2Sum(2, 21);
      assert Bfloat16.Pow2(2) == 4;
    }
  }

  lemma DoubledValues(n: bv8)
    requires n < 16
    ensures KValue(n) as real == 2.0 * E2M1(n)
  {}

  /** The two scale decoders: the converter's is twice ggml's half scale below 255; at 255 the converter's overflows
      float32 while ggml's half scale is 2^127. */
  lemma ScaleValues(b: bv8)
    ensures HalfScale(b) == Finite(Bfloat16.Pow2(b as nat + 21))
    ensures E8M0(b) == if b == 255 then Infinite else Finite(2 * Bfloat16.Pow2(b as nat + 21))
  {
    HalfScaleValue(b as nat);
    Pow2Double(b as nat + 21);
    hide Bfloat16.Pow2, Bfloat16.Value, HalfScaleBits;
  }

  lemma Pow2Double(k: nat)
    ensures Bfloat16.Pow2(k + 1) == 2 * Bfloat16.Pow2(k)
  {}

  /** In units of 2^-149 the float32 value 2^127 is 2^276. */
  lemma ScaleAt255()
    ensures E8M0(255) == Infinite && HalfScale(255) == Finite(Bfloat16.Pow2(276))
  {
    hide Bfloat16.Pow2, Bfloat16.Value, HalfScaleBits, E8M0, HalfScale;
    ScaleValues(255);
  }

  /** The two dequantizers give the same number for every nibble and every scale byte below 255. */
  lemma DequantizersAgree(n: bv8, b: bv8)
    requires n < 16 && b != 255
    ensures E8M0(b).Finite? && HalfScale(b).Finite?
    ensures E2M1(n) * (E8M0(b).units as real) == KValue(n) as real * (HalfScale(b).units as real)
  {
    hide E2M1, KValue, E8M0, HalfScale, Bfloat16.Pow2;
    DoubledValues(n);
    ScaleValues(b);
    Regroup(E2M1(n), HalfScale(b).units);
  }

  lemma Regroup(v: real, h: nat)
    ensures v * ((2 * h) as real) == (2.0 * v) * (h as real)
  {}

  /** Row r, column c of the [out, 2 * half] matrix that load_f32 builds. */
  function DirectNibble(q: Bits, half: nat, r: nat, c: nat): bv8
    requires c < 2 * half && (r + 1) * half <= |q|
  {
    RowIndex(half, r, c);
    var byte := q[r * half + c / 2];
    if c % 2 == 0 then Low(byte) else High(byte)
  }

  lemma RowIndex(half: nat, r: nat, c: nat)
    requires c < 2 * half
    ensures 0 <= r * half + c / 2 < (r + 1) * half
  {
    assert (r + 1) * half == r * half + half;
    MulNonNegative(r, half);
  }

  /** Column c of row r is element c % 32 of the row's block c / 32. */
  lemma RowBlock(out: nat, half: nat, nb: nat, r: nat, c: nat)
    requires half == 16 * nb && r < out && c < 2 * half
    ensures 0 <= r * nb + c / 32 < out * nb && (r + 1) * half <= out * half
    ensures r * half + c / 2 == 16 * (r * nb + c / 32) + c % 32 / 2
  {
    MulMonotone(r + 1, out, half);
    MulMonotone(r + 1, out, nb);
    assert (r + 1) * nb == r * nb + nb;
    MulNonNegative(r, nb);
    var s := r * nb;
    assert r * half == 16 * s by { assert r * (16 * nb) == 16 * (r * nb); }
    HalfIndex(c);
  }

  lemma HalfIndex(c: nat)
    ensures c / 2 == 16 * (c / 32) + c % 32 / 2
  {}

  /** At every row and column, the ggml block of that row holds the nibble and the scale byte that the direct
      dequantizer uses there. */
  lemma SameElements(q: Bits, scales: Bits, blocks: Bits, out: nat, half: nat, nb: nat, r: nat, c: nat)
    requires IsRepack(q, scales, blocks) && |q| == out * half && |scales| == out * nb && half == 16 * nb
    requires r < out && c < 2 * half
    ensures var g := r * nb + c / 32;
      && 0 <= g < |scales| && |blocks| == 17 * |scales| && (r + 1) * half <= |q|
      && BlockAt(blocks, g, c % 32) == DirectNibble(q, half, r, c)
      && BlockScale(blocks, g) == scales[g]
  {
    hide BlockAt, BlockScale, PackedAt, DirectNibble;
    RowBlock(out, half, nb, r, c);
    var g := r * nb + c / 32;
    assert BlockAt(blocks, g, c % 32) == PackedAt(q, g, c % 32) && BlockScale(blocks, g) == scales[g];
    hide IsRepack;
    DirectIsPacked(q, half, r, c, g);
  }

  lemma DirectIsPacked(q: Bits, half: nat, r: nat, c: nat, g: nat)
    requires c < 2 * half && (r + 1) * half <= |q| && 16 * g + 16 <= |q| && r * half + c / 2 == 16 * g + c % 32 / 2
    ensures DirectNibble(q, half, r, c) == PackedAt(q, g, c % 32)
  {
    hide Low, High;
    SameParity(c);
  }

  lemma SameParity(c: nat)
    ensures c % 32 % 2 == c % 2
  {
    var k := c / 32;
    assert c == 2 * (16 * k) + c % 32;
  }

  /** The matrix dequantized from the repacked blocks equals the directly dequantized one, entry by entry, wherever the
      scale byte is below 255. */
  lemma SameMatrix(q: Bits, scales: Bits, blocks: Bits, out: nat, half: nat, nb: nat, r: nat, c: nat)
    requires IsRepack(q, scales, blocks) && |q| == out * half && |scales| == out * nb && half == 16 * nb
    requires r < out && c < 2 * half && (r + 1) * half <= |q|
    requires 0 <= r * nb + c / 32 < |scales| && scales[r * nb + c / 32] != 255
    ensures |blocks| == 17 * |scales|
    ensures SameEntry(DirectNibble(q, half, r, c), scales[r * nb + c / 32], blocks, r * nb + c / 32, c % 32)
  {
    hide IsRepack, DirectNibble, BlockAt, BlockScale, E2M1, KValue, HalfScale, E8M0;
    SameElements(q, scales, blocks, out, half, nb, r, c);
    var g := r * nb + c / 32;
    BlockSmall(blocks, g, c % 32);
    DequantizersAgree(BlockAt(blocks, g, c % 32), BlockScale(blocks, g));
  }

  /** The converter's number for a nibble and a scale byte is ggml's number for element j of block g. */
  ghost predicate SameEntry(nibble: bv8, scale: bv8, blocks: Bits, g: nat, j: nat)
    requires 17 * g + 17 <= |blocks| && j < 32
  {
    var stored, ggml := BlockAt(blocks, g, j), HalfScale(BlockScale(blocks, g));
    && nibble < 16 && stored < 16 && E8M0(scale).Finite? && ggml.Finite?
    && E2M1(nibble) * (E8M0(scale).units as real) == KValue(stored) as real * (ggml.units as real)
  }
}
