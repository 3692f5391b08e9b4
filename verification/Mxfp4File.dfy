/**
Packed FP4 experts end to end: server/scripts/convert_ds4_dspark_draft_to_gguf.py repacks them, writes the file, and a
reader of the file that dequantizes as ggml does gets the matrix the checkpoint describes.
*/
module Mxfp4File {
  import opened LittleEndian
  import opened GgufFormat
  import opened GgufWriter
  import opened Arith
  import opened Mxfp4
  import opened Wrappers
  import Seqs

  function ToByte(b: bv8): Byte { b as Byte }
  function FromByte(b: Byte): bv8 { b as bv8 }

  lemma ByteRoundTrip(b: bv8)
    ensures FromByte(ToByte(b)) == b
  {}

  /** tobytes and frombuffer. */
  function ToBytes(b: Bits): (r: Bytes)
    ensures |r| == |b|
  {
    seq(|b|, i requires 0 <= i < |b| => ToByte(b[i]))
  }

  function FromBytes(b: Bytes): (r: Bits)
    ensures |r| == |b|
  {
    seq(|b|, i requires 0 <= i < |b| => FromByte(b[i]))
  }

  lemma BytesRoundTrip(b: Bits)
    ensures FromBytes(ToBytes(b)) == b
  {
    hide ToByte, FromByte;
    forall i | 0 <= i < |b| ensures FromBytes(ToBytes(b))[i] == b[i] { ByteRoundTrip(b[i]); }
  }

  /** A packed [out, half] source with one scale per 32 inputs. */
  ghost predicate IsPacked(s: Source, q: Bits, scales: Bits, out: nat, half: nat, nb: nat) {
    s.packed && s.shape == [out, half] && half == 16 * nb && |q| == out * half && |scales| == out * nb
  }

  /** The repacked bytes are the whole blocks that nbytes computes from the shape, so the size assert holds for them. */
  lemma RepackFills(s: Source, q: Bits, scales: Bits, blocks: Bits, out: nat, half: nat, nb: nat)
    requires IsPacked(s, q, scales, out, half, nb) && IsRepack(q, scales, blocks)
    ensures |ToBytes(blocks)| == NBytes(FullShape(s), MXFP4)
  {
    IsRepackLengths(q, scales, blocks);
    hide IsRepack;
    var full := FullShape(s);
    assert full == [out, 2 * half];
    assert full[1..] == [2 * half] && [2 * half][1..] == [];
    assert Product([2 * half]) == 2 * half * Product([]);
    assert Product(full) == out * (2 * half);
    RowBlocks(out, half, nb);
  }

  lemma RowBlocks(out: nat, half: nat, nb: nat)
    requires half == 16 * nb
    ensures out * (2 * half) / 32 == out * nb
  {
    assert out * (2 * (16 * nb)) == 32 * (out * nb);
    DivUnique(out * (2 * half), 32, out * nb, 0);
  }

  /** The bytes of source x of tensor k in an opened file. */
  ghost function PartOf(file: Bytes, o: Opened, k: nat, x: nat, len: nat): Bytes
    requires k < |o.infos|
  {
    var at := o.dataStart + o.infos[k].offset + x * len;
    if 0 <= at && at + len <= |file| then file[at..at + len] else []
  }

  /** Opening the written file and reading source x of tensor k gives that source's encoded bytes. */
  lemma PartReadsBack(kvs: seq<KeyValue>, ts: seq<Tensor>, enc: Encoder, k: nat, x: nat, len: nat)
    requires ShapesOk(ts) && Packable(kvs, InfosFrom(ts, 0)) && Readable(kvs, ts) && SizesMatch(ts, enc)
    requires k < |ts| && x < |ts[k].sources| && forall s :: s in ts[k].sources ==> |enc(s, ts[k].ttype)| == len
    ensures var o := Open(File(kvs, ts, enc));
      o.Some? && k < |o.value.infos| &&
        PartOf(File(kvs, ts, enc), o.value, k, x, len) == enc(ts[k].sources[x], ts[k].ttype)
  {
    hide ShapesOk, Packable, Readable, InfosFrom, NBytes, Preamble, File, Join, Open;
    FileOpens(kvs, ts, enc);
    TensorsInPlace(kvs, ts, enc, k);
    JoinPart(ts[k].sources, ts[k].ttype, enc, len, x);
    var off, size := InfosFrom(ts, 0)[k].offset, NBytes(ts[k].ne, ts[k].ttype);
    var start := |Preamble(kvs, ts)| + off;
    var file := File(kvs, ts, enc);
    assert |Blob(ts[k], enc)| == size;
    hide SizesMatch, Blob;
    Seqs.Within(file, start, start + size, x * len, x * len + len);
  }

  /** At every row and column of every packed source, ggml's number for the bytes read from the opened file is the
      number the checkpoint describes, wherever the scale byte is below 255. */
  lemma FileHoldsMatrix(kvs: seq<KeyValue>, ts: seq<Tensor>, enc: Encoder, k: nat, x: nat,
                        q: Bits, scales: Bits, blocks: Bits, out: nat, half: nat, nb: nat, r: nat, c: nat)
    requires ShapesOk(ts) && Packable(kvs, InfosFrom(ts, 0)) && Readable(kvs, ts)
    requires forall t :: t in ts ==> SharedShape(t) && EncoderLengths(t.sources, t.ttype, enc)
    requires k < |ts| && ts[k].ttype == MXFP4 && x < |ts[k].sources|
    requires IsPacked(ts[k].sources[x], q, scales, out, half, nb)
    requires IsRepack(q, scales, blocks) && enc(ts[k].sources[x], MXFP4) == ToBytes(blocks)
    requires r < out && c < 2 * half && (r + 1) * half <= |q| && 0 <= r * nb + c / 32 < |scales|
    requires scales[r * nb + c / 32] != 255
    ensures var o := Open(File(kvs, ts, enc));
      && o.Some? && k < |o.value.infos|
      && var read := FromBytes(PartOf(File(kvs, ts, enc), o.value, k, x, 17 * (out * nb)));
      && |read| == 17 * |scales|
      && SameEntry(DirectNibble(q, half, r, c), scales[r * nb + c / 32], read, r * nb + c / 32, c % 32)
  {
    hide ShapesOk, Packable, Readable, InfosFrom, NBytes, File, Open, SharedShape, IsRepack, SameEntry, DirectNibble,
      FullShape, ToBytes, FromBytes, PartOf, SizesMatch;
    AssertsNeverFire(ts, enc);
    RepackFills(ts[k].sources[x], q, scales, blocks, out, half, nb);
    IsRepackLengths(q, scales, blocks);
    SharedLength(ts[k], enc, x);
    PartReadsBack(kvs, ts, enc, k, x, |blocks|);
    BytesRoundTrip(blocks);
    SameMatrix(q, scales, blocks, out, half, nb, r, c);
  }

  lemma SharedLength(t: Tensor, enc: Encoder, x: nat)
    requires SharedShape(t) && EncoderLengths(t.sources, t.ttype, enc) && x < |t.sources|
    ensures forall s :: s in t.sources ==> |enc(s, t.ttype)| == |enc(t.sources[x], t.ttype)|
  {
    hide NBytes, FullShape, NeOf;
    assert t.sources[x] in t.sources;
  }
}
