/**
The streaming writer of server/scripts/convert_ds4_dspark_draft_to_gguf.py: tensor offsets are computed before any data
exists, and every blob must then land exactly on its offset.
*/
module GgufWriter {
  import opened LittleEndian
  import opened GgufFormat
  import opened GgufBytes
  import opened Arith
  import opened Wrappers
  import Seqs

  const ALIGN: nat := 32

  // ---- tensors and their sizes

  datatype GgmlType = F32 | F16 | Q8_0 | MXFP4 | ROCMFP4_FAST {
    function Id(): nat {
      match this case F32 => 0 case F16 => 1 case Q8_0 => 8 case MXFP4 => 39 case ROCMFP4_FAST => 101
    }
    /** Elements per block. */
    function Block(): (n: nat)
      ensures n > 0
    {
      match this case F32 => 1 case F16 => 1 case Q8_0 => 32 case MXFP4 => 32 case ROCMFP4_FAST => 32
    }
    /** Bytes per block. */
    function BlockBytes(): nat {
      match this case F32 => 4 case F16 => 2 case Q8_0 => 34 case MXFP4 => 17 case ROCMFP4_FAST => 17
    }
  }

  /** nbytes. */
  function NBytes(ne: seq<nat>, t: GgmlType): nat { Product(ne) / t.Block() * t.BlockBytes() }

  /** The shapes nbytes accepts: at least one dimension, the first a whole number of blocks. */
  predicate ShapeOk(ne: seq<nat>, t: GgmlType) { ne != [] && ne[0] % t.Block() == 0 }

  /** A checkpoint tensor; `packed` marks dtype I8, two FP4 values per byte. */
  datatype Source = Source(packed: bool, shape: seq<nat>, id: nat)

  /** The shape after dequantization. */
  function FullShape(s: Source): seq<nat> {
    if s.packed && s.shape != [] then s.shape[|s.shape| - 1 := 2 * s.shape[|s.shape| - 1]] else s.shape
  }

  datatype Tensor = Tensor(name: Bytes, sources: seq<Source>, ttype: GgmlType, ne: seq<nat>)

  function Reverse<T>(s: seq<T>): (r: seq<T>)
    ensures |r| == |s|
  {
    if s == [] then [] else Reverse(s[1..]) + [s[0]]
  }

  /** The ggml dimensions of a planned tensor: innermost first, several sources stacked on a last dimension. */
  function NeOf(sources: seq<Source>): seq<nat>
    requires sources != []
  {
    var ne: seq<nat> := Reverse<nat>(FullShape(sources[0]));
    if |sources| > 1 then ne + [|sources|] else ne
  }

  /** Dimension i counts from the innermost one, which is doubled for packed FP4; the number of sources comes last. */
  lemma NeReversed(sources: seq<Source>, i: nat)
    requires sources != [] && i < |sources[0].shape|
    ensures |NeOf(sources)| == |sources[0].shape| + (if |sources| > 1 then 1 else 0)
    ensures var d := sources[0].shape[|sources[0].shape| - 1 - i];
      NeOf(sources)[i] == if i == 0 && sources[0].packed then 2 * d else d
    ensures |sources| > 1 ==> NeOf(sources)[|sources[0].shape|] == |sources|
  {
    ReverseAt(FullShape(sources[0]), i);
  }

  lemma {:induction false} ReverseAt(s: seq<nat>, i: nat)
    requires i < |s|
    ensures Reverse(s)[i] == s[|s| - 1 - i]
  {
    if i < |s| - 1 { ReverseAt(s[1..], i); }
  }

  function Zeros(n: nat): (z: Bytes)
    ensures |z| == n && forall i :: 0 <= i < n ==> z[i] == 0
  {
    seq(n, i => 0)
  }

  /** The bytes of one encoded source: repack_mxfp4, or load_f32 followed by encode. */
  type Encoder = (Source, GgmlType) -> Bytes

  /** The encoder gives every source of the tensor the whole blocks of its dequantized matrix. */
  ghost predicate EncoderLengths(sources: seq<Source>, t: GgmlType, enc: Encoder) {
    forall s :: s in sources ==> |enc(s, t)| == NBytes(FullShape(s), t)
  }

  function Join(sources: seq<Source>, t: GgmlType, enc: Encoder): Bytes {
    if sources == [] then [] else enc(sources[0], t) + Join(sources[1..], t, enc)
  }

  /** The data of one tensor; no source means float32 zeros. */
  function Blob(t: Tensor, enc: Encoder): Bytes {
    if t.sources == [] then Zeros(4 * Product(t.ne)) else Join(t.sources, t.ttype, enc)
  }

  function Padded(size: nat): nat { (size + ALIGN - 1) / ALIGN * ALIGN }
  function PadLength(n: nat): nat { var i: int := n; (-i) % ALIGN }

  lemma PaddedFacts(size: nat)
    ensures Padded(size) == size + PadLength(size) && Padded(size) % 32 == 0 && size <= Padded(size) < size + 32
  {}

  function InfosFrom(ts: seq<Tensor>, offset: nat): (infos: seq<TensorInfo>)
    ensures |infos| == |ts|
  {
    if ts == [] then [] else
      [TensorInfo(ts[0].name, ts[0].ne, ts[0].ttype.Id(), offset)]
      + InfosFrom(ts[1..], offset + Padded(NBytes(ts[0].ne, ts[0].ttype)))
  }

  function Data(ts: seq<Tensor>, enc: Encoder): Bytes {
    if ts == [] then [] else
      var blob := Blob(ts[0], enc);
      blob + Zeros(PadLength(|blob|)) + Data(ts[1..], enc)
  }

  function Preamble(kvs: seq<KeyValue>, ts: seq<Tensor>): Bytes {
    var h := Header(kvs, InfosFrom(ts, 0));
    h + Zeros(PadLength(|h|))
  }

  function File(kvs: seq<KeyValue>, ts: seq<Tensor>, enc: Encoder): Bytes { Preamble(kvs, ts) + Data(ts, enc) }

  // ---- the writer

  datatype Error = ShapeError | StructError | PositionAssert | SizeAssert
  datatype Result<T> = Ok(value: T) | Err(error: Error)

  predicate ShapesOk(ts: seq<Tensor>) { forall i :: 0 <= i < |ts| ==> ShapeOk(ts[i].ne, ts[i].ttype) }

  predicate Packable(kvs: seq<KeyValue>, infos: seq<TensorInfo>) {
    && |kvs| < U64_LIMIT && |infos| < U64_LIMIT
    && (forall i :: 0 <= i < |kvs| ==> KeyValueFits(kvs[i]))
    && forall i :: 0 <= i < |infos| ==> InfoFits(infos[i])
  }

  predicate SizesMatch(ts: seq<Tensor>, enc: Encoder) {
    forall i :: 0 <= i < |ts| ==> |Blob(ts[i], enc)| == NBytes(ts[i].ne, ts[i].ttype)
  }

  /** The encoded size of n elements: 4 or 2 bytes each, or 34 or 17 bytes for every 32. */
  ghost predicate SizeOf(n: nat, t: GgmlType, size: nat) {
    match t
    case F32 => size == 4 * n
    case F16 => size == 2 * n
    case Q8_0 => 32 * size == 34 * n
    case MXFP4 => 32 * size == 17 * n
    case ROCMFP4_FAST => 32 * size == 17 * n
  }

  lemma NBytesExact(ne: seq<nat>, t: GgmlType)
    ensures ShapeOk(ne, t) <==> ne != [] && (t == F32 || t == F16 || ne[0] % 32 == 0)
    ensures ShapeOk(ne, t) ==> SizeOf(Product(ne), t, NBytes(ne, t))
  {
    hide Product;
    if ShapeOk(ne, t) { ProductDivides(ne, t.Block()); }
  }

  method ComputeNBytes(ne: seq<nat>, t: GgmlType) returns (r: Result<nat>)
    ensures r == if ShapeOk(ne, t) then Ok(NBytes(ne, t)) else Err(ShapeError)
    ensures r.Ok? <==> ne != [] && (t == F32 || t == F16 || ne[0] % 32 == 0)
    ensures r.Ok? ==> SizeOf(Product(ne), t, r.value)
  {
    NBytesExact(ne, t);
    var n: nat := 1;
    for i := 0 to |ne|
      invariant Product(ne) == n * Product(ne[i..])
    {
      MulAssoc(n, ne[i], Product(ne[i + 1..]));
      assert ne[i..][1..] == ne[i + 1..];
      n := n * ne[i];
    }
    if ne == [] || ne[0] % t.Block() != 0 {
      return Err(ShapeError);
    }
    return Ok(n / t.Block() * t.BlockBytes());
  }

  ghost predicate TypeId(t: GgmlType, id: nat) {
    match t case F32 => id == 0 case F16 => id == 1 case Q8_0 => id == 8 case MXFP4 => id == 39
    case ROCMFP4_FAST => id == 101
  }

  /** A tensor keeps its name, shape and type, and starts at the first multiple of 32 behind the one before. */
  ghost predicate TightAt(ts: seq<Tensor>, infos: seq<TensorInfo>, k: nat)
    requires k < |ts| == |infos|
  {
    var end := if k == 0 then 0 else infos[k - 1].offset + NBytes(ts[k - 1].ne, ts[k - 1].ttype);
    && infos[k].name == ts[k].name && infos[k].ne == ts[k].ne && TypeId(ts[k].ttype, infos[k].ttype)
    && infos[k].offset % 32 == 0 && end <= infos[k].offset < end + 32
  }

  ghost predicate TightPlan(ts: seq<Tensor>, infos: seq<TensorInfo>) {
    |infos| == |ts| && forall k :: 0 <= k < |ts| ==> TightAt(ts, infos, k)
  }

  lemma InfoTight(ts: seq<Tensor>, k: nat)
    requires k < |ts|
    ensures TightAt(ts, InfosFrom(ts, 0), k)
  {
    hide NBytes, Padded, InfosFrom;
    InfoAt(ts, 0, k);
    OffsetAligned(ts, k);
    if k > 0 {
      InfoAt(ts, 0, k - 1);
      PaddedFacts(NBytes(ts[k - 1].ne, ts[k - 1].ttype));
    }
  }

  lemma InfosTight(ts: seq<Tensor>)
    ensures TightPlan(ts, InfosFrom(ts, 0))
  {
    hide TightAt, InfosFrom;
    forall k | 0 <= k < |ts| ensures TightAt(ts, InfosFrom(ts, 0), k) { InfoTight(ts, k); }
  }

  /** The first loop of the writer: sizes and aligned offsets from the shapes alone. */
  method PlanOffsets(ts: seq<Tensor>) returns (r: Result<seq<TensorInfo>>)
    ensures r == if ShapesOk(ts) then Ok(InfosFrom(ts, 0)) else Err(ShapeError)
    ensures r.Ok? ==> TightPlan(ts, r.value)
  {
    hide ShapeOk, NBytes, Padded, GgmlType.Id, TightPlan, SizeOf;
    InfosTight(ts);
    var infos: seq<TensorInfo> := [];
    var offset: nat := 0;
    assert ts[0..] == ts;
    for k := 0 to |ts|
      invariant forall i :: 0 <= i < k ==> ShapeOk(ts[i].ne, ts[i].ttype)
      invariant InfosFrom(ts, 0) == infos + InfosFrom(ts[k..], offset)
    {
      var size := ComputeNBytes(ts[k].ne, ts[k].ttype);
      if size.Err? {
        return Err(ShapeError);
      }
      assert ts[k..][0] == ts[k] && ts[k..][1..] == ts[k + 1..];
      var info := TensorInfo(ts[k].name, ts[k].ne, ts[k].ttype.Id(), offset);
      Seqs.Assoc(infos, [info], InfosFrom(ts[k + 1..], offset + Padded(size.value)));
      infos := infos + [info];
      offset := offset + Padded(size.value);
    }
    assert infos + [] == infos;
    return Ok(infos);
  }

  /** The whole of the writing part of main; `enc` stands for repack_mxfp4 and the ggml quantizer. */
  method WriteGguf(kvs: seq<KeyValue>, ts: seq<Tensor>, enc: Encoder) returns (r: Result<Bytes>)
    ensures r ==
      if !ShapesOk(ts) then Err(ShapeError)
      else if !Packable(kvs, InfosFrom(ts, 0)) then Err(StructError)
      else if !SizesMatch(ts, enc) then Err(SizeAssert)
      else Ok(File(kvs, ts, enc))
    ensures r.Ok? ==> SpellsHeader(r.value, kvs, InfosFrom(ts, 0))
  {
    hide SpellsHeader;
    var planned := PlanOffsets(ts);
    if planned.Err? {
      return Err(ShapeError);
    }
    var infos := planned.value;
    if !Packable(kvs, infos) {
      return Err(StructError);
    }
    var f := WriteHeader(kvs, infos);
    f := f + Zeros(PadLength(|f|));
    r := WriteData(f, ts, infos, enc);
    var pad := Zeros(PadLength(|Header(kvs, infos)|));
    HeaderSpelled(kvs, infos, pad + Data(ts, enc));
    Seqs.Assoc(Header(kvs, infos), pad, Data(ts, enc));
  }

  /** The second loop of the writer, from the position where the data section starts. */
  method WriteData(start: Bytes, ts: seq<Tensor>, infos: seq<TensorInfo>, enc: Encoder) returns (r: Result<Bytes>)
    requires infos == InfosFrom(ts, 0)
    ensures r == if SizesMatch(ts, enc) then Ok(start + Data(ts, enc)) else Err(SizeAssert)
  {
    hide Blob, NBytes, Zeros, InfosFrom, PadLength;
    var f := start;
    for k := 0 to |ts|
      invariant f == start + Data(ts[..k], enc)
      invariant forall i :: 0 <= i < k ==> |Blob(ts[i], enc)| == NBytes(ts[i].ne, ts[i].ttype)
    {
      DataOffset(ts, k, enc);
      if |f| - |start| != infos[k].offset {
        return Err(PositionAssert);
      }
      var blob := JoinBlob(ts[k], enc);
      if |blob| != NBytes(ts[k].ne, ts[k].ttype) {
        return Err(SizeAssert);
      }
      DataSnoc(ts[..k], ts[k], enc);
      assert ts[..k + 1] == ts[..k] + [ts[k]];
      Seqs.Assoc(start, Data(ts[..k], enc), blob + Zeros(PadLength(|blob|)));
      Seqs.Assoc(f, blob, Zeros(PadLength(|blob|)));
      f := f + blob;
      f := f + Zeros(PadLength(|blob|));
    }
    assert ts[..|ts|] == ts;
    return Ok(f);
  }

  method WriteHeader(kvs: seq<KeyValue>, infos: seq<TensorInfo>) returns (f: Bytes)
    ensures f == Header(kvs, infos)
  {
    var start := MAGIC + (U32(3) + (U64(|infos|) + U64(|kvs|)));
    f := start;
    for k := 0 to |kvs|
      invariant f + WriteKeyValues(kvs[k..]) == start + WriteKeyValues(kvs)
    {
      hide WriteKeyValue;
      assert kvs[k..][0] == kvs[k] && kvs[k..][1..] == kvs[k + 1..];
      Seqs.Assoc(f, WriteKeyValue(kvs[k]), WriteKeyValues(kvs[k + 1..]));
      f := f + WriteKeyValue(kvs[k]);
    }
    assert f == start + WriteKeyValues(kvs) by { assert f + [] == f; }
    var keys := f;
    for k := 0 to |infos|
      invariant f + WriteInfos(infos[k..]) == keys + WriteInfos(infos)
    {
      hide WriteInfo;
      assert infos[k..][0] == infos[k] && infos[k..][1..] == infos[k + 1..];
      Seqs.Assoc(f, WriteInfo(infos[k]), WriteInfos(infos[k + 1..]));
      f := f + WriteInfo(infos[k]);
    }
    assert f == keys + WriteInfos(infos) by { assert f + [] == f; }
    HeaderShape(kvs, infos);
  }

  lemma HeaderShape(kvs: seq<KeyValue>, infos: seq<TensorInfo>)
    ensures Header(kvs, infos) ==
            MAGIC + (U32(3) + (U64(|infos|) + U64(|kvs|))) + WriteKeyValues(kvs) + WriteInfos(infos)
  {
    hide U32, U64, WriteKeyValues, WriteInfos;
    var body := WriteKeyValues(kvs) + WriteInfos(infos);
    var a, b, c := U32(3), U64(|infos|), U64(|kvs|);
    Seqs.Assoc(MAGIC + (a + (b + c)), WriteKeyValues(kvs), WriteInfos(infos));
    Seqs.Assoc(MAGIC, a + (b + c), body);
    Seqs.Assoc(a, b + c, body);
    Seqs.Assoc(b, c, body);
  }

  method JoinBlob(t: Tensor, enc: Encoder) returns (blob: Bytes)
    ensures blob == Blob(t, enc)
  {
    if t.sources == [] {
      return Zeros(4 * Product(t.ne));
    }
    blob := [];
    for k := 0 to |t.sources|
      invariant blob + Join(t.sources[k..], t.ttype, enc) == Join(t.sources, t.ttype, enc)
    {
      var part := enc(t.sources[k], t.ttype);
      assert t.sources[k..][0] == t.sources[k] && t.sources[k..][1..] == t.sources[k + 1..];
      Seqs.Assoc(blob, part, Join(t.sources[k + 1..], t.ttype, enc));
      blob := blob + part;
    }
    assert blob + [] == blob;
  }

  // ---- the position assert never fires

  function OffsetAt(ts: seq<Tensor>, k: nat): nat
    requires k <= |ts|
  {
    if k == 0 then 0 else OffsetAt(ts, k - 1) + Padded(NBytes(ts[k - 1].ne, ts[k - 1].ttype))
  }

  lemma {:induction false} InfoAt(ts: seq<Tensor>, base: nat, k: nat)
    requires k < |ts|
    ensures InfosFrom(ts, base)[k] == TensorInfo(ts[k].name, ts[k].ne, ts[k].ttype.Id(), base + OffsetAt(ts, k))
  {
    hide NBytes, Padded;
    if k > 0 {
      var step := Padded(NBytes(ts[0].ne, ts[0].ttype));
      InfoAt(ts[1..], base + step, k - 1);
      OffsetTail(ts, k);
    }
  }

  lemma {:induction false} OffsetTail(ts: seq<Tensor>, k: nat)
    requires 0 < k <= |ts|
    ensures OffsetAt(ts, k) == Padded(NBytes(ts[0].ne, ts[0].ttype)) + OffsetAt(ts[1..], k - 1)
  {
    hide NBytes, Padded;
    if k > 1 {
      OffsetTail(ts, k - 1);
      assert ts[1..][k - 2] == ts[k - 1];
    } else {
      assert OffsetAt(ts, 1) == OffsetAt(ts, 0) + Padded(NBytes(ts[0].ne, ts[0].ttype));
    }
  }

  lemma {:induction false} DataSnoc(ts: seq<Tensor>, t: Tensor, enc: Encoder)
    ensures Data(ts + [t], enc) == Data(ts, enc) + (Blob(t, enc) + Zeros(PadLength(|Blob(t, enc)|)))
  {
    hide Blob, Zeros, PadLength;
    if ts == [] {
      assert ts + [t] == [t] && [t][1..] == [];
      var x := Blob(t, enc) + Zeros(PadLength(|Blob(t, enc)|));
      assert Data([t], enc) == x + Data([], enc);
      assert x + [] == x && [] + x == x;
    } else {
      assert (ts + [t])[1..] == ts[1..] + [t];
      DataSnoc(ts[1..], t, enc);
      var blob := Blob(ts[0], enc);
      Seqs.Assoc(blob + Zeros(PadLength(|blob|)), Data(ts[1..], enc), Blob(t, enc) + Zeros(PadLength(|Blob(t, enc)|)));
    }
  }

  /** If the first k blobs have their declared sizes, the file position after them is the k-th declared offset. */
  lemma {:induction false} DataOffset(ts: seq<Tensor>, k: nat, enc: Encoder)
    requires k <= |ts|
    requires forall i :: 0 <= i < k ==> |Blob(ts[i], enc)| == NBytes(ts[i].ne, ts[i].ttype)
    ensures |Data(ts[..k], enc)| == OffsetAt(ts, k)
    ensures k < |ts| ==> InfosFrom(ts, 0)[k].offset == OffsetAt(ts, k)
  {
    hide Blob, NBytes;
    if k < |ts| { InfoAt(ts, 0, k); }
    if k > 0 {
      DataOffset(ts, k - 1, enc);
      assert ts[..k] == ts[..k - 1] + [ts[k - 1]];
      DataSnoc(ts[..k - 1], ts[k - 1], enc);
      PaddedFacts(|Blob(ts[k - 1], enc)|);
    }
  }

  // ---- the size assert never fires on a plan whose sources share a shape

  /** The plan main builds: dimensions taken from the first source, all sources of one shape (a scalar source only for
      unblocked types), and no source only for float32. */
  ghost predicate SharedShape(t: Tensor) {
    if t.sources == [] then t.ttype == F32
    else
      && t.ne == NeOf(t.sources)
      && (forall s :: s in t.sources ==> FullShape(s) == FullShape(t.sources[0]))
      && (FullShape(t.sources[0]) == [] ==> t.ttype.Block() == 1)
  }

  lemma {:induction false} ProductAppend(a: seq<nat>, x: nat)
    ensures Product(a + [x]) == Product(a) * x
  {
    if a == [] {
      assert a + [x] == [x] && [x][1..] == [];
      assert Product([x]) == x * Product([]);
    } else {
      ProductAppend(a[1..], x);
      assert (a + [x])[1..] == a[1..] + [x];
      MulAssoc(a[0], Product(a[1..]), x);
    }
  }

  lemma {:induction false} ProductReverse(a: seq<nat>)
    ensures Product(Reverse(a)) == Product(a)
  {
    if a != [] {
      ProductReverse(a[1..]);
      ProductAppend(Reverse(a[1..]), a[0]);
      MulCommutes(Product(a[1..]), a[0]);
    }
  }

  lemma {:induction false} JoinLength(sources: seq<Source>, t: GgmlType, enc: Encoder, len: nat)
    requires forall s :: s in sources ==> |enc(s, t)| == len
    ensures |Join(sources, t, enc)| == |sources| * len
  {
    if sources != [] {
      assert sources[0] in sources && forall s :: s in sources[1..] ==> s in sources;
      JoinLength(sources[1..], t, enc, len);
      NextCount(|sources|, len);
    }
  }

  lemma NextCount(n: nat, len: nat)
    requires n > 0
    ensures n * len == len + (n - 1) * len
  {}

  lemma JoinStep(sources: seq<Source>, t: GgmlType, enc: Encoder)
    requires sources != []
    ensures Join(sources, t, enc) == enc(sources[0], t) + Join(sources[1..], t, enc)
    ensures sources[0] in sources && forall s :: s in sources[1..] ==> s in sources
  {}

  /** The part of source x inside the joined data. */
  lemma {:induction false} JoinPart(sources: seq<Source>, t: GgmlType, enc: Encoder, len: nat, x: nat)
    requires (forall s :: s in sources ==> |enc(s, t)| == len) && x < |sources|
    ensures 0 <= x * len && x * len + len <= |Join(sources, t, enc)|
    ensures Join(sources, t, enc)[x * len..x * len + len] == enc(sources[x], t)
    decreases |sources|
  {
    hide Join;
    JoinStep(sources, t, enc);
    var head, rest := enc(sources[0], t), Join(sources[1..], t, enc);
    if x == 0 {
      assert (head + rest)[..len] == head;
    } else {
      JoinPart(sources[1..], t, enc, len, x - 1);
      NextCount(x, len);
      Seqs.After(head, rest, (x - 1) * len, (x - 1) * len + len);
    }
  }

  lemma BlockMultiple(n: nat, count: nat, blk: nat, bytes: nat)
    requires blk > 0 && n % blk == 0
    ensures n * count / blk * bytes == count * (n / blk * bytes)
  {
    var q := n / blk;
    assert n == q * blk;
    assert n * count == q * count * blk;
    DivUnique(n * count, blk, q * count, 0);
    assert q * count * bytes == count * (q * bytes);
  }

  lemma ProductDivides(ne: seq<nat>, blk: nat)
    requires blk > 0 && ne != [] && ne[0] % blk == 0
    ensures Product(ne) % blk == 0
  {
    var q := ne[0] / blk;
    assert ne[0] == q * blk;
    var p := Product(ne[1..]);
    assert Product(ne) == q * p * blk;
    DivUnique(Product(ne), blk, q * p, 0);
  }

  lemma SharedShapeSize(t: Tensor, enc: Encoder)
    requires EncoderLengths(t.sources, t.ttype, enc) && SharedShape(t) && ShapeOk(t.ne, t.ttype)
    ensures |Blob(t, enc)| == NBytes(t.ne, t.ttype)
  {
    if t.sources != [] {
      hide Product, Join, Reverse, NBytes;
      var full := FullShape(t.sources[0]);
      var rev := Reverse<nat>(full);
      var n := |t.sources|;
      ProductReverse(full);
      JoinLength(t.sources, t.ttype, enc, NBytes(full, t.ttype));
      if n > 1 {
        ProductAppend(rev, n);
        if full != [] {
          assert rev[0] == t.ne[0];
          ProductDivides(rev, t.ttype.Block());
        } else {
          ProductEmpty(full);
        }
        StackedBytes(full, t.ne, n, t.ttype);
      } else {
        SameBytes(full, t.ne, t.ttype);
      }
    }
  }

  lemma ProductEmpty(a: seq<nat>)
    requires a == []
    ensures Product(a) == 1
  {}

  lemma SameBytes(a: seq<nat>, b: seq<nat>, t: GgmlType)
    requires Product(a) == Product(b)
    ensures NBytes(a, t) == 1 * NBytes(b, t)
  {}

  lemma StackedBytes(full: seq<nat>, ne: seq<nat>, n: nat, t: GgmlType)
    requires Product(full) % t.Block() == 0 && Product(ne) == Product(full) * n
    ensures NBytes(ne, t) == n * NBytes(full, t)
  {
    hide Product;
    BlockMultiple(Product(full), n, t.Block(), t.BlockBytes());
  }

  /** For every plan whose sources share one shape per tensor, the writer's asserts never fire: it either refuses a
      shape or an unpackable value before any data is written, or it writes the whole file. */
  lemma AssertsNeverFire(ts: seq<Tensor>, enc: Encoder)
    requires ShapesOk(ts) && forall t :: t in ts ==> SharedShape(t) && EncoderLengths(t.sources, t.ttype, enc)
    ensures SizesMatch(ts, enc)
  {
    hide Blob, NBytes, ShapeOk, SharedShape, EncoderLengths;
    forall i | 0 <= i < |ts| ensures |Blob(ts[i], enc)| == NBytes(ts[i].ne, ts[i].ttype) {
      SharedShapeSize(ts[i], enc);
    }
  }

  // ---- opening the file again, as gguf.cpp does

  datatype Opened = Opened(kvs: seq<KeyValue>, infos: seq<TensorInfo>, dataStart: nat)

  const ALIGNMENT_KEY: Bytes := [103, 101, 110, 101, 114, 97, 108, 46, 97, 108, 105, 103, 110, 109, 101, 110, 116]

  function TypeOf(id: nat): Option<GgmlType> {
    if id == 0 then Some(F32) else if id == 1 then Some(F16) else if id == 8 then Some(Q8_0)
    else if id == 39 then Some(MXFP4) else if id == 101 then Some(ROCMFP4_FAST) else None
  }

  predicate DistinctKeys(kvs: seq<KeyValue>) {
    forall i, j :: 0 <= i < j < |kvs| ==> kvs[i].key != kvs[j].key
  }

  predicate DistinctNames(ts: seq<TensorInfo>) {
    forall i, j :: 0 <= i < j < |ts| ==> ts[i].name != ts[j].name
  }

  /** The per-tensor checks: a short name, at most four dimensions, a known type, whole blocks per row. */
  predicate InfoAccepted(t: TensorInfo) {
    |t.name| < 64 && |t.ne| <= 4 && TypeOf(t.ttype).Some? && ShapeOk(t.ne, TypeOf(t.ttype).value)
  }

  /** Every tensor must start where the padded extents of the previous ones end. */
  predicate OffsetsAccepted(ts: seq<TensorInfo>, offset: nat) {
    ts == [] || (
      && ts[0].offset == offset
      && TypeOf(ts[0].ttype).Some?
      && OffsetsAccepted(ts[1..], offset + Padded(NBytes(ts[0].ne, TypeOf(ts[0].ttype).value))))
  }

  /** gguf_init_from_file for files that do not override the alignment. */
  function Open(b: Bytes): Option<Opened> {
    match ReadHeader(b)
    case None => None
    case Some(p) =>
      if !DistinctKeys(p.kvs) || !DistinctNames(p.infos) then None
      else if exists i :: 0 <= i < |p.kvs| && p.kvs[i].key == ALIGNMENT_KEY then None
      else if exists i :: 0 <= i < |p.infos| && !InfoAccepted(p.infos[i]) then None
      else if |p.rest| > |b| || !OffsetsAccepted(p.infos, 0) then None
      else Some(Opened(p.kvs, p.infos, Padded(|b| - |p.rest|)))
  }

  lemma {:induction false} OwnOffsetsAccepted(ts: seq<Tensor>, offset: nat)
    ensures OffsetsAccepted(InfosFrom(ts, offset), offset)
  {
    if ts != [] {
      hide NBytes, Padded;
      OwnOffsetsAccepted(ts[1..], offset + Padded(NBytes(ts[0].ne, ts[0].ttype)));
      assert InfosFrom(ts, offset)[1..] == InfosFrom(ts[1..], offset + Padded(NBytes(ts[0].ne, ts[0].ttype)));
    }
  }

  /** What the reader asks of a plan beyond what the writer checks. */
  ghost predicate Readable(kvs: seq<KeyValue>, ts: seq<Tensor>) {
    && DistinctKeys(kvs)
    && (forall i :: 0 <= i < |kvs| ==> kvs[i].key != ALIGNMENT_KEY)
    && (forall i, j :: 0 <= i < j < |ts| ==> ts[i].name != ts[j].name)
    && forall i :: 0 <= i < |ts| ==> |ts[i].name| < 64 && |ts[i].ne| <= 4
  }

  lemma OwnInfoAccepted(ts: seq<Tensor>, i: nat)
    requires i < |ts| && |ts[i].name| < 64 && |ts[i].ne| <= 4 && ShapeOk(ts[i].ne, ts[i].ttype)
    ensures InfosFrom(ts, 0)[i].name == ts[i].name && InfoAccepted(InfosFrom(ts, 0)[i])
  {
    hide NBytes, Padded, OffsetAt, InfosFrom, ShapeOk;
    InfoAt(ts, 0, i);
  }

  lemma OwnInfosAccepted(kvs: seq<KeyValue>, ts: seq<Tensor>)
    requires Readable(kvs, ts) && ShapesOk(ts)
    ensures DistinctNames(InfosFrom(ts, 0))
    ensures forall i :: 0 <= i < |ts| ==> InfoAccepted(InfosFrom(ts, 0)[i])
  {
    hide InfosFrom, ShapeOk, InfoAccepted;
    forall i | 0 <= i < |ts| ensures InfosFrom(ts, 0)[i].name == ts[i].name && InfoAccepted(InfosFrom(ts, 0)[i]) {
      OwnInfoAccepted(ts, i);
    }
  }

  /** The writer's file opens again with the same keys and infos, and the data section starts where the writer put
      it. */
  lemma FileOpens(kvs: seq<KeyValue>, ts: seq<Tensor>, enc: Encoder)
    requires ShapesOk(ts) && Packable(kvs, InfosFrom(ts, 0)) && Readable(kvs, ts)
    ensures Open(File(kvs, ts, enc)) == Some(Opened(kvs, InfosFrom(ts, 0), |Preamble(kvs, ts)|))
  {
    hide NBytes, Padded, OffsetAt, InfosFrom, ShapeOk, ReadHeader, Header, Data, PadLength, InfoAccepted, KeyValueFits,
      InfoFits;
    var infos := InfosFrom(ts, 0);
    var h := Header(kvs, infos);
    var pad := Zeros(PadLength(|h|));
    Seqs.Assoc(h, pad, Data(ts, enc));
    HeaderRoundTrip(kvs, infos, pad + Data(ts, enc));
    OwnInfosAccepted(kvs, ts);
    OwnOffsetsAccepted(ts, 0);
    PaddedFacts(|h|);
  }

  lemma {:induction false} OffsetsIncrease(ts: seq<Tensor>, j: nat, k: nat)
    requires j < k <= |ts|
    ensures OffsetAt(ts, j) + NBytes(ts[j].ne, ts[j].ttype) <= OffsetAt(ts, k)
  {
    hide NBytes, Padded;
    PaddedFacts(NBytes(ts[k - 1].ne, ts[k - 1].ttype));
    if j < k - 1 { OffsetsIncrease(ts, j, k - 1); }
  }

  /** No two tensors overlap: an earlier extent ends before a later one starts. */
  lemma ExtentsDisjoint(ts: seq<Tensor>, j: nat, k: nat)
    requires j < k < |ts|
    ensures InfosFrom(ts, 0)[j].offset + NBytes(ts[j].ne, ts[j].ttype) <= InfosFrom(ts, 0)[k].offset
  {
    hide NBytes, Padded, InfosFrom, OffsetAt;
    InfoAt(ts, 0, j);
    InfoAt(ts, 0, k);
    OffsetsIncrease(ts, j, k);
  }

  /** Offsets are multiples of 32 and each tensor's extent holds exactly its blob. */
  lemma TensorsInPlace(kvs: seq<KeyValue>, ts: seq<Tensor>, enc: Encoder, k: nat)
    requires SizesMatch(ts, enc) && k < |ts|
    ensures var off, size := InfosFrom(ts, 0)[k].offset, NBytes(ts[k].ne, ts[k].ttype);
      var start := |Preamble(kvs, ts)| + off;
      && off % 32 == 0
      && |Preamble(kvs, ts)| % 32 == 0
      && start + size <= |File(kvs, ts, enc)|
      && File(kvs, ts, enc)[start..start + size] == Blob(ts[k], enc)
  {
    hide Blob, NBytes, InfosFrom, Padded, PadLength, Preamble, Data, OffsetAt;
    var pre := Preamble(kvs, ts);
    PreambleAligned(kvs, ts);
    OffsetAligned(ts, k);
    InfoAt(ts, 0, k);
    DataSlice(ts, k, enc);
    Seqs.After(pre, Data(ts, enc), OffsetAt(ts, k), OffsetAt(ts, k) + |Blob(ts[k], enc)|);
  }

  lemma PreambleAligned(kvs: seq<KeyValue>, ts: seq<Tensor>)
    ensures |Preamble(kvs, ts)| % 32 == 0
  {
    hide Header, InfosFrom;
    PaddedFacts(|Header(kvs, InfosFrom(ts, 0))|);
  }

  lemma {:induction false} OffsetAligned(ts: seq<Tensor>, k: nat)
    requires k <= |ts|
    ensures OffsetAt(ts, k) % 32 == 0
  {
    hide NBytes;
    if k > 0 {
      OffsetAligned(ts, k - 1);
      PaddedFacts(NBytes(ts[k - 1].ne, ts[k - 1].ttype));
    }
  }

  lemma {:induction false} DataSlice(ts: seq<Tensor>, k: nat, enc: Encoder)
    requires SizesMatch(ts, enc) && k < |ts|
    ensures OffsetAt(ts, k) + |Blob(ts[k], enc)| <= |Data(ts, enc)|
    ensures Data(ts, enc)[OffsetAt(ts, k)..OffsetAt(ts, k) + |Blob(ts[k], enc)|] == Blob(ts[k], enc)
  {
    hide Blob, NBytes, Zeros, Padded, PadLength;
    var blob := Blob(ts[0], enc);
    var first := blob + Zeros(PadLength(|blob|));
    PaddedFacts(|blob|);
    if k == 0 {
      assert OffsetAt(ts, 0) == 0;
      assert Data(ts, enc)[..|blob|] == blob;
    } else {
      var len := |Blob(ts[k], enc)|;
      DataSlice(ts[1..], k - 1, enc);
      OffsetTail(ts, k);
      Seqs.After(first, Data(ts[1..], enc), OffsetAt(ts[1..], k - 1), OffsetAt(ts[1..], k - 1) + len);
    }
  }
}
