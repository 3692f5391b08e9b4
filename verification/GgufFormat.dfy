/**
The GGUF v3 file structure: what the hand-written writer of
server/scripts/convert_ds4_dspark_draft_to_gguf.py puts in a file, and a reader that follows
server/deps/llama.cpp/ggml/src/gguf.cpp.
*/
module GgufFormat {
  import opened LittleEndian
  import opened Wrappers
  import Seqs

  // ---- values

  const TYPE_U32: nat := 4
  const TYPE_I32: nat := 5
  const TYPE_F32: nat := 6
  const TYPE_STR: nat := 8
  const TYPE_ARR: nat := 9

  /** A key's value. A float is given by the 32 bits it packs to. */
  datatype Value = Str(s: Bytes) | Float(bits: nat) | Ints(xs: seq<int>) | Uint(x: int)

  datatype KeyValue = KeyValue(key: Bytes, value: Value)

  datatype TensorInfo = TensorInfo(name: Bytes, ne: seq<nat>, ttype: nat, offset: nat)

  const U32_LIMIT: nat := 0x1_0000_0000
  const U64_LIMIT: nat := 0x1_0000_0000_0000_0000

  /** struct.pack accepts the value. */
  predicate ValueFits(v: Value) {
    match v
    case Str(s) => |s| < U64_LIMIT
    case Float(bits) => bits < U32_LIMIT
    case Ints(xs) => |xs| < U64_LIMIT && forall i :: 0 <= i < |xs| ==> FitsI32(xs[i])
    case Uint(x) => 0 <= x < U32_LIMIT
  }

  predicate KeyValueFits(kv: KeyValue) { |kv.key| < U64_LIMIT && ValueFits(kv.value) }

  predicate InfoFits(t: TensorInfo) {
    && |t.name| < U64_LIMIT && |t.ne| < U32_LIMIT && t.ttype < U32_LIMIT && t.offset < U64_LIMIT
    && forall i :: 0 <= i < |t.ne| ==> t.ne[i] < U64_LIMIT
  }

  // ---- writing

  function U32(n: nat): Bytes { Encode(n, 4) }
  function U64(n: nat): Bytes { Encode(n, 8) }

  /** w_str. */
  function WriteString(s: Bytes): Bytes { U64(|s|) + s }

  function WriteInts(xs: seq<int>): Bytes { if xs == [] then [] else EncodeI32(xs[0]) + WriteInts(xs[1..]) }
  function WriteDims(ne: seq<nat>): Bytes { if ne == [] then [] else U64(ne[0]) + WriteDims(ne[1..]) }

  function WriteValue(v: Value): Bytes {
    match v
    case Str(s) => U32(TYPE_STR) + WriteString(s)
    case Float(bits) => U32(TYPE_F32) + U32(bits)
    case Ints(xs) => U32(TYPE_ARR) + (U32(TYPE_I32) + (U64(|xs|) + WriteInts(xs)))
    case Uint(x) => U32(TYPE_U32) + U32(if x < 0 then 0 else x)
  }

  /** w_kv. */
  function WriteKeyValue(kv: KeyValue): Bytes { WriteString(kv.key) + WriteValue(kv.value) }

  function WriteInfo(t: TensorInfo): Bytes {
    WriteString(t.name) + (U32(|t.ne|) + (WriteDims(t.ne) + (U32(t.ttype) + U64(t.offset))))
  }

  function WriteKeyValues(kvs: seq<KeyValue>): Bytes {
    if kvs == [] then [] else WriteKeyValue(kvs[0]) + WriteKeyValues(kvs[1..])
  }

  function WriteInfos(ts: seq<TensorInfo>): Bytes {
    if ts == [] then [] else WriteInfo(ts[0]) + WriteInfos(ts[1..])
  }

  const MAGIC: Bytes := [71, 71, 85, 70]  // "GGUF"

  /** Everything before the padding of the data section. */
  function Header(kvs: seq<KeyValue>, ts: seq<TensorInfo>): Bytes {
    MAGIC + (U32(3) + (U64(|ts|) + (U64(|kvs|) + (WriteKeyValues(kvs) + WriteInfos(ts)))))
  }

  // ---- reading

  /** Reads return the value and the unread rest. */
  function ReadUint(b: Bytes, w: nat): Option<(nat, Bytes)> {
    if |b| < w then None else Some((Decode(b[..w]), b[w..]))
  }

  function ReadString(b: Bytes): Option<(Bytes, Bytes)> {
    match ReadUint(b, 8)
    case None => None
    case Some((n, rest)) => if |rest| < n then None else Some((rest[..n], rest[n..]))
  }

  function ReadInts(b: Bytes, n: nat): Option<(seq<int>, Bytes)>
    decreases n
  {
    if n == 0 then Some(([], b))
    else if |b| < 4 then None
    else match ReadInts(b[4..], n - 1)
      case None => None
      case Some((xs, rest)) => Some(([DecodeI32(b[..4])] + xs, rest))
  }

  function ReadDims(b: Bytes, n: nat): Option<(seq<nat>, Bytes)>
    decreases n
  {
    if n == 0 then Some(([], b))
    else match ReadUint(b, 8)
      case None => None
      case Some((d, rest)) =>
        match ReadDims(rest, n - 1)
        case None => None
        case Some((ds, rest')) => Some(([d] + ds, rest'))
  }

  /** The value types the writer uses; any other type id is refused. */
  function ReadValue(b: Bytes): Option<(Value, Bytes)> {
    match ReadUint(b, 4)
    case None => None
    case Some((t, b1)) =>
      if t == TYPE_STR then
        match ReadString(b1) case None => None case Some((s, r)) => Some((Str(s), r))
      else if t == TYPE_F32 then
        match ReadUint(b1, 4) case None => None case Some((n, r)) => Some((Float(n), r))
      else if t == TYPE_U32 then
        match ReadUint(b1, 4) case None => None case Some((n, r)) => Some((Uint(n), r))
      else if t == TYPE_ARR then
        match ReadUint(b1, 4)
        case None => None
        case Some((e, b2)) =>
          if e != TYPE_I32 then None
          else match ReadUint(b2, 8)
            case None => None
            case Some((n, b3)) =>
              match ReadInts(b3, n) case None => None case Some((xs, r)) => Some((Ints(xs), r))
      else None
  }

  function ReadKeyValue(b: Bytes): Option<(KeyValue, Bytes)> {
    match ReadString(b)
    case None => None
    case Some((k, b1)) =>
      match ReadValue(b1) case None => None case Some((v, r)) => Some((KeyValue(k, v), r))
  }

  function ReadKeyValues(b: Bytes, n: nat): Option<(seq<KeyValue>, Bytes)>
    decreases n
  {
    if n == 0 then Some(([], b))
    else match ReadKeyValue(b)
      case None => None
      case Some((kv, b1)) =>
        match ReadKeyValues(b1, n - 1) case None => None case Some((kvs, r)) => Some(([kv] + kvs, r))
  }

  function ReadInfo(b: Bytes): Option<(TensorInfo, Bytes)> {
    match ReadString(b)
    case None => None
    case Some((name, b1)) =>
      match ReadUint(b1, 4)
      case None => None
      case Some((n, b2)) =>
        match ReadDims(b2, n)
        case None => None
        case Some((ne, b3)) =>
          match ReadUint(b3, 4)
          case None => None
          case Some((t, b4)) =>
            match ReadUint(b4, 8) case None => None case Some((off, r)) => Some((TensorInfo(name, ne, t, off), r))
  }

  function ReadInfos(b: Bytes, n: nat): Option<(seq<TensorInfo>, Bytes)>
    decreases n
  {
    if n == 0 then Some(([], b))
    else match ReadInfo(b)
      case None => None
      case Some((t, b1)) =>
        match ReadInfos(b1, n - 1) case None => None case Some((ts, r)) => Some(([t] + ts, r))
  }

  datatype Parsed = Parsed(kvs: seq<KeyValue>, infos: seq<TensorInfo>, rest: Bytes)

  function ReadHeader(b: Bytes): Option<Parsed> {
    if |b| < 4 || b[..4] != MAGIC then None
    else match ReadUint(b[4..], 4)
      case None => None
      case Some((version, b1)) =>
        if version < 2 || version > 3 then None
        else match ReadUint(b1, 8)
          case None => None
          case Some((nTensors, b2)) =>
            match ReadUint(b2, 8)
            case None => None
            case Some((nKv, b3)) =>
              match ReadKeyValues(b3, nKv)
              case None => None
              case Some((kvs, b4)) =>
                match ReadInfos(b4, nTensors)
                case None => None
                case Some((ts, b5)) => Some(Parsed(kvs, ts, b5))
  }

  // ---- reading undoes writing, whatever follows

  lemma UintRoundTrip(n: nat, w: nat, rest: Bytes)
    requires n < Pow256(w)
    ensures ReadUint(Encode(n, w) + rest, w) == Some((n, rest))
  {
    DecodeEncode(n, w);
    assert (Encode(n, w) + rest)[..w] == Encode(n, w);
  }

  lemma U32RoundTrip(n: nat, rest: Bytes)
    requires n < U32_LIMIT
    ensures ReadUint(U32(n) + rest, 4) == Some((n, rest))
  {
    Pow256Values();
    UintRoundTrip(n, 4, rest);
  }

  lemma U64RoundTrip(n: nat, rest: Bytes)
    requires n < U64_LIMIT
    ensures ReadUint(U64(n) + rest, 8) == Some((n, rest))
  {
    Pow256Values();
    UintRoundTrip(n, 8, rest);
  }

  /** The limits are those of the fields: exactly the accepted numbers come back from their bytes. */
  lemma LimitsExact(n: nat, i: int)
    ensures n < U32_LIMIT <==> Decode(U32(n)) == n
    ensures n < U64_LIMIT <==> Decode(U64(n)) == n
    ensures FitsI32(i) <==> DecodeI32(EncodeI32(i)) == i
  {
    Pow256Values();
    if n < Pow256(4) { DecodeEncode(n, 4); }
    if n < Pow256(8) { DecodeEncode(n, 8); }
    if FitsI32(i) { DecodeEncodeI32(i); }
  }

  lemma StringRoundTrip(s: Bytes, rest: Bytes)
    requires |s| < U64_LIMIT
    ensures ReadString(WriteString(s) + rest) == Some((s, rest))
  {
    Seqs.Assoc(U64(|s|), s, rest);
    U64RoundTrip(|s|, s + rest);
    assert (s + rest)[..|s|] == s && (s + rest)[|s|..] == rest;
  }

  lemma {:induction false} IntsRoundTrip(xs: seq<int>, rest: Bytes)
    requires forall i :: 0 <= i < |xs| ==> FitsI32(xs[i])
    ensures ReadInts(WriteInts(xs) + rest, |xs|) == Some((xs, rest))
  {
    hide EncodeI32, DecodeI32, FitsI32;
    if xs == [] {
      assert WriteInts(xs) + rest == rest;
    } else {
      var tail := WriteInts(xs[1..]);
      var b := WriteInts(xs) + rest;
      Seqs.Assoc(EncodeI32(xs[0]), tail, rest);
      assert b[..4] == EncodeI32(xs[0]) && b[4..] == tail + rest;
      DecodeEncodeI32(xs[0]);
      IntsRoundTrip(xs[1..], rest);
      assert xs == [xs[0]] + xs[1..];
    }
  }

  lemma {:induction false} DimsRoundTrip(ne: seq<nat>, rest: Bytes)
    requires forall i :: 0 <= i < |ne| ==> ne[i] < U64_LIMIT
    ensures ReadDims(WriteDims(ne) + rest, |ne|) == Some((ne, rest))
  {
    hide ReadUint, U64;
    if ne == [] {
      assert WriteDims(ne) + rest == rest;
    } else {
      Seqs.Assoc(U64(ne[0]), WriteDims(ne[1..]), rest);
      U64RoundTrip(ne[0], WriteDims(ne[1..]) + rest);
      DimsRoundTrip(ne[1..], rest);
      assert ne == [ne[0]] + ne[1..];
    }
  }

  lemma ValueRoundTrip(v: Value, rest: Bytes)
    requires ValueFits(v)
    ensures ReadValue(WriteValue(v) + rest) == Some((v, rest))
  {
    hide ReadUint, ReadString, U32, U64;
    match v
    case Str(s) =>
      Seqs.Assoc(U32(TYPE_STR), WriteString(s), rest);
      U32RoundTrip(TYPE_STR, WriteString(s) + rest);
      StringRoundTrip(s, rest);
    case Float(bits) =>
      Seqs.Assoc(U32(TYPE_F32), U32(bits), rest);
      U32RoundTrip(TYPE_F32, U32(bits) + rest);
      U32RoundTrip(bits, rest);
    case Uint(x) =>
      Seqs.Assoc(U32(TYPE_U32), U32(x), rest);
      U32RoundTrip(TYPE_U32, U32(x) + rest);
      U32RoundTrip(x, rest);
    case Ints(xs) =>
      var b3 := WriteInts(xs);
      var b2 := U64(|xs|) + b3;
      var b1 := U32(TYPE_I32) + b2;
      Seqs.Assoc(U32(TYPE_ARR), b1, rest);
      Seqs.Assoc(U32(TYPE_I32), b2, rest);
      Seqs.Assoc(U64(|xs|), b3, rest);
      U32RoundTrip(TYPE_ARR, b1 + rest);
      U32RoundTrip(TYPE_I32, b2 + rest);
      U64RoundTrip(|xs|, b3 + rest);
      IntsRoundTrip(xs, rest);
  }

  lemma KeyValueRoundTrip(kv: KeyValue, rest: Bytes)
    requires KeyValueFits(kv)
    ensures ReadKeyValue(WriteKeyValue(kv) + rest) == Some((kv, rest))
  {
    hide ReadString, ReadValue, WriteString, WriteValue;
    Seqs.Assoc(WriteString(kv.key), WriteValue(kv.value), rest);
    StringRoundTrip(kv.key, WriteValue(kv.value) + rest);
    ValueRoundTrip(kv.value, rest);
  }

  lemma {:induction false} KeyValuesRoundTrip(kvs: seq<KeyValue>, rest: Bytes)
    requires forall i :: 0 <= i < |kvs| ==> KeyValueFits(kvs[i])
    ensures ReadKeyValues(WriteKeyValues(kvs) + rest, |kvs|) == Some((kvs, rest))
  {
    hide ReadKeyValue, WriteKeyValue, KeyValueFits;
    if kvs == [] {
      assert WriteKeyValues(kvs) + rest == rest;
    } else {
      Seqs.Assoc(WriteKeyValue(kvs[0]), WriteKeyValues(kvs[1..]), rest);
      KeyValueRoundTrip(kvs[0], WriteKeyValues(kvs[1..]) + rest);
      KeyValuesRoundTrip(kvs[1..], rest);
      assert kvs == [kvs[0]] + kvs[1..];
    }
  }

  lemma InfoRoundTrip(t: TensorInfo, rest: Bytes)
    requires InfoFits(t)
    ensures ReadInfo(WriteInfo(t) + rest) == Some((t, rest))
  {
    hide ReadUint, ReadString, WriteString, U32, U64;
    var b4 := U64(t.offset);
    var b3 := U32(t.ttype) + b4;
    var b2 := WriteDims(t.ne) + b3;
    var b1 := U32(|t.ne|) + b2;
    Seqs.Assoc(WriteString(t.name), b1, rest);
    Seqs.Assoc(U32(|t.ne|), b2, rest);
    Seqs.Assoc(WriteDims(t.ne), b3, rest);
    Seqs.Assoc(U32(t.ttype), b4, rest);
    StringRoundTrip(t.name, b1 + rest);
    U32RoundTrip(|t.ne|, b2 + rest);
    DimsRoundTrip(t.ne, b3 + rest);
    U32RoundTrip(t.ttype, b4 + rest);
    U64RoundTrip(t.offset, rest);
  }

  lemma {:induction false} InfosRoundTrip(ts: seq<TensorInfo>, rest: Bytes)
    requires forall i :: 0 <= i < |ts| ==> InfoFits(ts[i])
    ensures ReadInfos(WriteInfos(ts) + rest, |ts|) == Some((ts, rest))
  {
    hide ReadInfo, WriteInfo, InfoFits;
    if ts == [] {
      assert WriteInfos(ts) + rest == rest;
    } else {
      Seqs.Assoc(WriteInfo(ts[0]), WriteInfos(ts[1..]), rest);
      InfoRoundTrip(ts[0], WriteInfos(ts[1..]) + rest);
      InfosRoundTrip(ts[1..], rest);
      assert ts == [ts[0]] + ts[1..];
    }
  }

  /** Reading a written header recovers all keys and tensor infos, and stops exactly at its end. */
  lemma HeaderRoundTrip(kvs: seq<KeyValue>, ts: seq<TensorInfo>, rest: Bytes)
    requires |kvs| < U64_LIMIT && |ts| < U64_LIMIT
    requires forall i :: 0 <= i < |kvs| ==> KeyValueFits(kvs[i])
    requires forall i :: 0 <= i < |ts| ==> InfoFits(ts[i])
    ensures ReadHeader(Header(kvs, ts) + rest) == Some(Parsed(kvs, ts, rest))
  {
    hide ReadUint, U32, U64, ReadKeyValues, WriteKeyValues, ReadInfos, WriteInfos, KeyValueFits, InfoFits;
    var b4 := WriteKeyValues(kvs) + WriteInfos(ts);
    var b3 := U64(|kvs|) + b4;
    var b2 := U64(|ts|) + b3;
    var b1 := U32(3) + b2;
    var file := Header(kvs, ts) + rest;
    Seqs.Assoc(MAGIC, b1, rest);
    assert file[..4] == MAGIC && file[4..] == b1 + rest;
    Seqs.Assoc(U32(3), b2, rest);
    Seqs.Assoc(U64(|ts|), b3, rest);
    Seqs.Assoc(U64(|kvs|), b4, rest);
    Seqs.Assoc(WriteKeyValues(kvs), WriteInfos(ts), rest);
    U32RoundTrip(3, b2 + rest);
    U64RoundTrip(|ts|, b3 + rest);
    U64RoundTrip(|kvs|, b4 + rest);
    KeyValuesRoundTrip(kvs, WriteInfos(ts) + rest);
    InfosRoundTrip(ts, rest);
  }
}
