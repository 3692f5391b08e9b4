/**
The bytes of a GGUF v3 header in literals: positions, type ids and byte order of what
server/scripts/convert_ds4_dspark_draft_to_gguf.py:200-236 writes, stated without the writer's own functions.
*/
module GgufBytes {
  import opened LittleEndian
  import opened GgufFormat
  import opened Arith

  /** The w bytes from `at` on are the base-256 digits of n, lowest first. */
  ghost predicate SpellsNumber(b: Bytes, at: nat, n: nat, w: nat) {
    at + w <= |b| && forall k :: 0 <= k < w ==> b[at + k] == Digit(n, k)
  }

  /** Digit k of n to the base 256. */
  function Digit(n: nat, k: nat): Byte { (n / Pow256(k)) % 256 }

  ghost predicate Holds(b: Bytes, at: nat, s: Bytes) { at + |s| <= |b| && b[at..at + |s|] == s }

  /** An eight-byte length and the characters. */
  ghost predicate SpellsString(b: Bytes, at: nat, s: Bytes) { SpellsNumber(b, at, |s|, 8) && Holds(b, at + 8, s) }

  /** Four bytes each, negative numbers in two's complement. */
  ghost predicate SpellsInts(b: Bytes, at: nat, xs: seq<int>)
    decreases |xs|
  {
    xs == [] || (SpellsNumber(b, at, xs[0] % 0x1_0000_0000, 4) && SpellsInts(b, at + 4, xs[1..]))
  }

  ghost predicate SpellsDims(b: Bytes, at: nat, ne: seq<nat>)
    decreases |ne|
  {
    ne == [] || (SpellsNumber(b, at, ne[0], 8) && SpellsDims(b, at + 8, ne[1..]))
  }

  /** Type id 4 before an integer, 6 before a float, 8 before a string, 9 and 5 before a list of integers. */
  ghost predicate SpellsValue(b: Bytes, at: nat, v: Value) {
    match v
    case Uint(x) => Holds(b, at, [4, 0, 0, 0]) && x >= 0 && SpellsNumber(b, at + 4, x, 4)
    case Float(bits) => Holds(b, at, [6, 0, 0, 0]) && SpellsNumber(b, at + 4, bits, 4)
    case Str(s) => Holds(b, at, [8, 0, 0, 0]) && SpellsString(b, at + 4, s)
    case Ints(xs) =>
      Holds(b, at, [9, 0, 0, 0, 5, 0, 0, 0]) && SpellsNumber(b, at + 8, |xs|, 8) && SpellsInts(b, at + 16, xs)
  }

  function ValueSize(v: Value): nat {
    match v
    case Uint(_) => 8
    case Float(_) => 8
    case Str(s) => 12 + |s|
    case Ints(xs) => 16 + 4 * |xs|
  }

  ghost predicate SpellsKeys(b: Bytes, at: nat, kvs: seq<KeyValue>)
    decreases |kvs|
  {
    kvs == [] || (
      var value := at + 8 + |kvs[0].key|;
      && SpellsString(b, at, kvs[0].key) && SpellsValue(b, value, kvs[0].value)
      && SpellsKeys(b, value + ValueSize(kvs[0].value), kvs[1..]))
  }

  function KeysSize(kvs: seq<KeyValue>): nat {
    if kvs == [] then 0 else 8 + |kvs[0].key| + ValueSize(kvs[0].value) + KeysSize(kvs[1..])
  }

  /** Name, four-byte rank, eight bytes for each dimension, four for the type and eight for the offset. */
  ghost predicate SpellsInfo(b: Bytes, at: nat, t: TensorInfo) {
    var rank := at + 8 + |t.name|;
    var ttype := rank + 4 + 8 * |t.ne|;
    && SpellsString(b, at, t.name) && SpellsNumber(b, rank, |t.ne|, 4) && SpellsDims(b, rank + 4, t.ne)
    && SpellsNumber(b, ttype, t.ttype, 4) && SpellsNumber(b, ttype + 4, t.offset, 8)
  }

  ghost predicate SpellsInfos(b: Bytes, at: nat, ts: seq<TensorInfo>)
    decreases |ts|
  {
    ts == [] || (SpellsInfo(b, at, ts[0]) && SpellsInfos(b, at + 24 + |ts[0].name| + 8 * |ts[0].ne|, ts[1..]))
  }

  /** GGUF, version 3, the number of tensors, the number of keys, the keys, the tensors. */
  ghost predicate SpellsHeader(b: Bytes, kvs: seq<KeyValue>, ts: seq<TensorInfo>) {
    && Holds(b, 0, [71, 71, 85, 70, 3, 0, 0, 0])
    && SpellsNumber(b, 8, |ts|, 8) && SpellsNumber(b, 16, |kvs|, 8)
    && SpellsKeys(b, 24, kvs) && SpellsInfos(b, 24 + KeysSize(kvs), ts)
  }

  // ---- the writer's bytes are these

  /** Byte k of an encoded number. */
  lemma {:induction false} EncodeDigit(n: nat, w: nat, k: nat)
    requires k < w
    ensures Encode(n, w)[k] == Digit(n, k)
  {
    if k > 0 {
      EncodeDigit(n / 256, w - 1, k - 1);
      DivTwice(n, Pow256(k - 1));
    } else {
      assert n / Pow256(0) == n;
    }
  }

  lemma DivTwice(n: nat, p: nat)
    requires p > 0
    ensures n / 256 / p == n / (256 * p)
  {
    var a := n / 256;
    var q, r := a / p, a % p;
    assert n == 256 * (q * p + r) + n % 256;
    assert 256 * (q * p) == q * (256 * p);
    DivUnique(n, 256 * p, q, 256 * r + n % 256);
  }

  lemma Parts(b: Bytes, at: nat, x: Bytes, y: Bytes)
    requires Holds(b, at, x + y)
    ensures Holds(b, at, x) && Holds(b, at + |x|, y)
  {
    var all := b[at..at + |x + y|];
    assert all[..|x|] == x && all[|x|..] == y;
  }

  lemma Number(b: Bytes, at: nat, n: nat, w: nat)
    requires Holds(b, at, Encode(n, w))
    ensures SpellsNumber(b, at, n, w)
  {
    hide Encode, Digit;
    forall k | 0 <= k < w ensures b[at + k] == Digit(n, k) {
      EncodeDigit(n, w, k);
      assert b[at..at + w][k] == b[at + k];
    }
  }

  lemma SmallId(n: nat)
    requires n < 256
    ensures U32(n) == [n, 0, 0, 0]
  {
    assert Encode(0, 1) == [0] && Encode(0, 2) == [0, 0] && Encode(0, 3) == [0, 0, 0];
  }

  lemma String(b: Bytes, at: nat, s: Bytes)
    requires Holds(b, at, WriteString(s))
    ensures SpellsString(b, at, s)
  {
    hide Holds, Encode, SpellsNumber;
    Parts(b, at, U64(|s|), s);
    Number(b, at, |s|, 8);
  }

  lemma {:induction false} Dims(b: Bytes, at: nat, ne: seq<nat>)
    requires Holds(b, at, WriteDims(ne))
    ensures SpellsDims(b, at, ne) && |WriteDims(ne)| == 8 * |ne|
    decreases |ne|
  {
    hide Holds, Encode, SpellsNumber;
    if ne != [] {
      Parts(b, at, U64(ne[0]), WriteDims(ne[1..]));
      Number(b, at, ne[0], 8);
      Dims(b, at + 8, ne[1..]);
    }
  }

  lemma {:induction false} Ints(b: Bytes, at: nat, xs: seq<int>)
    requires Holds(b, at, WriteInts(xs))
    ensures SpellsInts(b, at, xs) && |WriteInts(xs)| == 4 * |xs|
    decreases |xs|
  {
    hide Holds, Encode, SpellsNumber;
    if xs != [] {
      Parts(b, at, EncodeI32(xs[0]), WriteInts(xs[1..]));
      Number(b, at, xs[0] % 0x1_0000_0000, 4);
      Ints(b, at + 4, xs[1..]);
    }
  }

  lemma Value(b: Bytes, at: nat, v: GgufFormat.Value)
    requires ValueFits(v) && Holds(b, at, WriteValue(v))
    ensures SpellsValue(b, at, v) && |WriteValue(v)| == ValueSize(v)
  {
    hide Holds, Encode, SpellsNumber, WriteString, SpellsString, WriteInts, SpellsInts;
    match v
    case Uint(x) =>
      Parts(b, at, U32(TYPE_U32), U32(x));
      SmallId(4);
      Number(b, at + 4, x, 4);
    case Float(bits) =>
      Parts(b, at, U32(TYPE_F32), U32(bits));
      SmallId(6);
      Number(b, at + 4, bits, 4);
    case Str(s) =>
      Parts(b, at, U32(TYPE_STR), WriteString(s));
      SmallId(8);
      StringSize(s);
      String(b, at + 4, s);
    case Ints(xs) =>
      var rest := U64(|xs|) + WriteInts(xs);
      SmallId(9);
      SmallId(5);
      assert U32(TYPE_ARR) + (U32(TYPE_I32) + rest) == [9, 0, 0, 0, 5, 0, 0, 0] + rest;
      Parts(b, at, [9, 0, 0, 0, 5, 0, 0, 0], rest);
      Parts(b, at + 8, U64(|xs|), WriteInts(xs));
      Number(b, at + 8, |xs|, 8);
      Ints(b, at + 16, xs);
  }

  lemma StringSize(s: Bytes)
    ensures |WriteString(s)| == 8 + |s|
  {}

  lemma {:induction false} Keys(b: Bytes, at: nat, kvs: seq<KeyValue>)
    requires Holds(b, at, WriteKeyValues(kvs)) && forall i :: 0 <= i < |kvs| ==> KeyValueFits(kvs[i])
    ensures SpellsKeys(b, at, kvs) && |WriteKeyValues(kvs)| == KeysSize(kvs)
    decreases |kvs|
  {
    hide Holds, WriteString, SpellsString, WriteValue, SpellsValue, ValueSize, ValueFits;
    if kvs != [] {
      var kv := kvs[0];
      Parts(b, at, WriteKeyValue(kv), WriteKeyValues(kvs[1..]));
      Parts(b, at, WriteString(kv.key), WriteValue(kv.value));
      StringSize(kv.key);
      String(b, at, kv.key);
      Value(b, at + 8 + |kv.key|, kv.value);
      Keys(b, at + |WriteKeyValue(kv)|, kvs[1..]);
    }
  }

  lemma Info(b: Bytes, at: nat, t: TensorInfo)
    requires Holds(b, at, WriteInfo(t))
    ensures SpellsInfo(b, at, t) && |WriteInfo(t)| == 24 + |t.name| + 8 * |t.ne|
  {
    hide Holds, WriteString, SpellsString, WriteDims, SpellsDims, SpellsNumber, Encode;
    var b4 := U64(t.offset);
    var b3 := U32(t.ttype) + b4;
    var b2 := WriteDims(t.ne) + b3;
    var b1 := U32(|t.ne|) + b2;
    var rank := at + 8 + |t.name|;
    StringSize(t.name);
    Parts(b, at, WriteString(t.name), b1);
    String(b, at, t.name);
    Parts(b, rank, U32(|t.ne|), b2);
    Number(b, rank, |t.ne|, 4);
    Parts(b, rank + 4, WriteDims(t.ne), b3);
    Dims(b, rank + 4, t.ne);
    var ttype := rank + 4 + 8 * |t.ne|;
    Parts(b, ttype, U32(t.ttype), b4);
    Number(b, ttype, t.ttype, 4);
    Number(b, ttype + 4, t.offset, 8);
  }

  lemma {:induction false} Infos(b: Bytes, at: nat, ts: seq<TensorInfo>)
    requires Holds(b, at, WriteInfos(ts))
    ensures SpellsInfos(b, at, ts)
    decreases |ts|
  {
    hide Holds, WriteInfo, SpellsInfo;
    if ts != [] {
      Parts(b, at, WriteInfo(ts[0]), WriteInfos(ts[1..]));
      Info(b, at, ts[0]);
      Infos(b, at + |WriteInfo(ts[0])|, ts[1..]);
    }
  }

  /** Any file that starts with the written header spells it, byte by byte. */
  lemma HeaderSpelled(kvs: seq<KeyValue>, ts: seq<TensorInfo>, rest: Bytes)
    requires forall i :: 0 <= i < |kvs| ==> KeyValueFits(kvs[i])
    ensures SpellsHeader(Header(kvs, ts) + rest, kvs, ts)
  {
    hide WriteKeyValues, WriteInfos, SpellsKeys, SpellsInfos, SpellsNumber, Encode, KeyValueFits, Holds;
    var b := Header(kvs, ts) + rest;
    var b4 := WriteKeyValues(kvs) + WriteInfos(ts);
    var b3 := U64(|kvs|) + b4;
    var b2 := U64(|ts|) + b3;
    SmallId(3);
    Starts(Header(kvs, ts), rest);
    assert Header(kvs, ts) == [71, 71, 85, 70, 3, 0, 0, 0] + b2;
    Parts(b, 0, [71, 71, 85, 70, 3, 0, 0, 0], b2);
    Parts(b, 8, U64(|ts|), b3);
    Number(b, 8, |ts|, 8);
    Parts(b, 16, U64(|kvs|), b4);
    Number(b, 16, |kvs|, 8);
    Parts(b, 24, WriteKeyValues(kvs), WriteInfos(ts));
    Keys(b, 24, kvs);
    Infos(b, 24 + KeysSize(kvs), ts);
  }

  lemma Starts(h: Bytes, rest: Bytes)
    ensures Holds(h + rest, 0, h)
  {}
}
