/**
The packed weight tables of optimizations/megakernel/model_nvfp4.py, and how the C structs of
optimizations/megakernel/torch_bindings.cpp read them back.
*/
module WeightTables {
  import opened LittleEndian
  import opened Arith
  import opened Wrappers
  import Seqs

  type Pointer = p: nat | p < 0x1_0000_0000_0000_0000

  /** Four 32-bit header fields and a list of pointers. */
  datatype Layer = Layer(kind: int, ptrs: seq<Pointer>)

  const HEADER: nat := 16
  const SLOT: nat := 8

  function U64(p: Pointer): (b: Bytes)
    ensures |b| == SLOT
  {
    Encode(p, 8)
  }

  /** "iiii": kind, group size and two zero words. */
  function HeaderBytes(kind: int, group: int): (b: Bytes)
    ensures |b| == HEADER
  {
    EncodeI32(kind) + EncodeI32(group) + EncodeI32(0) + EncodeI32(0)
  }

  function Slots(ps: seq<Pointer>): (b: Bytes)
    ensures |b| == SLOT * |ps|
  {
    if ps == [] then [] else U64(ps[0]) + Slots(ps[1..])
  }

  /** The slots of a struct: the pointers and null pointers up to the slot limit, or the pointers that fit. */
  function Filled(ps: seq<Pointer>, slots: nat): (r: seq<Pointer>)
    ensures |r| == slots
  {
    if |ps| <= slots then ps + seq(slots - |ps|, i => 0) else ps[..slots]
  }

  function StructSize(slots: nat): nat { HEADER + slots * SLOT }

  function StructBytes(l: Layer, group: int, slots: nat): (b: Bytes)
    ensures |b| == StructSize(slots)
  {
    HeaderBytes(l.kind, group) + Slots(Filled(l.ptrs, slots))
  }

  function Table(ls: seq<Layer>, group: int, slots: nat): (b: Bytes)
    ensures |b| == |ls| * StructSize(slots)
  {
    if ls == [] then [] else
      NextRow(|ls|, StructSize(slots));
      StructBytes(ls[0], group, slots) + Table(ls[1..], group, slots)
  }

  lemma NextRow(n: nat, size: nat)
    requires n > 0
    ensures n * size == size + (n - 1) * size
  {}

  // ---- the packers

  function Splice(s: Bytes, off: nat, b: Bytes): (r: Bytes)
    requires off + |b| <= |s|
    ensures |r| == |s|
  {
    s[..off] + b + s[off + |b|..]
  }

  /** struct.pack_into: replaces the bytes from off on and nothing else. */
  method PackInto(buf: array<Byte>, off: nat, bytes: Bytes)
    requires off + |bytes| <= buf.Length
    modifies buf
    ensures buf[..] == Splice(old(buf[..]), off, bytes)
    ensures buf[..off + |bytes|] == old(buf[..off]) + bytes
  {
    for i := 0 to |bytes|
      invariant forall k :: 0 <= k < buf.Length ==> buf[k] == if off <= k < off + i then bytes[k - off] else old(buf[k])
    {
      buf[off + i] := bytes[i];
    }
  }

  method PackPointer(buf: array<Byte>, off: nat, p: Pointer)
    requires off + SLOT <= buf.Length
    modifies buf
    ensures buf[..off + SLOT] == old(buf[..off]) + U64(p)
  {
    PackInto(buf, off, U64(p));
  }

  /** Consecutive pointer slots from `at` on. */
  method PackPointers(buf: array<Byte>, at: nat, ps: seq<Pointer>)
    requires at + SLOT * |ps| <= buf.Length
    modifies buf
    ensures buf[..at + SLOT * |ps|] == old(buf[..at]) + Slots(ps)
  {
    hide Slots, U64;
    ghost var front := buf[..at];
    NoSlots(ps);
    assert front + [] == front;
    for j := 0 to |ps|
      invariant buf[..at + SLOT * j] == front + Slots(ps[..j])
    {
      SlotsSnoc(ps, j);
      Seqs.Assoc(front, Slots(ps[..j]), U64(ps[j]));
      PackPointer(buf, at + SLOT * j, ps[j]);
    }
    assert ps[..|ps|] == ps;
  }

  /** One struct at the position reached so far: header, pointers, null slots. Pointers beyond the slot limit are
      written over what follows; false is the struct.error of a value or a position that does not fit. */
  method PackStruct(buf: array<Byte>, offset: nat, l: Layer, group: int, slots: nat) returns (ok: bool)
    requires offset + StructSize(slots) <= buf.Length
    modifies buf
    ensures ok <==> FitsI32(l.kind) && FitsI32(group) && offset + HEADER + SLOT * |l.ptrs| <= buf.Length
    ensures ok ==> buf[..offset + StructSize(slots)] == old(buf[..offset]) + StructBytes(l, group, slots)
  {
    hide Slots, HeaderBytes, Splice, U64;
    if !FitsI32(l.kind) || !FitsI32(group) {
      return false;
    }
    ghost var front := buf[..offset];
    var h := HeaderBytes(l.kind, group);
    PackInto(buf, offset, h);
    if offset + HEADER + SLOT * |l.ptrs| > buf.Length {
      return false;
    }
    PackPointers(buf, offset + HEADER, l.ptrs);
    if |l.ptrs| <= slots {
      var nulls: seq<Pointer> := seq(slots - |l.ptrs|, i => 0);
      PackPointers(buf, offset + HEADER + SLOT * |l.ptrs|, nulls);
      SlotsAppend(l.ptrs, nulls);
      Seqs.Assoc(front + h, Slots(l.ptrs), Slots(nulls));
      Seqs.Assoc(front, h, Slots(l.ptrs) + Slots(nulls));
    } else {
      Spill(buf[..offset + HEADER + SLOT * |l.ptrs|], front, h, l.ptrs, slots);
      ghost var written := buf[..offset + HEADER + SLOT * |l.ptrs|];
      assert written[..offset + StructSize(slots)] == buf[..offset + StructSize(slots)];
    }
    return true;
  }

  /** What stays in the struct when pointers run past its end. */
  lemma Spill(written: Bytes, front: Bytes, h: Bytes, ps: seq<Pointer>, slots: nat)
    requires written == front + h + Slots(ps) && slots <= |ps|
    ensures written[..|front| + |h| + SLOT * slots] == front + (h + Slots(ps[..slots]))
  {
    hide Slots;
    assert ps == ps[..slots] + ps[slots..];
    SlotsAppend(ps[..slots], ps[slots..]);
    Seqs.Assoc(front + h, Slots(ps[..slots]), Slots(ps[slots..]));
    Seqs.Assoc(front, h, Slots(ps[..slots]));
  }

  lemma {:induction false} SlotsAppend(a: seq<Pointer>, b: seq<Pointer>)
    ensures Slots(a + b) == Slots(a) + Slots(b)
  {
    hide U64;
    if a == [] {
      assert a + b == b;
    } else {
      assert (a + b)[1..] == a[1..] + b;
      SlotsAppend(a[1..], b);
      Seqs.Assoc(U64(a[0]), Slots(a[1..]), Slots(b));
    }
  }

  lemma FilledFacts(ps: seq<Pointer>, slots: nat)
    ensures forall j :: 0 <= j < slots ==> Filled(ps, slots)[j] == if j < |ps| then ps[j] else 0
  {}

  lemma NoSlots(ps: seq<Pointer>)
    ensures Slots(ps[..0]) == []
  {}

  lemma {:induction false} SlotsSnoc(ps: seq<Pointer>, j: nat)
    requires j < |ps|
    ensures Slots(ps[..j + 1]) == Slots(ps[..j]) + U64(ps[j])
  {
    hide U64;
    if j == 0 {
      assert ps[..1] == [ps[0]] && [ps[0]][1..] == [];
    } else {
      assert ps[..j + 1][1..] == ps[1..][..j] && ps[..j][1..] == ps[1..][..j - 1];
      SlotsSnoc(ps[1..], j - 1);
      Seqs.Assoc(U64(ps[0]), Slots(ps[1..][..j - 1]), U64(ps[j]));
    }
  }

  /** Layer i can be packed: its header words fit 32 bits and its pointers end before the table does. */
  predicate LayerFits(ls: seq<Layer>, group: int, slots: nat, i: nat)
    requires i < |ls|
  {
    FitsI32(ls[i].kind) && FitsI32(group) &&
      i * StructSize(slots) + HEADER + SLOT * |ls[i].ptrs| <= |ls| * StructSize(slots)
  }

  /**
  _pack_layer_weights (14 slots, group word 0) and _pack_layer_weights_nvfp4 (24 slots, the group size). A layer with
  more pointers than slots spills into the following structs, which are written over it later; only past the end of the
  table is that an error. So the table holds every header and the first `slots` pointers of every layer whenever it is
  produced at all.
  */
  method PackLayers(ls: seq<Layer>, group: int, slots: nat) returns (r: Option<Bytes>)
    ensures r.Some? <==> forall i :: 0 <= i < |ls| ==> LayerFits(ls, group, slots, i)
    ensures r.Some? ==> r.value == Table(ls, group, slots)
  {
    hide StructBytes, Table;
    var size := HEADER + slots * SLOT;
    var buf := new Byte[|ls| * size](i => 0);
    NoTable(ls, group, slots);
    for i := 0 to |ls|
      invariant forall k :: 0 <= k < i ==> LayerFits(ls, group, slots, k)
      invariant 0 <= i * size <= buf.Length && buf[..i * size] == Table(ls[..i], group, slots)
    {
      hide LayerFits, FitsI32;
      var offset := i * size;
      RowEnd(i, |ls|, size);
      var ok := PackStruct(buf, offset, ls[i], group, slots);
      FitsIff(ls, group, slots, i, ok, buf.Length);
      if !ok {
        return None;
      }
      TableSnoc(ls, i, group, slots);
    }
    assert ls[..|ls|] == ls;
    return Some(buf[..]);
  }

  lemma FitsIff(ls: seq<Layer>, group: int, slots: nat, i: nat, ok: bool, length: nat)
    requires i < |ls| && length == |ls| * StructSize(slots)
    requires ok <==>
      FitsI32(ls[i].kind) && FitsI32(group) && i * StructSize(slots) + HEADER + SLOT * |ls[i].ptrs| <= length
    ensures ok <==> LayerFits(ls, group, slots, i)
  {
    hide FitsI32;
  }

  lemma RowEnd(i: nat, n: nat, size: nat)
    requires i < n
    ensures 0 <= i * size && (i + 1) * size == i * size + size && (i + 1) * size <= n * size
  {
    MulNonNegative(i, size);
    MulMonotone(i + 1, n, size);
  }

  lemma NoTable(ls: seq<Layer>, group: int, slots: nat)
    ensures Table(ls[..0], group, slots) == []
  {}

  lemma {:induction false} TableSnoc(ls: seq<Layer>, i: nat, group: int, slots: nat)
    requires i < |ls|
    ensures Table(ls[..i + 1], group, slots) == Table(ls[..i], group, slots) + StructBytes(ls[i], group, slots)
  {
    hide StructBytes;
    if i == 0 {
      assert ls[..1] == [ls[0]] && [ls[0]][1..] == [];
      assert Table([], group, slots) == [];
    } else {
      assert ls[..i + 1][1..] == ls[1..][..i] && ls[..i][1..] == ls[1..][..i - 1];
      TableSnoc(ls[1..], i - 1, group, slots);
      var middle := Table(ls[1..][..i - 1], group, slots);
      Seqs.Assoc(StructBytes(ls[0], group, slots), middle, StructBytes(ls[i], group, slots));
    }
  }

  // ---- reading through the C structs

  /** The 32-bit word at byte offset off. */
  function WordAt(b: Bytes, off: nat): int
    requires off + 4 <= |b|
  {
    DecodeI32(b[off..off + 4])
  }

  function PointerAt(b: Bytes, off: nat): nat
    requires off + SLOT <= |b|
  {
    Decode(b[off..off + SLOT])
  }

  lemma {:induction false} SlotInSlots(ps: seq<Pointer>, j: nat)
    requires j < |ps|
    ensures Slots(ps)[SLOT * j..SLOT * j + SLOT] == U64(ps[j])
  {
    hide U64;
    if j > 0 {
      SlotInSlots(ps[1..], j - 1);
      Seqs.After(U64(ps[0]), Slots(ps[1..]), SLOT * (j - 1), SLOT * j);
    }
  }

  lemma {:induction false} StructInTable(ls: seq<Layer>, i: nat, group: int, slots: nat)
    requires i < |ls|
    ensures 0 <= i * StructSize(slots) && i * StructSize(slots) + StructSize(slots) <= |Table(ls, group, slots)|
    ensures Table(ls, group, slots)[i * StructSize(slots)..i * StructSize(slots) + StructSize(slots)]
      == StructBytes(ls[i], group, slots)
  {
    hide StructBytes, StructSize;
    var size := StructSize(slots);
    RowEnd(i, |ls|, size);
    if i > 0 {
      StructInTable(ls[1..], i - 1, group, slots);
      NextRow(i, size);
      Seqs.After(StructBytes(ls[0], group, slots), Table(ls[1..], group, slots), (i - 1) * size, (i - 1) * size + size);
    } else {
      assert Table(ls, group, slots)[..size] == StructBytes(ls[0], group, slots);
    }
  }

  lemma HeaderFields(kind: int, group: int)
    requires FitsI32(kind) && FitsI32(group)
    ensures var h := HeaderBytes(kind, group);
      WordAt(h, 0) == kind && WordAt(h, 4) == group && WordAt(h, 8) == 0 && WordAt(h, 12) == 0
  {
    DecodeEncodeI32(kind);
    DecodeEncodeI32(group);
    DecodeEncodeI32(0);
    hide EncodeI32, DecodeI32;
    var h := HeaderBytes(kind, group);
    assert h[0..4] == EncodeI32(kind) && h[4..8] == EncodeI32(group);
    assert h[8..12] == EncodeI32(0) && h[12..16] == EncodeI32(0);
  }

  lemma SlotField(ps: seq<Pointer>, j: nat)
    requires j < |ps|
    ensures PointerAt(Slots(ps), SLOT * j) == ps[j]
  {
    hide Slots;
    SlotInSlots(ps, j);
    Pow256Values();
    DecodeEncode(ps[j], 8);
  }

  /** The struct the C side sees at byte offset `at`. */
  ghost predicate HoldsStruct(t: Bytes, at: nat, l: Layer, group: int, slots: nat) {
    && at + StructSize(slots) <= |t|
    && WordAt(t, at) == l.kind && WordAt(t, at + 4) == group && WordAt(t, at + 8) == 0 && WordAt(t, at + 12) == 0
    && forall j :: 0 <= j < slots ==> PointerAt(t, at + HEADER + SLOT * j) == if j < |l.ptrs| then l.ptrs[j] else 0
  }

  /** Every header word, pointer and null slot of every layer is found at its offset in the C struct array. */
  lemma TableReadsBack(ls: seq<Layer>, group: int, slots: nat, i: nat)
    requires i < |ls| && LayerFits(ls, group, slots, i)
    ensures HoldsStruct(Table(ls, group, slots), i * StructSize(slots), ls[i], group, slots)
  {
    hide Table, StructBytes, HoldsStruct, StructSize, FitsI32;
    StructInTable(ls, i, group, slots);
    StructAt(Table(ls, group, slots), i * StructSize(slots), ls[i], group, slots);
  }

  /** _pack_layer_weights: structs of 128 bytes with 14 pointers and three zero words behind the type. */
  method PackLayerWeights(ls: seq<Layer>) returns (r: Option<Bytes>)
    ensures r.Some? <==> forall i :: 0 <= i < |ls| ==> LayerFits(ls, 0, 14, i)
    ensures r.Some? ==> |r.value| == 128 * |ls|
    ensures r.Some? ==> forall i :: 0 <= i < |ls| ==> HoldsStruct(r.value, 128 * i, ls[i], 0, 14)
  {
    hide HoldsStruct, LayerFits, Table;
    r := PackLayers(ls, 0, 14);
    if r.Some? {
      forall i | 0 <= i < |ls| ensures HoldsStruct(r.value, 128 * i, ls[i], 0, 14) {
        TableReadsBack(ls, 0, 14, i);
      }
    }
  }

  /** _pack_layer_weights_nvfp4: structs of 208 bytes with the group size behind the type, and 24 pointers. */
  method PackLayerWeightsNvfp4(ls: seq<Layer>, group: int) returns (r: Option<Bytes>)
    ensures r.Some? <==> forall i :: 0 <= i < |ls| ==> LayerFits(ls, group, 24, i)
    ensures r.Some? ==> |r.value| == 208 * |ls|
    ensures r.Some? ==> forall i :: 0 <= i < |ls| ==> HoldsStruct(r.value, 208 * i, ls[i], group, 24)
  {
    hide HoldsStruct, LayerFits, Table;
    r := PackLayers(ls, group, 24);
    if r.Some? {
      forall i | 0 <= i < |ls| ensures HoldsStruct(r.value, 208 * i, ls[i], group, 24) {
        TableReadsBack(ls, group, 24, i);
      }
    }
  }

  lemma StructAt(t: Bytes, at: nat, l: Layer, group: int, slots: nat)
    requires FitsI32(l.kind) && FitsI32(group)
    requires at + StructSize(slots) <= |t| && t[at..at + StructSize(slots)] == StructBytes(l, group, slots)
    ensures HoldsStruct(t, at, l, group, slots)
  {
    hide HeaderBytes, Slots, Filled, WordAt, PointerAt;
    var h, ps := HeaderBytes(l.kind, group), Filled(l.ptrs, slots);
    HeaderFields(l.kind, group);
    WordInStruct(t, at, h, Slots(ps), 0);
    WordInStruct(t, at, h, Slots(ps), 4);
    WordInStruct(t, at, h, Slots(ps), 8);
    WordInStruct(t, at, h, Slots(ps), 12);
    FilledFacts(l.ptrs, slots);
    forall j | 0 <= j < slots
      ensures PointerAt(t, at + HEADER + SLOT * j) == if j < |l.ptrs| then l.ptrs[j] else 0
    {
      PointerInStruct(t, at, h, Slots(ps), SLOT * j);
      SlotField(ps, j);
    }
    StructSeen(t, at, l, group, slots);
  }

  lemma StructSeen(t: Bytes, at: nat, l: Layer, group: int, slots: nat)
    requires at + StructSize(slots) <= |t|
    requires WordAt(t, at) == l.kind && WordAt(t, at + 4) == group && WordAt(t, at + 8) == 0 && WordAt(t, at + 12) == 0
    requires forall j :: 0 <= j < slots ==>
      PointerAt(t, at + HEADER + SLOT * j) == if j < |l.ptrs| then l.ptrs[j] else 0
    ensures HoldsStruct(t, at, l, group, slots)
  {}

  lemma WordInStruct(t: Bytes, at: nat, h: Bytes, s: Bytes, k: nat)
    requires at + |h| + |s| <= |t| && t[at..at + |h| + |s|] == h + s && k + 4 <= |h|
    ensures WordAt(t, at + k) == WordAt(h, k)
  {
    hide DecodeI32;
    Seqs.Within(t, at, at + |h| + |s|, k, k + 4);
    assert at + (|h| + |s|) == at + |h| + |s|;
    assert (h + s)[k..k + 4] == h[k..k + 4];
  }

  lemma PointerInStruct(t: Bytes, at: nat, h: Bytes, s: Bytes, k: nat)
    requires at + |h| + |s| <= |t| && t[at..at + |h| + |s|] == h + s && k + SLOT <= |s|
    ensures PointerAt(t, at + |h| + k) == PointerAt(s, k)
  {
    hide Decode;
    Seqs.Within(t, at, at + |h| + |s|, |h| + k, |h| + k + SLOT);
    assert at + (|h| + |s|) == at + |h| + |s| && at + (|h| + k) == at + |h| + k;
    Seqs.After(h, s, k, k + SLOT);
  }

  // ---- the fused table: six pointers and no header

  datatype Fused = Fused(
    proj: Pointer, gateUp: Pointer,
    projPacked: Option<Pointer>, projScales: Option<Pointer>,
    gateUpPacked: Option<Pointer>, gateUpScales: Option<Pointer>)
  {
    function Pointers(): (ps: seq<Pointer>)
      ensures |ps| == 6
    {
      [proj, gateUp, OrNull(projPacked), OrNull(projScales), OrNull(gateUpPacked), OrNull(gateUpScales)]
    }
  }

  function OrNull(p: Option<Pointer>): Pointer { if p.Some? then p.value else 0 }

  function AllPointers(fs: seq<Fused>): (ps: seq<Pointer>)
    ensures |ps| == 6 * |fs|
  {
    if fs == [] then [] else fs[0].Pointers() + AllPointers(fs[1..])
  }

  lemma {:induction false} FusedPointerAt(fs: seq<Fused>, i: nat, j: nat)
    requires i < |fs| && j < 6
    ensures AllPointers(fs)[6 * i + j] == fs[i].Pointers()[j]
  {
    if i > 0 { FusedPointerAt(fs[1..], i - 1, j); }
  }

  /** _pack_prefill_fused_layer_weights. */
  method PackFused(fs: seq<Fused>) returns (blob: Bytes)
    ensures blob == Slots(AllPointers(fs))
  {
    hide Slots, Fused.Pointers;
    var buf := new Byte[48 * |fs|](i => 0);
    NoSlots(AllPointers(fs));
    for i := 0 to |fs|
      invariant buf[..48 * i] == Slots(AllPointers(fs[..i]))
    {
      PackPointers(buf, 48 * i, fs[i].Pointers());
      FusedSnoc(fs, i);
      SlotsAppend(AllPointers(fs[..i]), fs[i].Pointers());
    }
    assert fs[..|fs|] == fs;
    blob := buf[..];
  }

  lemma {:induction false} FusedSnoc(fs: seq<Fused>, i: nat)
    requires i < |fs|
    ensures AllPointers(fs[..i + 1]) == AllPointers(fs[..i]) + fs[i].Pointers()
  {
    hide Fused.Pointers;
    if i == 0 {
      assert fs[..1] == [fs[0]] && [fs[0]][1..] == [];
    } else {
      assert fs[..i + 1][1..] == fs[1..][..i] && fs[..i][1..] == fs[1..][..i - 1];
      FusedSnoc(fs[1..], i - 1);
      Seqs.Assoc(fs[0].Pointers(), AllPointers(fs[1..][..i - 1]), fs[i].Pointers());
    }
  }

  /** Every field of struct i at its C offset, an absent tensor read as a null pointer. */
  lemma FusedReadsBack(fs: seq<Fused>, i: nat)
    requires i < |fs|
    ensures var t, f := Slots(AllPointers(fs)), fs[i];
      && PointerAt(t, 48 * i) == f.proj && PointerAt(t, 48 * i + 8) == f.gateUp
      && PointerAt(t, 48 * i + 16) == (if f.projPacked.Some? then f.projPacked.value else 0)
      && PointerAt(t, 48 * i + 24) == (if f.projScales.Some? then f.projScales.value else 0)
      && PointerAt(t, 48 * i + 32) == (if f.gateUpPacked.Some? then f.gateUpPacked.value else 0)
      && PointerAt(t, 48 * i + 40) == (if f.gateUpScales.Some? then f.gateUpScales.value else 0)
  {
    hide Slots, AllPointers, PointerAt;
    FusedFieldAt(fs, i, 0);
    FusedFieldAt(fs, i, 1);
    FusedFieldAt(fs, i, 2);
    FusedFieldAt(fs, i, 3);
    FusedFieldAt(fs, i, 4);
    FusedFieldAt(fs, i, 5);
  }

  lemma FusedFieldAt(fs: seq<Fused>, i: nat, j: nat)
    requires i < |fs| && j < 6
    ensures PointerAt(Slots(AllPointers(fs)), 48 * i + SLOT * j) == fs[i].Pointers()[j]
  {
    hide Slots, AllPointers, Fused.Pointers, PointerAt;
    FusedPointerAt(fs, i, j);
    SlotField(AllPointers(fs), 6 * i + j);
    assert SLOT * (6 * i + j) == 48 * i + SLOT * j;
  }
}
