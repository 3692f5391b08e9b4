/**
The lazy tensor plan of server/scripts/convert_moss_image.py: entries are declared first and made one by one
while writing. A quantized weight leaves its scale in a dictionary that the next entry empties again.
*/
module MossPlan {
  import opened Vectors
  import opened Convrot
  import opened Arith
  import Seqs

  datatype RawWeight = RawWeight(rows: seq<Vector>, cols: nat)

  /** A [rows][cols] weight. */
  type Weight = w: RawWeight | forall i :: 0 <= i < |w.rows| ==> |w.rows[i]| == w.cols witness RawWeight([], 0)

  type Rotation = m: Matrix | IsSquare(m, GROUP) ghost witness seq(GROUP, i => seq(GROUP, j => 0.0))

  datatype Data = Bf16Matrix(w: Weight) | Other(dims: seq<nat>, width: nat)

  /** A DiT tensor of the checkpoint. */
  datatype Source = Source(name: string, data: Data) {
    function Shape(): seq<nat> { if data.Bf16Matrix? then [|data.w.rows|, data.w.cols] else data.dims }
    function ItemSize(): nat { if data.Bf16Matrix? then 2 else data.width }
  }

  /** What a thunk returns when it is called. */
  datatype Payload =
    | Int8(q: seq<seq<int>>, cols: nat)
    | Scales(scale: seq<real>)
    | Array(shape: seq<nat>, itemsize: nat)

  datatype Thunk =
    | Quantized(w: Weight, module_: string)
    | PopScale(module_: string)
    | Held(array: Payload)

  datatype Entry = Entry(name: string, shape: seq<nat>, itemsize: nat, make: Thunk)

  datatype Error = KeyError | QuantizeError
  datatype Outcome<T> = Done(value: T) | Failed(error: Error)

  type Store = map<string, seq<real>>

  /** The byte count declared for an entry, before any data exists. */
  function DeclaredBytes(e: Entry): nat { Product(e.shape) * e.itemsize }

  /** The bytes of a payload: one per int8, four per scale. */
  function PayloadBytes(p: Payload): nat {
    match p
    case Int8(q, cols) => |q| * cols
    case Scales(s) => |s| * 4
    case Array(shape, itemsize) => Product(shape) * itemsize
  }

  function EndsWith(s: string, suffix: string): bool {
    |suffix| <= |s| && s[|s| - |suffix|..] == suffix
  }

  const TARGETS: seq<string> :=
    [".proj.qkv.weight", ".proj.o.weight", ".proj.ffn_up_gate.weight", ".proj.ffn_down.weight"]

  /** str.endswith with a tuple. */
  predicate EndsWithAny(s: string, suffixes: seq<string>) { exists x :: x in suffixes && EndsWith(s, x) }

  lemma TargetIff(name: string)
    ensures EndsWithAny(name, TARGETS) <==> IsTarget(name)
  {
    hide EndsWith;
    assert TARGETS[0] in TARGETS && TARGETS[1] in TARGETS && TARGETS[2] in TARGETS && TARGETS[3] in TARGETS;
  }

  /** The module is the name without its last component. */
  lemma TargetModule(name: string)
    requires IsTarget(name)
    ensures name == ModuleOf(name) + ".weight"
  {
    hide EndsWith;
    TargetTails();
    if EndsWith(name, ".proj.qkv.weight") {
      SuffixOfSuffix(name, ".proj.qkv", ".weight");
    } else if EndsWith(name, ".proj.o.weight") {
      SuffixOfSuffix(name, ".proj.o", ".weight");
    } else if EndsWith(name, ".proj.ffn_up_gate.weight") {
      SuffixOfSuffix(name, ".proj.ffn_up_gate", ".weight");
    } else {
      SuffixOfSuffix(name, ".proj.ffn_down", ".weight");
    }
    WithoutSuffix(name);
  }

  lemma TargetTails()
    ensures ".proj.qkv" + ".weight" == ".proj.qkv.weight" && ".proj.o" + ".weight" == ".proj.o.weight"
    ensures ".proj.ffn_up_gate" + ".weight" == ".proj.ffn_up_gate.weight"
    ensures ".proj.ffn_down" + ".weight" == ".proj.ffn_down.weight"
  {}

  lemma WithoutSuffix(name: string)
    requires EndsWith(name, ".weight")
    ensures name == ModuleOf(name) + ".weight"
  {
    assert name == name[..|name| - 7] + name[|name| - 7..];
  }

  lemma SuffixOfSuffix(s: string, x: string, y: string)
    requires EndsWith(s, x + y)
    ensures EndsWith(s, y)
  {
    assert s[|s| - |y|..] == s[|s| - |x + y|..][|x|..] == (x + y)[|x|..];
  }

  predicate IsTarget(name: string) {
    || EndsWith(name, ".proj.qkv.weight") || EndsWith(name, ".proj.o.weight")
    || EndsWith(name, ".proj.ffn_up_gate.weight") || EndsWith(name, ".proj.ffn_down.weight")
  }

  predicate Skipped(name: string) { EndsWith(name, ".comfy_quant") || name == "rope.bands" }

  predicate IsQuantized(t: Source) { t.data.Bf16Matrix? && IsTarget(t.name) }

  function ModuleOf(name: string): string { if |name| < 7 then "" else name[..|name| - 7] }

  function WeightEntry(t: Source): Entry
    requires IsQuantized(t)
  {
    Entry("dit." + t.name, t.Shape(), 1, Quantized(t.data.w, ModuleOf(t.name)))
  }

  function ScaleEntry(t: Source): Entry
    requires IsQuantized(t)
  {
    Entry("dit." + ModuleOf(t.name) + ".weight_scale", t.Shape()[..1], 4, PopScale(ModuleOf(t.name)))
  }

  function HeldEntry(t: Source): Entry {
    Entry("dit." + t.name, t.Shape(), t.ItemSize(), Held(Array(t.Shape(), t.ItemSize())))
  }

  /** The entries main adds for one DiT tensor. */
  function EntriesOf(t: Source): seq<Entry>
  {
    if Skipped(t.name) then []
    else if IsQuantized(t) then [WeightEntry(t), ScaleEntry(t)]
    else [HeldEntry(t)]
  }

  function PlanOf(dit: seq<Source>): seq<Entry>
  {
    if dit == [] then [] else EntriesOf(dit[0]) + PlanOf(dit[1..])
  }

  function Columns(rows: seq<QuantizedRow>): seq<seq<int>> { seq(|rows|, i requires 0 <= i < |rows| => rows[i].q) }
  function ScalesOf(rows: seq<QuantizedRow>): seq<real> { seq(|rows|, i requires 0 <= i < |rows| => rows[i].scale) }

  /** Calling one thunk. */
  function Make(e: Entry, store: Store, rot: Rotation): Outcome<(Payload, Store)>
  {
    match e.make
    case Quantized(w, name) =>
      (match QuantizeConvrot(w.rows, w.cols, rot)
       case Ok(rows) => Done((Int8(Columns(rows), w.cols), store[name := ScalesOf(rows)]))
       case _ => Failed(QuantizeError))
    case PopScale(name) => if name in store then Done((Scales(store[name]), store - {name})) else Failed(KeyError)
    case Held(a) => Done((a, store))
  }

  /** Calling all thunks in order. */
  function MakeAll(entries: seq<Entry>, store: Store, rot: Rotation): Outcome<(seq<Payload>, Store)>
  {
    if entries == [] then Done(([], store))
    else match Make(entries[0], store, rot)
      case Failed(err) => Failed(err)
      case Done((p, store1)) =>
        match MakeAll(entries[1..], store1, rot)
        case Failed(err) => Failed(err)
        case Done((ps, store2)) => Done(([p] + ps, store2))
  }

  /** Plan with its entry list, and Write running the thunks against the shared dictionary. */
  class Plan {
    var entries: seq<Entry>

    constructor ()
      ensures entries == []
    {
      entries := [];
    }

    method AddEntry(e: Entry)
      modifies this
      ensures entries == old(entries) + [e]
    {
      entries := entries + [e];
    }

    method AddTensor(t: Source)
      modifies this
      ensures entries == old(entries) + EntriesOf(t)
    {
      hide EndsWith;
      var name := t.name;
      if EndsWith(name, ".comfy_quant") || name == "rope.bands" {
        return;
      }
      if t.data.Bf16Matrix? && EndsWithAny(name, TARGETS) {
        TargetIff(name);
        TargetModule(name);
        var module_ := name[..|name| - 7];
        var rows, cols := |t.data.w.rows|, t.data.w.cols;
        assert t.Shape()[..1] == [rows] && module_ == ModuleOf(name);
        AddEntry(Entry("dit." + name, [rows, cols], 1, Quantized(t.data.w, module_)));
        AddEntry(Entry("dit." + module_ + ".weight_scale", [rows], 4, PopScale(module_)));
        assert entries == old(entries) + [WeightEntry(t), ScaleEntry(t)];
      } else {
        TargetIff(name);
        AddEntry(Entry("dit." + name, t.Shape(), t.ItemSize(), Held(Array(t.Shape(), t.ItemSize()))));
      }
    }

    /** The loop of main over the DiT tensors. */
    method AddDit(dit: seq<Source>)
      modifies this
      ensures entries == old(entries) + PlanOf(dit)
    {
      hide EntriesOf;
      for k := 0 to |dit|
        invariant entries == old(entries) + PlanOf(dit[..k])
      {
        AddTensor(dit[k]);
        assert dit[..k + 1] == dit[..k] + [dit[k]];
        PlanOfAppend(dit[..k], [dit[k]]);
        assert [dit[k]][1..] == [] && PlanOf([dit[k]]) == EntriesOf(dit[k]);
      }
      assert dit[..|dit|] == dit;
    }

    method Write(rot: Rotation) returns (r: Outcome<(seq<Payload>, Store)>)
        ensures r == MakeAll(entries, map[], rot)
    {
      var scales: Store := map[];
      var written: seq<Payload> := [];
      hide Make;
      assert entries[0..] == entries;
      PrependNothing(MakeAll(entries, scales, rot));
      for k := 0 to |entries|
        invariant MakeAll(entries, map[], rot) == Prepend(written, MakeAll(entries[k..], scales, rot))
      {
        var rest := entries[k..];
        assert rest[0] == entries[k] && rest[1..] == entries[k + 1..];
        match Make(entries[k], scales, rot) {
          case Failed(err) =>
            return Failed(err);
          case Done((p, next)) =>
            PrependJoin(written, [p], MakeAll(entries[k + 1..], next, rot));
            written, scales := written + [p], next;
        }
      }
      assert entries[|entries|..] == [];
      assert written + [] == written;
      return Done((written, scales));
    }
  }

  function Prepend(ps: seq<Payload>, r: Outcome<(seq<Payload>, Store)>): Outcome<(seq<Payload>, Store)> {
    match r
    case Failed(err) => Failed(err)
    case Done((qs, store)) => Done((ps + qs, store))
  }

  lemma PrependNothing(r: Outcome<(seq<Payload>, Store)>)
    ensures Prepend([], r) == r
  {
    if r.Done? { assert [] + r.value.0 == r.value.0; }
  }

  lemma {:induction false} PlanOfAppend(a: seq<Source>, b: seq<Source>)
    ensures PlanOf(a + b) == PlanOf(a) + PlanOf(b)
  {
    hide EntriesOf;
    if a == [] {
      assert a + b == b;
    } else {
      PlanOfAppend(a[1..], b);
      assert (a + b)[1..] == a[1..] + b && (a + b)[0] == a[0];
      Seqs.Assoc(EntriesOf(a[0]), PlanOf(a[1..]), PlanOf(b));
    }
  }

  // ---- what a finished conversion contains

  /** What the file must hold for one DiT tensor, with no dictionary in sight. */
  function Expected(t: Source, rot: Rotation): seq<Payload>
  {
    if Skipped(t.name) then []
    else if IsQuantized(t) then
      (match QuantizeConvrot(t.data.w.rows, t.data.w.cols, rot)
       case Ok(rows) => [Int8(Columns(rows), t.data.w.cols), Scales(ScalesOf(rows))]
       case _ => [])
    else [Array(t.Shape(), t.ItemSize())]
  }

  /** The two payloads of a quantized tensor hold, row by row, the int8 values and the scale of the rotated row. */
  lemma ExpectedRow(t: Source, rot: Rotation, i: nat)
    requires !Skipped(t.name) && IsQuantized(t) && QuantizeConvrot(t.data.w.rows, t.data.w.cols, rot).Ok?
    requires i < |t.data.w.rows|
    ensures t.data.w.cols > 0 && t.data.w.cols % 256 == 0
    ensures var row := QuantizeRow(RotateRow(t.data.w.rows[i], rot, 256));
      && |Expected(t, rot)| == 2
      && Expected(t, rot)[0].Int8? && |Expected(t, rot)[0].q| == |t.data.w.rows| && Expected(t, rot)[0].q[i] == row.q
      && Expected(t, rot)[1].Scales? && |Expected(t, rot)[1].scale| == |t.data.w.rows|
      && Expected(t, rot)[1].scale[i] == row.scale
  {
    hide QuantizeRow, RotateRow, Skipped, IsTarget;
  }

  ghost predicate Convertible(t: Source, rot: Rotation)
  {
    !Skipped(t.name) && IsQuantized(t) ==> QuantizeConvrot(t.data.w.rows, t.data.w.cols, rot).Ok?
  }

  function ExpectedAll(dit: seq<Source>, rot: Rotation): seq<Payload>
  {
    if dit == [] then [] else Expected(dit[0], rot) + ExpectedAll(dit[1..], rot)
  }

  ghost predicate AllConvertible(dit: seq<Source>, rot: Rotation)
  {
    forall t :: t in dit ==> Convertible(t, rot)
  }

  lemma {:induction false} MakeAllAppend(a: seq<Entry>, b: seq<Entry>, store: Store, rot: Rotation)
    ensures MakeAll(a + b, store, rot) ==
      match MakeAll(a, store, rot)
      case Failed(err) => Failed(err)
      case Done((ps, store1)) => Prepend(ps, MakeAll(b, store1, rot))
  {
    hide Make;
    if a == [] {
      assert a + b == b;
      PrependNothing(MakeAll(b, store, rot));
    } else {
      assert (a + b)[1..] == a[1..] + b && (a + b)[0] == a[0];
      var m := Make(a[0], store, rot);
      if m.Done? {
        MakeAllAppend(a[1..], b, m.value.1, rot);
        var first := MakeAll(a[1..], m.value.1, rot);
        if first.Done? {
          PrependJoin([m.value.0], first.value.0, MakeAll(b, first.value.1, rot));
        }
      }
    }
  }

  lemma PrependJoin(p: seq<Payload>, q: seq<Payload>, r: Outcome<(seq<Payload>, Store)>)
    ensures Prepend(p, Prepend(q, r)) == Prepend(p + q, r)
  {
    if r.Done? { assert p + (q + r.value.0) == p + q + r.value.0; }
  }

  /** Making one tensor's entries from a dictionary without its module leaves the dictionary as it was. */
  lemma TensorEntries(t: Source, store: Store, rot: Rotation)
    requires ModuleOf(t.name) !in store
    ensures MakeAll(EntriesOf(t), store, rot) ==
      if Convertible(t, rot) then Done((Expected(t, rot), store)) else Failed(QuantizeError)
  {
    hide QuantizeConvrot;
    var es := EntriesOf(t);
    if Skipped(t.name) {
    } else if !IsQuantized(t) {
      MakeOne(es[0], store, rot);
    } else if Convertible(t, rot) {
      var store1 := Make(es[0], store, rot).value.1;
      assert es == [es[0]] + [es[1]];
      MakeOne(es[0], store, rot);
      MakeOne(es[1], store1, rot);
      MakeAllAppend([es[0]], [es[1]], store, rot);
      assert store1 - {ModuleOf(t.name)} == store;
      var e := Expected(t, rot);
      assert e == [e[0]] + [e[1]];
    } else {
      MakeOne(es[0], store, rot);
    }
  }

  lemma MakeOne(e: Entry, store: Store, rot: Rotation)
    ensures MakeAll([e], store, rot) ==
      match Make(e, store, rot)
      case Failed(err) => Failed(err)
      case Done((p, store1)) => Done(([p], store1))
  {
    hide Make;
    assert [e][1..] == [];
    if Make(e, store, rot).Done? {
      var (p, store1) := Make(e, store, rot).value;
      assert MakeAll([], store1, rot) == Done(([], store1));
      assert [p] + [] == [p];
    }
  }

  /** Whatever tensors the checkpoint holds, in any order: every scale thunk finds its scale (no KeyError), each weight
      is followed by its own scales, and the dictionary is empty again at the end. Only a refused quantization stops
      the writer. */
  lemma {:induction false} PlanDelivers(dit: seq<Source>, rot: Rotation)
    ensures MakeAll(PlanOf(dit), map[], rot) ==
      if AllConvertible(dit, rot) then Done((ExpectedAll(dit, rot), map[])) else Failed(QuantizeError)
  {
    if dit != [] {
      hide EntriesOf, Expected, Convertible, Make;
      TensorEntries(dit[0], map[], rot);
      PlanDelivers(dit[1..], rot);
      MakeAllAppend(EntriesOf(dit[0]), PlanOf(dit[1..]), map[], rot);
      assert forall t :: t in dit <==> t == dit[0] || t in dit[1..];
    }
  }

  // ---- declared sizes

  lemma TensorSizes(t: Source, rot: Rotation)
    requires Convertible(t, rot)
    ensures |EntriesOf(t)| == |Expected(t, rot)|
    ensures forall k :: 0 <= k < |EntriesOf(t)| ==> DeclaredBytes(EntriesOf(t)[k]) == PayloadBytes(Expected(t, rot)[k])
  {
    if !Skipped(t.name) && IsQuantized(t) {
      var shape := t.Shape();
      assert shape == [shape[0], shape[1]];
      assert Product(shape[1..]) == shape[1] by { assert shape[1..][1..] == []; }
      assert Product(shape) == shape[0] * shape[1];
      assert shape[..1][1..] == [] && Product(shape[..1]) == shape[0];
    }
  }

  /** The byte count declared for every tensor before writing is the byte count of the data written for it. */
  lemma {:induction false} DeclaredSizesHold(dit: seq<Source>, rot: Rotation)
    requires AllConvertible(dit, rot)
    ensures |PlanOf(dit)| == |ExpectedAll(dit, rot)|
    ensures forall k :: 0 <= k < |PlanOf(dit)| ==>
      DeclaredBytes(PlanOf(dit)[k]) == PayloadBytes(ExpectedAll(dit, rot)[k])
  {
    hide EntriesOf, Expected, Convertible, DeclaredBytes, PayloadBytes;
    if dit != [] {
      assert Convertible(dit[0], rot);
      TensorSizes(dit[0], rot);
      DeclaredSizesHold(dit[1..], rot);
    }
  }
}
