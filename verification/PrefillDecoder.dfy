/**
The stateful decoder of optimizations/megakernel/model_nvfp4.py with its cache of captured prefill graphs. GPU kernels
are uninterpreted functions; what is modelled is which buffers they are given and in what order state is reset, written
and replayed.
*/
module PrefillDecoder {
  /** The device kernels: `zero` is the content of freshly zeroed caches; a prefill maps caches and tokens to caches,
      hidden state and the next token; a decode step also reads the hidden buffer and the position; a run of several
      steps gives one token per step, the last of which is also the next token. */
  datatype Kernels<!C, !H> = Kernels(
    zero: C,
    prefill: (C, seq<int>) -> (C, H, int),
    rawPrefill: (C, H, seq<int>) -> (C, H, int),
    decode: (C, H, int, nat) -> (C, H, int),
    decodeMany: (C, H, int, nat, nat) -> (C, H, seq<int>))

  datatype Backend = NVFP4 | BF16
  datatype Mode = Raw | Hybrid

  /** A torch tensor argument, as far as prefill_tokens looks at it. */
  datatype TokenTensor = TokenTensor(cuda: bool, int32: bool, dim: nat, ids: seq<int>)

  datatype Error = TypeError | RuntimeError | ValueError
  datatype Tokens = Tokens(tokens: seq<int>) | Failed(error: Error)
  datatype Result = Ok(token: int) | Err(error: Error)

  /** Scratch buffers for prompts of up to `tokens` tokens. */
  class Buffers {
    const tokens: nat

    constructor (tokens: nat)
      ensures this.tokens == tokens
    {
      this.tokens := tokens;
    }
  }

  /** A captured graph: on replay it zeroes the caches and runs prefill on the ids found in its own id buffer, with the
      scratch buffers that were current when it was captured. */
  class Graph {
    const ids: array<int>
    const buffers: Buffers

    constructor (ids: array<int>, buffers: Buffers)
      ensures this.ids == ids && this.buffers == buffers
    {
      this.ids, this.buffers := ids, buffers;
    }
  }

  /** Everything a caller can observe between calls. */
  datatype Observable<C, H> = Observable(caches: C, hidden: H, out: int, position: nat)

  // ---- the machine without graphs or buffers

  datatype Op = Prefill(tensor: TokenTensor) | Step(token: int) | StepMany(token: int, count: int) | Reset

  predicate WellTyped(t: TokenTensor) { t.cuda && t.int32 && t.dim == 1 }

  /** What one call does to the observable state, described without any cache of graphs. */
  function Apply<C, H>(k: Kernels<C, H>, backend: Backend, mode: Mode, s: Observable<C, H>, op: Op): Observable<C, H> {
    match op
    case Reset => s.(caches := k.zero, position := 0)
    case Step(token) =>
      var (c, h, o) := k.decode(s.caches, s.hidden, token, s.position);
      Observable(c, h, o, s.position + 1)
    case StepMany(token, n) =>
      if backend.BF16? || n <= 0 then s
      else
        var (c, h, tokens) := k.decodeMany(s.caches, s.hidden, token, s.position, n);
        Observable(c, h, LastOf(tokens, s.out), s.position + n)
    case Prefill(t) =>
      if !WellTyped(t) || backend.BF16? then s
      else if mode.Raw? then
        var (c, h, o) := k.rawPrefill(k.zero, s.hidden, t.ids);
        Observable(c, h, o, |t.ids|)
      else
        var (c, h, o) := k.prefill(k.zero, t.ids);
        Observable(c, h, o, |t.ids|)
  }

  /** The token buffer after a run of steps. */
  function LastOf(tokens: seq<int>, before: int): int { if tokens == [] then before else tokens[|tokens| - 1] }

  function ApplyAll<C, H>(k: Kernels<C, H>, backend: Backend, mode: Mode, s: Observable<C, H>,
                          ops: seq<Op>): Observable<C, H>
    decreases |ops|
  {
    if ops == [] then s else ApplyAll(k, backend, mode, Apply(k, backend, mode, s, ops[0]), ops[1..])
  }

  // ---- the decoder

  class Decoder<C, H> {
    const kernels: Kernels<C, H>
    const backend: Backend
    const mode: Mode
    const graphEnabled: bool

    var position: nat
    var caches: C
    var hidden: H
    var out: int
    var buffers: Buffers?
    var bufferTokens: nat
    var graphs: map<nat, Graph>

    /** Every cached graph has an id buffer of exactly its length, scratch for at least that length, and shares its id
        buffer with no other graph. */
    ghost predicate Valid()
      reads this
    {
      && (graphEnabled ==> backend.NVFP4? && mode.Hybrid?)
      && (if buffers == null then bufferTokens == 0 else buffers.tokens == bufferTokens)
      && (forall n :: n in graphs ==> graphs[n].ids.Length == n && graphs[n].buffers.tokens >= n)
      && (forall m, n :: m in graphs && n in graphs && m != n ==> graphs[m].ids != graphs[n].ids)
    }

    ghost function Seen(): Observable<C, H>
      reads this
    {
      Observable(caches, hidden, out, position)
    }

    /** The id buffers owned by the cached graphs. */
    ghost function Owned(): set<object>
      reads this
    {
      set n | n in graphs :: graphs[n].ids
    }

    constructor (kernels: Kernels<C, H>, backend: Backend, mode: Mode, wantGraphs: bool, hidden: H)
      ensures Valid() && this.kernels == kernels && this.backend == backend && this.mode == mode
      ensures graphEnabled == (backend.NVFP4? && mode.Hybrid? && wantGraphs)
      ensures Seen() == Observable(kernels.zero, hidden, 0, 0) && graphs == map[] && bufferTokens == 0
    {
      this.kernels, this.backend, this.mode := kernels, backend, mode;
      graphEnabled := backend.NVFP4? && mode.Hybrid? && wantGraphs;
      position, caches, this.hidden, out := 0, kernels.zero, hidden, 0;
      buffers, bufferTokens, graphs := null, 0, map[];
    }

    method EnsurePrefillBuffers(maxTokens: nat) returns (b: Buffers)
      requires Valid()
      modifies this`buffers, this`bufferTokens
      ensures Valid() && b == buffers && b.tokens >= maxTokens
      ensures if old(buffers) != null && old(bufferTokens) >= maxTokens then b == old(buffers)
        else fresh(b) && b.tokens == maxTokens
      ensures bufferTokens >= old(bufferTokens)
    {
      if buffers != null && bufferTokens >= maxTokens {
        return buffers;
      }
      b := new Buffers(maxTokens);
      buffers := b;
      bufferTokens := maxTokens;
    }

    method ResetRuntimeState()
      requires Valid()
      modifies this`position, this`caches
      ensures Valid() && position == 0 && caches == kernels.zero
    {
      position := 0;
      caches := kernels.zero;
    }

    /** _run_prefill_bf16_nvfp4_lm; the kernel needs scratch for every token. */
    method RunPrefill(ids: seq<int>, b: Buffers)
      requires Valid() && b.tokens >= |ids|
      modifies this`caches, this`hidden, this`out
      ensures Valid() && (caches, hidden, out) == kernels.prefill(old(caches), ids)
    {
      var (c, h, o) := kernels.prefill(caches, ids);
      caches, hidden, out := c, h, o;
    }

    /** _build_prefill_graph: a warm-up on zero tokens, then a capture that records the device work but performs only
        the host-side reset of the position. */
    method BuildPrefillGraph(n: nat) returns (g: Graph)
      requires Valid() && n !in graphs
      modifies this
      ensures Valid() && graphs == old(graphs)[n := g] && fresh(g.ids) && g.buffers == buffers
      ensures position == 0 && (caches, hidden, out) == kernels.prefill(kernels.zero, seq(n, i => 0))
      ensures bufferTokens >= old(bufferTokens)
    {
      var b := EnsurePrefillBuffers(n);
      var staticIds := new int[n](i => 0);
      ResetRuntimeState();
      assert staticIds[..] == seq(n, i => 0);
      RunPrefill(staticIds[..], b);
      position := 0;
      g := new Graph(staticIds, b);
      graphs := graphs[n := g];
    }

    method PrefillGraphState(n: nat) returns (g: Graph)
      requires Valid()
      modifies this
      ensures Valid() && n in graphs && g == graphs[n]
      ensures graphs == if n in old(graphs) then old(graphs) else old(graphs)[n := g]
      ensures n !in old(graphs) ==> fresh(g.ids)
      ensures bufferTokens >= old(bufferTokens)
    {
      if n in graphs {
        return graphs[n];
      }
      g := BuildPrefillGraph(n);
    }

    /** graph.replay(): the recorded reset and prefill, on the captured buffers; the host position is not touched. */
    method Replay(g: Graph)
      requires Valid() && g.buffers.tokens >= g.ids.Length
      modifies this`caches, this`hidden, this`out
      ensures Valid() && (caches, hidden, out) == kernels.prefill(kernels.zero, g.ids[..])
    {
      caches := kernels.zero;
      RunPrefill(g.ids[..], g.buffers);
    }

    method CopyIds(dst: array<int>, ids: seq<int>)
      requires dst.Length == |ids|
      modifies dst
      ensures dst[..] == ids
    {
      for i := 0 to |ids|
        invariant dst[..i] == ids[..i]
      {
        dst[i] := ids[i];
      }
    }

    /** prefill_tokens: with or without graphs, and whatever was called before, the observable state afterwards is that
        of the plain machine; capacity never shrinks. */
    method PrefillTokens(t: TokenTensor) returns (r: Result)
      requires Valid()
      modifies this, Owned()
      ensures Valid() && fresh(Owned() - old(Owned()))
      ensures Seen() == Apply(kernels, backend, mode, old(Seen()), Prefill(t))
      ensures r == if !WellTyped(t) then Err(TypeError) else if backend.BF16? then Err(RuntimeError) else Ok(out)
      ensures r == Err(TypeError) <==> !(t.cuda && t.int32 && t.dim == 1)
      ensures bufferTokens >= old(bufferTokens) && old(graphs.Keys) <= graphs.Keys
    {
      if !t.cuda || !t.int32 || t.dim != 1 {
        return Err(TypeError);
      }
      var n := |t.ids|;
      if backend.NVFP4? && mode.Raw? {
        ResetRuntimeState();
        var (c, h, o) := kernels.rawPrefill(caches, hidden, t.ids);
        caches, hidden, out := c, h, o;
      } else if backend.NVFP4? {
        if graphEnabled {
          PrefillByGraph(t.ids);
        } else {
          ResetRuntimeState();
          var b := EnsurePrefillBuffers(n);
          RunPrefill(t.ids, b);
        }
      } else {
        return Err(RuntimeError);
      }
      position := n;
      return Ok(out);
    }

    /** The graph branch of prefill_tokens. */
    method PrefillByGraph(ids: seq<int>)
      requires Valid()
      modifies this, Owned()
      ensures Valid() && fresh(Owned() - old(Owned()))
      ensures (caches, hidden, out) == kernels.prefill(kernels.zero, ids)
      ensures bufferTokens >= old(bufferTokens) && old(graphs.Keys) <= graphs.Keys
    {
      var g := PrefillGraphState(|ids|);
      CopyIds(g.ids, ids);
      Replay(g);
    }

    /** step. */
    method DecodeStep(token: int) returns (next: int)
      requires Valid()
      modifies this`caches, this`hidden, this`out, this`position
      ensures Valid() && next == out
      ensures Seen() == Apply(kernels, backend, mode, old(Seen()), Step(token))
    {
      var (c, h, o) := kernels.decode(caches, hidden, token, position);
      caches, hidden, out := c, h, o;
      position := position + 1;
      return out;
    }

    /** step_many: several decode steps in one launch; the exact errors, and nothing to do for zero steps. */
    method DecodeMany(token: int, n: int) returns (r: Tokens)
      requires Valid()
      modifies this`caches, this`hidden, this`out, this`position
      ensures Valid() && Seen() == Apply(kernels, backend, mode, old(Seen()), StepMany(token, n))
      ensures backend.BF16? ==> r == Failed(RuntimeError)
      ensures !backend.BF16? && n < 0 ==> r == Failed(ValueError)
      ensures !backend.BF16? && n == 0 ==> r == Tokens([])
      ensures !backend.BF16? && n > 0 ==>
        r == Tokens(kernels.decodeMany(old(caches), old(hidden), token, old(position), n).2)
      ensures out == if r.Tokens? && r.tokens != [] then r.tokens[|r.tokens| - 1] else old(out)
    {
      if backend.BF16? {
        return Failed(RuntimeError);
      }
      if n < 0 {
        return Failed(ValueError);
      }
      if n == 0 {
        return Tokens([]);
      }
      var (c, h, tokens) := kernels.decodeMany(caches, hidden, token, position, n);
      caches, hidden, out := c, h, LastOf(tokens, out);
      position := position + n;
      return Tokens(tokens);
    }

    method Call(op: Op)
      requires Valid()
      modifies this, Owned()
      ensures Valid() && fresh(Owned() - old(Owned()))
      ensures Seen() == Apply(kernels, backend, mode, old(Seen()), op)
      ensures bufferTokens >= old(bufferTokens) && old(graphs.Keys) <= graphs.Keys
    {
      match op {
        case Prefill(t) => var r := PrefillTokens(t);
        case Step(token) => var next := DecodeStep(token);
        case StepMany(token, n) => var r := DecodeMany(token, n);
        case Reset => ResetRuntimeState();
      }
    }

    /** Any sequence of calls refines the plain machine. */
    method Run(ops: seq<Op>)
      requires Valid()
      modifies this, Owned()
      ensures Valid() && fresh(Owned() - old(Owned()))
      ensures Seen() == ApplyAll(kernels, backend, mode, old(Seen()), ops)
      ensures bufferTokens >= old(bufferTokens) && old(graphs.Keys) <= graphs.Keys
      decreases |ops|
    {
      hide Valid, Apply;
      if ops != [] {
        Call(ops[0]);
        Run(ops[1..]);
      }
    }
  }

  /** Two decoders over the same kernels, one with graph caching and one without, stay indistinguishable over every
      sequence of calls. */
  method GraphsAreInvisible<C, H>(cached: Decoder<C, H>, plain: Decoder<C, H>, ops: seq<Op>)
    requires cached != plain && cached.Valid() && plain.Valid() && cached.Owned() !! plain.Owned()
    requires cached.kernels == plain.kernels && cached.backend == plain.backend && cached.mode == plain.mode
    requires cached.Seen() == plain.Seen()
    modifies cached, plain, cached.Owned(), plain.Owned()
    ensures cached.Valid() && plain.Valid() && cached.Seen() == plain.Seen()
  {
    cached.Run(ops);
    plain.Run(ops);
  }

  /** After a well-typed hybrid prefill nothing of the earlier history is observable. */
  lemma {:induction false} PrefillForgetsHistory<C, H>(
    k: Kernels<C, H>, s: Observable<C, H>, s': Observable<C, H>, before: seq<Op>, before': seq<Op>, t: TokenTensor,
    after: seq<Op>)
    requires WellTyped(t)
    ensures ApplyAll(k, NVFP4, Hybrid, s, before + [Prefill(t)] + after) ==
      ApplyAll(k, NVFP4, Hybrid, s', before' + [Prefill(t)] + after)
  {
    ApplySplit(k, s, before, [Prefill(t)] + after);
    ApplySplit(k, s', before', [Prefill(t)] + after);
    assert before + [Prefill(t)] + after == before + ([Prefill(t)] + after);
    assert before' + [Prefill(t)] + after == before' + ([Prefill(t)] + after);
    assert ([Prefill(t)] + after)[1..] == after;
  }

  lemma {:induction false} ApplySplit<C, H>(k: Kernels<C, H>, s: Observable<C, H>, a: seq<Op>, b: seq<Op>)
    ensures ApplyAll(k, NVFP4, Hybrid, s, a + b) == ApplyAll(k, NVFP4, Hybrid, ApplyAll(k, NVFP4, Hybrid, s, a), b)
    decreases |a|
  {
    if a == [] {
      assert a + b == b;
    } else {
      assert (a + b)[1..] == a[1..] + b;
      ApplySplit(k, Apply(k, NVFP4, Hybrid, s, a[0]), a[1..], b);
    }
  }
}
