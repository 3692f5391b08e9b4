/**
The block allocator of the serving engine, server/src/common/concurrency/paged_kv_pool.{h,cpp}: every sequence's KV
cache is a list of fixed-size blocks drawn from one shared pool, addressed through generation-checked handles.
*/
module PagedKvPool {
  import opened Arith
  import Seqs

  const UINT32: nat := 0x1_0000_0000
  const UINT64: nat := 0x1_0000_0000_0000_0000

  datatype Status =
    Ok | InvalidArgument | DuplicateRequest | SequenceSlotsExhausted | BlocksExhausted | StaleHandle

  datatype Handle = Handle(slot: nat, generation: nat)

  datatype WriteSlot = WriteSlot(position: nat, block: nat, offset: nat, row: nat)

  /** One sequence slot: visible blocks, the stack of rolled-back blocks, and the reserved blocks. */
  datatype Sequence = Sequence(
    requestId: nat, generation: nat, length: nat, active: bool,
    table: seq<nat>, retry: seq<nat>, reserved: seq<nat>)

  // ---- free lists: the contents of the C++ min-heaps in ascending order

  ghost predicate Sorted(s: seq<nat>) { forall i, j :: 0 <= i < j < |s| ==> s[i] <= s[j] }

  /** give_back. */
  function GiveBack(free: seq<nat>, x: nat): seq<nat> {
    if free == [] || x <= free[0] then [x] + free else [free[0]] + GiveBack(free[1..], x)
  }

  lemma {:induction false} GiveBackMembers(free: seq<nat>, x: nat)
    ensures multiset(GiveBack(free, x)) == multiset(free) + multiset{x}
  {
    if free == [] || x <= free[0] {
      assert multiset([x] + free) == multiset{x} + multiset(free);
    } else {
      GiveBackMembers(free[1..], x);
      SplitFirst(free);
    }
  }

  lemma {:induction false} GiveBackFacts(free: seq<nat>, x: nat)
    requires Sorted(free)
    ensures Sorted(GiveBack(free, x)) && multiset(GiveBack(free, x)) == multiset(free) + multiset{x}
  {
    GiveBackMembers(free, x);
    if free == [] || x <= free[0] {
    } else {
      SortedTail(free);
      GiveBackFacts(free[1..], x);
      var t := GiveBack(free[1..], x);
      forall i | 0 <= i < |t| ensures free[0] <= t[i] { assert t[i] in multiset(t); }
      SortedCons(free[0], t);
    }
  }

  lemma SplitFirst(s: seq<nat>)
    requires s != []
    ensures multiset(s) == multiset{s[0]} + multiset(s[1..])
  {
    assert s == [s[0]] + s[1..];
  }

  lemma SplitLast(s: seq<nat>)
    requires s != []
    ensures multiset(s) == multiset(s[..|s| - 1]) + multiset{s[|s| - 1]}
  {
    assert s == s[..|s| - 1] + [s[|s| - 1]];
  }

  lemma SortedTail(s: seq<nat>)
    requires Sorted(s) && s != []
    ensures Sorted(s[1..])
  {}

  lemma SortedCons(x: nat, s: seq<nat>)
    requires Sorted(s) && forall i :: 0 <= i < |s| ==> x <= s[i]
    ensures Sorted([x] + s)
  {}

  function GiveBackAll(free: seq<nat>, xs: seq<nat>): seq<nat>
    decreases |xs|
  {
    if xs == [] then free else GiveBackAll(GiveBack(free, xs[0]), xs[1..])
  }

  lemma {:induction false} GiveBackAllFacts(free: seq<nat>, xs: seq<nat>)
    requires Sorted(free)
    ensures Sorted(GiveBackAll(free, xs)) && multiset(GiveBackAll(free, xs)) == multiset(free) + multiset(xs)
    decreases |xs|
  {
    hide Sorted, GiveBack;
    if xs != [] {
      GiveBackFacts(free, xs[0]);
      GiveBackAllFacts(GiveBack(free, xs[0]), xs[1..]);
      SplitFirst(xs);
    }
  }

  /** refill. */
  function UpTo(n: nat): (s: seq<nat>)
    ensures |s| == n
  {
    seq(n, i => i)
  }

  // ---- ownership

  function Owned(s: Sequence): multiset<nat> { multiset(s.table) + multiset(s.retry) + multiset(s.reserved) }

  function OwnedCount(s: Sequence): nat { |s.table| + |s.retry| + |s.reserved| }

  function OwnedAll(ss: seq<Sequence>): multiset<nat> {
    if ss == [] then multiset{} else Owned(ss[0]) + OwnedAll(ss[1..])
  }

  lemma {:induction false} OwnedUpdate(ss: seq<Sequence>, i: nat, s: Sequence)
    requires i < |ss|
    ensures OwnedAll(ss[i := s]) + Owned(ss[i]) == OwnedAll(ss) + Owned(s)
  {
    hide Owned;
    if i == 0 {
      assert ss[0 := s][1..] == ss[1..];
    } else {
      assert ss[i := s][1..] == ss[1..][i - 1 := s];
      OwnedUpdate(ss[1..], i - 1, s);
      var front, rest := Owned(ss[0]), OwnedAll(ss[1..]);
      assert OwnedAll(ss[i := s]) == front + OwnedAll(ss[1..][i - 1 := s]);
      Regroup(front, OwnedAll(ss[1..][i - 1 := s]), Owned(ss[i]), rest, Owned(s));
    }
  }

  lemma Regroup(a: multiset<nat>, b: multiset<nat>, c: multiset<nat>, d: multiset<nat>, e: multiset<nat>)
    requires b + c == d + e
    ensures a + b + c == a + d + e
  {
    assert a + b + c == a + (b + c);
    assert a + d + e == a + (d + e);
  }

  lemma {:induction false} OwnedPart(ss: seq<Sequence>, i: nat)
    requires i < |ss|
    ensures Owned(ss[i]) <= OwnedAll(ss)
  {
    if i > 0 { OwnedPart(ss[1..], i - 1); }
  }

  lemma {:induction false} OwnedTwo(ss: seq<Sequence>, i: nat, j: nat)
    requires i < j < |ss|
    ensures Owned(ss[i]) + Owned(ss[j]) <= OwnedAll(ss)
  {
    hide Owned;
    if i == 0 {
      OwnedPart(ss[1..], j - 1);
    } else {
      OwnedTwo(ss[1..], i - 1, j - 1);
    }
  }

  // ---- moving blocks

  /** Blocks needed for n tokens. */
  function BlocksFor(n: nat, blockSize: nat): (b: nat)
    requires blockSize > 0
  {
    if n == 0 then 0 else
      DivMod(n - 1, blockSize);
      1 + (n - 1) / blockSize
  }

  /** BlocksFor is the least number of blocks with room for n tokens. */
  lemma BlocksExact(n: nat, blockSize: nat, b: nat)
    requires blockSize > 0
    ensures BlocksFor(n, blockSize) <= b <==> n <= b * blockSize
  {
    if n > 0 {
      DivMod(n - 1, blockSize);
      var q := (n - 1) / blockSize;
      assert (1 + q) * blockSize == blockSize + q * blockSize;
      if b <= q { MulMonotone(b, q, blockSize); } else { MulMonotone(1 + q, b, blockSize); }
    }
  }

  /** Position p of a sequence lies in one of its blocks. */
  lemma BlockOfPosition(p: nat, n: nat, blockSize: nat)
    requires blockSize > 0 && p < n
    ensures 0 <= p / blockSize < BlocksFor(n, blockSize)
  {
    DivMod(p, blockSize);
    DivMod(n - 1, blockSize);
    if p / blockSize > (n - 1) / blockSize {
      MulMonotone((n - 1) / blockSize + 1, p / blockSize, blockSize);
    }
  }

  lemma BlocksMonotone(m: nat, n: nat, blockSize: nat)
    requires blockSize > 0 && m <= n
    ensures BlocksFor(m, blockSize) <= BlocksFor(n, blockSize)
  {
    if m > 0 { BlockOfPosition(m - 1, n, blockSize); }
  }

  /** One step of extend_block_table: rolled-back blocks first, then reserved, then free ones. */
  predicate CanTake(s: Sequence, free: seq<nat>) { s.retry != [] || s.reserved != [] || free != [] }

  function TakeBlock(s: Sequence, free: seq<nat>): (Sequence, seq<nat>)
    requires CanTake(s, free)
  {
    if s.retry != [] then
      (s.(table := s.table + [s.retry[|s.retry| - 1]], retry := s.retry[..|s.retry| - 1]), free)
    else if s.reserved != [] then (s.(table := s.table + [s.reserved[0]], reserved := s.reserved[1..]), free)
    else (s.(table := s.table + [free[0]]), free[1..])
  }

  function Extend(s: Sequence, free: seq<nat>, k: nat): (Sequence, seq<nat>)
    requires k <= |s.retry| + |s.reserved| + |free|
    decreases k
  {
    if k == 0 then (s, free) else
      var (s1, free1) := TakeBlock(s, free);
      Extend(s1, free1, k - 1)
  }

  lemma TakeRetry(s: Sequence)
    requires s.retry != []
    ensures Owned(s.(table := s.table + [s.retry[|s.retry| - 1]], retry := s.retry[..|s.retry| - 1])) == Owned(s)
  {
    var last := s.retry[|s.retry| - 1];
    SplitLast(s.retry);
    TableSnoc(s.table, last);
    Shift(multiset(s.table), multiset(s.retry[..|s.retry| - 1]), multiset(s.reserved), last);
  }

  lemma TakeReserved(s: Sequence)
    requires s.reserved != []
    ensures Owned(s.(table := s.table + [s.reserved[0]], reserved := s.reserved[1..])) == Owned(s)
  {
    SplitFirst(s.reserved);
    TableSnoc(s.table, s.reserved[0]);
    Shift(multiset(s.table), multiset(s.retry), multiset(s.reserved[1..]), s.reserved[0]);
  }

  lemma TakeFree(s: Sequence, free: seq<nat>)
    requires free != []
    ensures multiset(free[1..]) + Owned(s.(table := s.table + [free[0]])) == multiset(free) + Owned(s)
  {
    SplitFirst(free);
    TableSnoc(s.table, free[0]);
    var m := multiset{free[0]};
    assert Owned(s.(table := s.table + [free[0]])) == Owned(s) + m;
    assert multiset(free[1..]) + (Owned(s) + m) == m + multiset(free[1..]) + Owned(s);
  }

  lemma TakeBlockFacts(s: Sequence, free: seq<nat>)
    requires CanTake(s, free) && Sorted(free) && Sorted(s.reserved)
    ensures var (s1, free1) := TakeBlock(s, free);
      && Sorted(free1) && Sorted(s1.reserved)
      && multiset(free1) + Owned(s1) == multiset(free) + Owned(s)
      && |s1.retry| + |s1.reserved| + |free1| == |s.retry| + |s.reserved| + |free| - 1
      && OwnedCount(s1) >= OwnedCount(s)
      && |s1.table| == |s.table| + 1 && s1.table[..|s.table|] == s.table
      && s1 == s.(table := s1.table, retry := s1.retry, reserved := s1.reserved)
  {
    hide Sorted, Owned;
    if s.retry != [] {
      TakeRetry(s);
    } else if s.reserved != [] {
      TakeReserved(s);
      SortedTail(s.reserved);
    } else {
      TakeFree(s, free);
      SortedTail(free);
    }
  }

  lemma Shift(a: multiset<nat>, b: multiset<nat>, c: multiset<nat>, x: nat)
    ensures a + multiset{x} + b + c == a + (b + multiset{x}) + c == a + b + (multiset{x} + c)
  {}

  lemma TableSnoc(table: seq<nat>, x: nat)
    ensures multiset(table + [x]) == multiset(table) + multiset{x} && (table + [x])[..|table|] == table
  {}

  /** Extending keeps every visible block in place and neither loses nor invents a block. */
  lemma {:induction false} ExtendFacts(s: Sequence, free: seq<nat>, k: nat)
    requires k <= |s.retry| + |s.reserved| + |free| && Sorted(free) && Sorted(s.reserved)
    ensures var (s1, free1) := Extend(s, free, k);
      && Sorted(free1) && Sorted(s1.reserved)
      && multiset(free1) + Owned(s1) == multiset(free) + Owned(s)
      && OwnedCount(s1) >= OwnedCount(s)
      && |s1.table| == |s.table| + k && s1.table[..|s.table|] == s.table
      && s1 == s.(table := s1.table, retry := s1.retry, reserved := s1.reserved)
    decreases k
  {
    hide Owned;
    if k > 0 {
      TakeBlockFacts(s, free);
      var (s1, free1) := TakeBlock(s, free);
      hide TakeBlock;
      ExtendFacts(s1, free1, k - 1);
      var s2 := Extend(s1, free1, k - 1).0;
      assert s2.table[..|s.table|] == s2.table[..|s1.table|][..|s.table|];
    }
  }

  /** The i-th block a growing sequence gets: the retry stack from its top, then the lowest reserved blocks, then the
      lowest free ones. */
  function NextBlock(s: Sequence, free: seq<nat>, i: nat): nat
    requires i < |s.retry| + |s.reserved| + |free|
  {
    var r, v := |s.retry|, |s.reserved|;
    if i < r then s.retry[r - 1 - i] else if i < r + v then s.reserved[i - r] else free[i - r - v]
  }

  /** The table has gained k blocks in that order. */
  ghost predicate TableGained(s: Sequence, free: seq<nat>, k: nat, t: Sequence)
    requires k <= |s.retry| + |s.reserved| + |free|
  {
    && |t.table| == |s.table| + k && t.table[..|s.table|] == s.table
    && forall i :: 0 <= i < k ==> t.table[|s.table| + i] == NextBlock(s, free, i)
  }

  /** The three lists have lost k blocks in that order. */
  ghost predicate ListsLost(s: Sequence, free: seq<nat>, k: nat, t: Sequence, free': seq<nat>)
    requires k <= |s.retry| + |s.reserved| + |free|
  {
    var r, v := |s.retry|, |s.reserved|;
    && t.retry == s.retry[..if k <= r then r - k else 0]
    && t.reserved == s.reserved[if k <= r then 0 else if k <= r + v then k - r else v..]
    && free' == free[if k <= r + v then 0 else k - r - v..]
  }

  ghost predicate DrawnInOrder(s: Sequence, free: seq<nat>, k: nat, t: Sequence, free': seq<nat>)
    requires k <= |s.retry| + |s.reserved| + |free|
  {
    TableGained(s, free, k, t) && ListsLost(s, free, k, t, free')
  }

  lemma TakeTable(s: Sequence, free: seq<nat>, k: nat, t: Sequence)
    requires 0 < k <= |s.retry| + |s.reserved| + |free|
    requires var (s1, free1) := TakeBlock(s, free);
      k - 1 <= |s1.retry| + |s1.reserved| + |free1| && TableGained(s1, free1, k - 1, t)
    ensures TableGained(s, free, k, t)
  {
    var (s1, free1) := TakeBlock(s, free);
    var m := |s.table|;
    assert s1.table == s.table + [NextBlock(s, free, 0)];
    forall i | 0 <= i < k ensures t.table[m + i] == NextBlock(s, free, i) {
      if i == 0 {
        assert t.table[m] == t.table[..m + 1][m];
      } else {
        TakeNext(s, free, i);
        assert t.table[|s1.table| + (i - 1)] == NextBlock(s1, free1, i - 1);
      }
    }
    assert t.table[..m] == t.table[..m + 1][..m];
  }

  lemma TakeNext(s: Sequence, free: seq<nat>, i: nat)
    requires 0 < i < |s.retry| + |s.reserved| + |free|
    ensures var (s1, free1) := TakeBlock(s, free);
      && i - 1 < |s1.retry| + |s1.reserved| + |free1|
      && NextBlock(s1, free1, i - 1) == NextBlock(s, free, i)
  {}

  lemma TakeLists(s: Sequence, free: seq<nat>, k: nat, t: Sequence, free': seq<nat>)
    requires 0 < k <= |s.retry| + |s.reserved| + |free|
    requires var (s1, free1) := TakeBlock(s, free);
      k - 1 <= |s1.retry| + |s1.reserved| + |free1| && ListsLost(s1, free1, k - 1, t, free')
    ensures ListsLost(s, free, k, t, free')
  {}

  /** Extending draws on the sequence's own blocks before it touches the shared free list. */
  lemma {:induction false} ExtendInOrder(s: Sequence, free: seq<nat>, k: nat)
    requires k <= |s.retry| + |s.reserved| + |free|
    ensures DrawnInOrder(s, free, k, Extend(s, free, k).0, Extend(s, free, k).1)
    decreases k
  {
    if k > 0 {
      var (s1, free1) := TakeBlock(s, free);
      ExtendInOrder(s1, free1, k - 1);
      hide TableGained, ListsLost;
      TakeTable(s, free, k, Extend(s, free, k).0);
      TakeLists(s, free, k, Extend(s, free, k).0, Extend(s, free, k).1);
    }
  }

  /** take_reserved_blocks. */
  function Reserve(s: Sequence, free: seq<nat>, k: nat): (Sequence, seq<nat>)
    requires k <= |free|
    decreases k
  {
    if k == 0 then (s, free) else Reserve(s.(reserved := GiveBack(s.reserved, free[0])), free[1..], k - 1)
  }

  lemma ReserveOne(s: Sequence, free: seq<nat>)
    requires free != [] && Sorted(free) && Sorted(s.reserved)
    ensures var s1 := s.(reserved := GiveBack(s.reserved, free[0]));
      && Sorted(s1.reserved) && OwnedCount(s1) == OwnedCount(s) + 1
      && multiset(free[1..]) + Owned(s1) == multiset(free) + Owned(s)
  {
    hide Sorted, GiveBack;
    GiveBackFacts(s.reserved, free[0]);
    SplitFirst(free);
    var s1 := s.(reserved := GiveBack(s.reserved, free[0]));
    assert |multiset(s1.reserved)| == |s1.reserved| && |multiset(s.reserved)| == |s.reserved|;
    assert Owned(s1) == Owned(s) + multiset{free[0]};
    assert multiset(free[1..]) + (Owned(s) + multiset{free[0]}) == multiset{free[0]} + multiset(free[1..]) + Owned(s);
  }

  lemma {:induction false} ReserveFacts(s: Sequence, free: seq<nat>, k: nat)
    requires k <= |free| && Sorted(free) && Sorted(s.reserved)
    ensures var (s1, free1) := Reserve(s, free, k);
      && Sorted(free1) && Sorted(s1.reserved)
      && multiset(free1) + Owned(s1) == multiset(free) + Owned(s)
      && OwnedCount(s1) == OwnedCount(s) + k
      && s1 == s.(reserved := s1.reserved) && free1 == free[k..]
    decreases k
  {
    hide Sorted, Owned, OwnedCount, GiveBack;
    if k > 0 {
      ReserveOne(s, free);
      SortedTail(free);
      ReserveFacts(s.(reserved := GiveBack(s.reserved, free[0])), free[1..], k - 1);
    }
  }

  function Reverse(s: seq<nat>): (r: seq<nat>)
    ensures |r| == |s| && multiset(r) == multiset(s)
  {
    if s == [] then [] else
      assert s == [s[0]] + s[1..];
      Reverse(s[1..]) + [s[0]]
  }

  /** rollback_append on the block lists: the table is cut to k blocks, the cut blocks are stacked last first. */
  function CutTable(s: Sequence, k: nat): Sequence
    requires k <= |s.table|
  {
    s.(table := s.table[..k], retry := s.retry + Reverse(s.table[k..]))
  }

  lemma CutTableFacts(s: Sequence, k: nat)
    requires k <= |s.table|
    ensures Owned(CutTable(s, k)) == Owned(s) && OwnedCount(CutTable(s, k)) == OwnedCount(s)
  {
    assert s.table == s.table[..k] + s.table[k..];
  }

  /** Extending again by the blocks that were cut restores exactly the same table and stack. */
  lemma {:induction false} CutThenExtend(s: Sequence, k: nat, free: seq<nat>)
    requires k <= |s.table|
    ensures Extend(CutTable(s, k), free, |s.table| - k) == (s, free)
    decreases |s.table| - k
  {
    if k == |s.table| {
      assert s.table[..k] == s.table && s.retry + [] == s.retry;
    } else {
      var cut := CutTable(s, k);
      var n := |cut.retry| - 1;
      assert cut.retry[n] == s.table[k] && cut.retry[..n] == s.retry + Reverse(s.table[k + 1..]) by {
        assert s.table[k..][1..] == s.table[k + 1..];
        assert cut.retry == s.retry + Reverse(s.table[k + 1..]) + [s.table[k]];
      }
      assert s.table[..k] + [s.table[k]] == s.table[..k + 1];
      assert TakeBlock(cut, free) == (CutTable(s, k + 1), free);
      CutThenExtend(s, k + 1, free);
    }
  }

  /** A fresh pool hands out physical blocks in ascending order. */
  lemma {:induction false} FreshAscending(s: Sequence, first: nat, count: nat, k: nat)
    requires s.retry == [] && s.reserved == [] && k <= count
    ensures Extend(s, seq(count, i => first + i), k) ==
      (s.(table := s.table + seq(k, i => first + i)), seq(count - k, i => first + k + i))
    decreases k
  {
    if k == 0 {
      assert s.table + [] == s.table;
    } else {
      var free := seq(count, i => first + i);
      var s1 := s.(table := s.table + [first]);
      assert free[1..] == seq(count - 1, i => first + 1 + i);
      FreshAscending(s1, first + 1, count - 1, k - 1);
      assert [first] + seq(k - 1, i => first + 1 + i) == seq(k, i => first + i);
      assert s1.table + seq(k - 1, i => first + 1 + i) == s.table + seq(k, i => first + i);
      assert seq(count - 1 - (k - 1), i => first + 1 + (k - 1) + i) == seq(count - k, i => first + k + i);
    }
  }

  // ---- generations

  /** The generation of a re-acquired slot: 64-bit increment that skips 0. */
  function NextGeneration(g: nat): nat { if (g + 1) % UINT64 == 0 then 1 else (g + 1) % UINT64 }

  /** The generation of a slot k acquisitions after generation g. */
  function GenerationAfter(g: nat, k: nat): nat
    requires g > 0
  {
    (g - 1 + k) % (UINT64 - 1) + 1
  }

  lemma GenerationSteps(g: nat, k: nat)
    requires 0 < g < UINT64
    ensures NextGeneration(GenerationAfter(g, k)) == GenerationAfter(g, k + 1)
    ensures GenerationAfter(g, 0) == g
  {}

  lemma GenerationReturns(g: nat, k: nat)
    requires 0 < g < UINT64 && k < UINT64 - 1
    ensures GenerationAfter(g, k) == g <==> k == 0
  {}

  // ---- whole runs

  /** What one pool call may do to one slot: keep it, drop it, or acquire it under the next generation. */
  predicate Moved(s: Sequence, t: Sequence) {
    || (t.generation == s.generation && (t.active ==> s.active))
    || (Taken(s, t) && t.generation == NextGeneration(s.generation))
  }

  predicate Taken(s: Sequence, t: Sequence) { !s.active && t.active }

  ghost predicate Transition(ss: seq<Sequence>, ss': seq<Sequence>) {
    |ss| == |ss'| && forall i :: 0 <= i < |ss| ==> Moved(ss[i], ss'[i])
  }

  ghost predicate Run(run: seq<seq<Sequence>>) {
    forall i :: 0 < i < |run| ==> Transition(run[i - 1], run[i])
  }

  /** validate. */
  predicate Live(ss: seq<Sequence>, h: Handle) {
    h.slot < |ss| && ss[h.slot].active && ss[h.slot].generation == h.generation
  }

  lemma TransitionOne(ss: seq<Sequence>, slot: nat, s: Sequence)
    requires slot < |ss| && Moved(ss[slot], s)
    ensures Transition(ss, ss[slot := s])
  {}

  /** How often the slot was acquired between states a and c of a run. */
  ghost function Acquisitions(run: seq<seq<Sequence>>, slot: nat, a: nat, c: nat): nat
    requires Run(run) && a <= c < |run| && slot < |run[a]|
    decreases c - a
  {
    if a == c then 0 else
      assert Transition(run[a + 1 - 1], run[a + 1]);
      (if Taken(run[a][slot], run[a + 1][slot]) then 1 else 0) + Acquisitions(run, slot, a + 1, c)
  }

  lemma {:induction false} AcquisitionsSplit(run: seq<seq<Sequence>>, slot: nat, a: nat, b: nat, c: nat)
    requires Run(run) && a <= b <= c < |run| && slot < |run[a]|
    ensures |run[a]| == |run[b]| == |run[c]|
    ensures Acquisitions(run, slot, a, c) == Acquisitions(run, slot, a, b) + Acquisitions(run, slot, b, c)
    decreases c - a
  {
    hide Moved, Taken;
    if a < c {
      assert Transition(run[a + 1 - 1], run[a + 1]);
      if a < b {
        AcquisitionsSplit(run, slot, a + 1, b, c);
      } else {
        AcquisitionsSplit(run, slot, a + 1, a + 1, c);
      }
    }
  }

  /** The generation counts the acquisitions, and without one in between an active slot was active all along. */
  lemma {:induction false} GenerationCounts(run: seq<seq<Sequence>>, slot: nat, a: nat, c: nat)
    requires Run(run) && a <= c < |run| && slot < |run[a]| && 0 < run[a][slot].generation < UINT64
    ensures |run[c]| == |run[a]|
    ensures run[c][slot].generation == GenerationAfter(run[a][slot].generation, Acquisitions(run, slot, a, c))
    ensures Acquisitions(run, slot, a, c) == 0 && run[c][slot].active ==> run[a][slot].active
    decreases c - a
  {
    hide NextGeneration, GenerationAfter;
    GenerationSteps(run[a][slot].generation, 0);
    if a < c {
      AcquisitionsSplit(run, slot, a, c - 1, c);
      GenerationCounts(run, slot, a, c - 1);
      assert Transition(run[c - 1], run[c]);
      assert Moved(run[c - 1][slot], run[c][slot]);
      assert Acquisitions(run, slot, c, c) == 0;
      GenerationSteps(run[a][slot].generation, Acquisitions(run, slot, a, c - 1));
    }
  }

  /** Once a handle is stale it stays stale, as long as its slot is acquired fewer than 2^64 - 1 times. */
  lemma StaleStaysStale(run: seq<seq<Sequence>>, h: Handle, a: nat, b: nat, c: nat)
    requires Run(run) && a <= b <= c < |run|
    requires Live(run[a], h) && !Live(run[b], h) && 0 < h.generation < UINT64
    requires Acquisitions(run, h.slot, a, c) < 0xFFFF_FFFF_FFFF_FFFF
    ensures !Live(run[c], h)
  {
    hide GenerationAfter, Run, Acquisitions;
    AcquisitionsSplit(run, h.slot, a, b, c);
    GenerationCounts(run, h.slot, a, b);
    GenerationCounts(run, h.slot, a, c);
    GenerationReturns(h.generation, Acquisitions(run, h.slot, a, c));
    if Live(run[c], h) {
      GenerationSteps(h.generation, 0);
      GenerationCounts(run, h.slot, b, c);
    }
  }

  // ---- consistent pools

  predicate TableFits(s: Sequence, blockSize: nat)
    requires blockSize > 0
  {
    |s.table| == BlocksFor(s.length, blockSize)
  }

  function Blank(generation: nat): Sequence { Sequence(0, generation, 0, false, [], [], []) }

  ghost predicate SequenceOk(s: Sequence, blockSize: nat)
    requires blockSize > 0
  {
    && Sorted(s.reserved) && TableFits(s, blockSize) && s.length < UINT32 && s.generation < UINT64
    && (!s.active ==> s == Blank(s.generation)) && (s.active ==> s.generation > 0)
  }

  /** Every physical block is free or owned by one sequence, exactly once. */
  ghost predicate Conserved(ss: seq<Sequence>, free: seq<nat>, blockCount: nat) {
    multiset(free) + OwnedAll(ss) == multiset(UpTo(blockCount))
  }

  /** The free slots are the inactive ones, each once. */
  ghost predicate SlotsOk(ss: seq<Sequence>, freeSlots: seq<nat>) {
    forall x: nat :: multiset(freeSlots)[x] == if x < |ss| && !ss[x].active then 1 else 0
  }

  /** The request map is a bijection with the active slots. */
  ghost predicate IdsOk(ss: seq<Sequence>, ids: map<nat, nat>) {
    && (forall r :: r in ids ==> ids[r] < |ss| && ss[ids[r]].active && ss[ids[r]].requestId == r)
    && forall i :: 0 <= i < |ss| && ss[i].active ==> ss[i].requestId in ids && ids[ss[i].requestId] == i
  }

  ghost predicate AllOk(ss: seq<Sequence>, blockSize: nat)
    requires blockSize > 0
  {
    forall i :: 0 <= i < |ss| ==> SequenceOk(ss[i], blockSize)
  }

  datatype State = State(sequences: seq<Sequence>, freeSlots: seq<nat>, freeBlocks: seq<nat>, ids: map<nat, nat>)

  ghost predicate Consistent(p: State, blockCount: nat, blockSize: nat)
    requires blockSize > 0
  {
    && Sorted(p.freeBlocks) && Sorted(p.freeSlots)
    && AllOk(p.sequences, blockSize) && Conserved(p.sequences, p.freeBlocks, blockCount)
    && SlotsOk(p.sequences, p.freeSlots) && IdsOk(p.sequences, p.ids)
  }

  lemma ConsistentSlot(p: State, blockCount: nat, blockSize: nat, i: nat)
    requires blockSize > 0 && Consistent(p, blockCount, blockSize) && i < |p.sequences|
    ensures SequenceOk(p.sequences[i], blockSize) && TableFits(p.sequences[i], blockSize) && Sorted(p.freeBlocks)
  {
    hide SequenceOk, Sorted, Conserved, SlotsOk, IdsOk, TableFits;
    SlotFits(p.sequences[i], blockSize);
  }

  lemma SlotFits(s: Sequence, blockSize: nat)
    requires blockSize > 0 && SequenceOk(s, blockSize)
    ensures TableFits(s, blockSize)
  {}

  /** Changing one sequence, its blocks balanced against the free list, keeps the block invariants. */
  lemma UpdateBlocks(ss: seq<Sequence>, i: nat, s: Sequence, free: seq<nat>, free': seq<nat>, blockCount: nat,
                     blockSize: nat)
    requires i < |ss| && blockSize > 0 && AllOk(ss, blockSize) && SequenceOk(s, blockSize)
    requires Conserved(ss, free, blockCount) && multiset(free') + Owned(s) == multiset(free) + Owned(ss[i])
    ensures AllOk(ss[i := s], blockSize) && Conserved(ss[i := s], free', blockCount)
  {
    hide SequenceOk, Owned, UpTo;
    OwnedUpdate(ss, i, s);
    Rebalance(OwnedAll(ss[i := s]), Owned(ss[i]), OwnedAll(ss), Owned(s), multiset(free'), multiset(free));
  }

  lemma Rebalance(all': multiset<nat>, old_: multiset<nat>, all: multiset<nat>, new_: multiset<nat>,
                  free': multiset<nat>, free: multiset<nat>)
    requires all' + old_ == all + new_ && free' + new_ == free + old_
    ensures free' + all' == free + all
  {
    forall x: nat ensures (free' + all')[x] == (free + all)[x] {
      assert (all' + old_)[x] == (all + new_)[x];
      assert (free' + new_)[x] == (free + old_)[x];
    }
  }

  /** Replacing one active sequence by one with the same identity and rebalanced blocks keeps the pool consistent. */
  lemma UpdateConsistent(p: State, i: nat, s: Sequence, free': seq<nat>, blockCount: nat, blockSize: nat)
    requires i < |p.sequences| && blockSize > 0 && Consistent(p, blockCount, blockSize) && SequenceOk(s, blockSize)
    requires multiset(free') + Owned(s) == multiset(p.freeBlocks) + Owned(p.sequences[i]) && Sorted(free')
    requires p.sequences[i].active && s.active && s.requestId == p.sequences[i].requestId
    ensures Consistent(p.(sequences := p.sequences[i := s], freeBlocks := free'), blockCount, blockSize)
  {
    hide SequenceOk, Owned, AllOk, Conserved, Sorted;
    UpdateBlocks(p.sequences, i, s, p.freeBlocks, free', blockCount, blockSize);
  }

  lemma FreeSlot(p: State, blockCount: nat, blockSize: nat)
    requires blockSize > 0 && Consistent(p, blockCount, blockSize) && p.freeSlots != []
    ensures p.freeSlots[0] < |p.sequences|
    ensures p.sequences[p.freeSlots[0]] == Blank(p.sequences[p.freeSlots[0]].generation)
  {
    hide Conserved, IdsOk, Sorted, TableFits;
    assert multiset(p.freeSlots)[p.freeSlots[0]] > 0;
    ConsistentSlot(p, blockCount, blockSize, p.freeSlots[0]);
  }

  lemma TakeSlot(ss: seq<Sequence>, s: Sequence, freeSlots: seq<nat>)
    requires freeSlots != [] && freeSlots[0] < |ss| && SlotsOk(ss, freeSlots) && s.active && !ss[freeSlots[0]].active
    ensures SlotsOk(ss[freeSlots[0] := s], freeSlots[1..])
  {
    SplitFirst(freeSlots);
    var ss' := ss[freeSlots[0] := s];
    forall x: nat ensures multiset(freeSlots[1..])[x] == if x < |ss'| && !ss'[x].active then 1 else 0 {
      assert multiset(freeSlots)[x] == if x < |ss| && !ss[x].active then 1 else 0;
    }
  }

  lemma TakeId(ss: seq<Sequence>, slot: nat, s: Sequence, ids: map<nat, nat>)
    requires slot < |ss| && IdsOk(ss, ids) && !ss[slot].active && s.active && s.requestId !in ids
    ensures IdsOk(ss[slot := s], ids[s.requestId := slot])
  {}

  lemma AcquireConsistent(p: State, s: Sequence, free': seq<nat>, blockCount: nat, blockSize: nat)
    requires blockSize > 0 && Consistent(p, blockCount, blockSize) && p.freeSlots != []
    requires p.freeSlots[0] < |p.sequences| && !p.sequences[p.freeSlots[0]].active
    requires SequenceOk(s, blockSize) && s.active && s.requestId !in p.ids && Sorted(free')
    requires multiset(free') + Owned(s) == multiset(p.freeBlocks) + Owned(p.sequences[p.freeSlots[0]])
    ensures var slot := p.freeSlots[0];
      var after := State(p.sequences[slot := s], p.freeSlots[1..], free', p.ids[s.requestId := slot]);
      Consistent(after, blockCount, blockSize)
  {
    hide SequenceOk, Owned, AllOk, Conserved, Sorted, SlotsOk, IdsOk;
    var slot := p.freeSlots[0];
    UpdateBlocks(p.sequences, slot, s, p.freeBlocks, free', blockCount, blockSize);
    TakeSlot(p.sequences, s, p.freeSlots);
    TakeId(p.sequences, slot, s, p.ids);
    SortedTail(p.freeSlots);
  }

  lemma DropSlot(ss: seq<Sequence>, slot: nat, t: Sequence, freeSlots: seq<nat>)
    requires slot < |ss| && SlotsOk(ss, freeSlots) && ss[slot].active && !t.active
    ensures SlotsOk(ss[slot := t], GiveBack(freeSlots, slot))
  {
    hide GiveBack;
    GiveBackMembers(freeSlots, slot);
    var ss' := ss[slot := t];
    var fs: seq<nat> := GiveBack(freeSlots, slot);
    forall x: nat ensures multiset(fs)[x] == if x < |ss'| && !ss'[x].active then 1 else 0 {
      assert multiset(freeSlots)[x] == if x < |ss| && !ss[x].active then 1 else 0;
    }
  }

  lemma DropId(ss: seq<Sequence>, slot: nat, t: Sequence, ids: map<nat, nat>)
    requires slot < |ss| && IdsOk(ss, ids) && ss[slot].active && !t.active
    ensures IdsOk(ss[slot := t], ids - {ss[slot].requestId})
  {}

  lemma BlankOk(generation: nat, blockSize: nat)
    requires blockSize > 0 && generation < UINT64
    ensures SequenceOk(Blank(generation), blockSize) && Owned(Blank(generation)) == multiset{}
  {}

  lemma ReleaseConsistent(p: State, slot: nat, blockCount: nat, blockSize: nat)
    requires blockSize > 0 && Consistent(p, blockCount, blockSize) && slot < |p.sequences| && p.sequences[slot].active
    requires Owned(p.sequences[slot]) == multiset{}
    ensures var s := p.sequences[slot];
      var slots, ids := GiveBack(p.freeSlots, slot), p.ids - {s.requestId};
      Consistent(State(p.sequences[slot := Blank(s.generation)], slots, p.freeBlocks, ids), blockCount, blockSize)
  {
    hide Owned, AllOk, Conserved, Sorted, SlotsOk, IdsOk, GiveBack, TableFits;
    ConsistentSlot(p, blockCount, blockSize, slot);
    var t := Blank(p.sequences[slot].generation);
    BlankOk(t.generation, blockSize);
    hide SequenceOk;
    UpdateBlocks(p.sequences, slot, t, p.freeBlocks, p.freeBlocks, blockCount, blockSize);
    DropSlot(p.sequences, slot, t, p.freeSlots);
    DropId(p.sequences, slot, t, p.ids);
    GiveBackFacts(p.freeSlots, slot);
  }

  lemma EmptyConsistent(ss: seq<Sequence>, blockCount: nat, blockSize: nat)
    requires blockSize > 0
    requires forall i :: 0 <= i < |ss| ==> ss[i] == Blank(ss[i].generation) && ss[i].generation < UINT64
    ensures Consistent(State(ss, UpTo(|ss|), UpTo(blockCount), map[]), blockCount, blockSize)
  {
    NothingOwned(ss);
    forall x: nat ensures multiset(UpTo(|ss|))[x] == if x < |ss| && !ss[x].active then 1 else 0 { UpToOnce(|ss|, x); }
    forall i | 0 <= i < |ss| ensures SequenceOk(ss[i], blockSize) { BlankOk(ss[i].generation, blockSize); }
  }

  lemma {:induction false} NothingOwned(ss: seq<Sequence>)
    requires forall i :: 0 <= i < |ss| ==> ss[i] == Blank(ss[i].generation)
    ensures OwnedAll(ss) == multiset{}
  {
    if ss != [] { NothingOwned(ss[1..]); }
  }

  lemma {:induction false} UpToOnce(n: nat, x: nat)
    ensures multiset(UpTo(n))[x] == if x < n then 1 else 0
  {
    if n > 0 {
      UpToOnce(n - 1, x);
      assert UpTo(n) == UpTo(n - 1) + [n - 1];
    }
  }

  // ---- appending and rolling back

  function MakeSlot(s: Sequence, blockSize: nat, p: nat): WriteSlot
    requires blockSize > 0 && p < s.length && TableFits(s, blockSize)
  {
    BlockOfPosition(p, s.length, blockSize);
    var block := s.table[p / blockSize];
    DivMod(p, blockSize);
    MulNonNegative(block, blockSize);
    WriteSlot(p, block, p % blockSize, block * blockSize + p % blockSize)
  }

  /** The slots append returns: one per token, or only the ends. */
  datatype Appended = Appended(status: Status, count: nat, slots: seq<WriteSlot>, ends: seq<WriteSlot>)

  function Refused(status: Status): Appended { Appended(status, 0, [], []) }

  function SlotsFrom(s: Sequence, blockSize: nat, from: nat): (r: seq<WriteSlot>)
    requires blockSize > 0 && from <= s.length && TableFits(s, blockSize)
    ensures |r| == s.length - from
  {
    seq(s.length - from, i requires 0 <= i < s.length - from => MakeSlot(s, blockSize, from + i))
  }

  predicate Reachable(s: Sequence, free: seq<nat>, blockSize: nat, n: nat)
    requires blockSize > 0
  {
    BlocksFor(s.length + n, blockSize) <= OwnedCount(s) + |free|
  }

  /** How many blocks an append of n tokens adds to the table. */
  function Missing(s: Sequence, blockSize: nat, n: nat): nat
    requires blockSize > 0 && TableFits(s, blockSize)
  {
    BlocksMonotone(s.length, s.length + n, blockSize);
    BlocksFor(s.length + n, blockSize) - |s.table|
  }

  /** The sequence and the free list after an append, when enough blocks are within reach. */
  function Grown(s: Sequence, free: seq<nat>, blockSize: nat, n: nat): (Sequence, seq<nat>)
    requires blockSize > 0 && TableFits(s, blockSize) && Reachable(s, free, blockSize, n)
  {
    var (t, free') := Extend(s, free, Missing(s, blockSize, n));
    (t.(length := s.length + n), free')
  }

  lemma GrownTable(s: Sequence, free: seq<nat>, blockSize: nat, n: nat)
    requires blockSize > 0 && TableFits(s, blockSize) && Sorted(s.reserved) && Sorted(free)
    requires Reachable(s, free, blockSize, n)
    ensures var (t, free') := Grown(s, free, blockSize, n);
      && TableFits(t, blockSize) && Sorted(t.reserved) && Sorted(free') && t.length == s.length + n
      && t.active == s.active && t.requestId == s.requestId && t.generation == s.generation
      && OwnedCount(t) >= OwnedCount(s) && multiset(free') + Owned(t) == multiset(free) + Owned(s)
      && |s.table| <= |t.table| && t.table[..|s.table|] == s.table
  {
    hide Extend, BlocksFor, Sorted;
    ExtendFacts(s, free, Missing(s, blockSize, n));
  }

  /** rollback_append on a sequence. */
  function RolledBack(s: Sequence, blockSize: nat, n: nat): Sequence
    requires blockSize > 0 && n <= s.length && TableFits(s, blockSize)
  {
    BlocksMonotone(s.length - n, s.length, blockSize);
    CutTable(s, BlocksFor(s.length - n, blockSize)).(length := s.length - n)
  }

  lemma RolledBackTable(s: Sequence, blockSize: nat, n: nat)
    requires blockSize > 0 && n <= s.length && TableFits(s, blockSize)
    ensures var t := RolledBack(s, blockSize, n);
      && TableFits(t, blockSize) && OwnedCount(t) == OwnedCount(s) && Owned(t) == Owned(s) && t.reserved == s.reserved
  {
    hide Reverse, BlocksFor;
    BlocksMonotone(s.length - n, s.length, blockSize);
    CutTableFacts(s, BlocksFor(s.length - n, blockSize));
  }

  /** After a rollback the same append restores the same sequence, hence the same physical rows, whatever the other
      sequences did to the free list in between. */
  lemma RetryGetsSameRows(s: Sequence, blockSize: nat, n: nat, free: seq<nat>)
    requires blockSize > 0 && n <= s.length && TableFits(s, blockSize)
    ensures var back := RolledBack(s, blockSize, n);
      && TableFits(back, blockSize) && Reachable(back, free, blockSize, n)
      && Grown(back, free, blockSize, n) == (s, free)
  {
    hide BlocksFor, Extend, Reverse;
    var k := BlocksFor(s.length - n, blockSize);
    BlocksMonotone(s.length - n, s.length, blockSize);
    CutTableFacts(s, k);
    CutThenExtend(s, k, free);
    ExtendIgnoresLength(CutTable(s, k), free, |s.table| - k, s.length - n);
  }

  lemma {:induction false} ExtendIgnoresLength(s: Sequence, free: seq<nat>, k: nat, length: nat)
    requires k <= |s.retry| + |s.reserved| + |free|
    ensures Extend(s.(length := length), free, k) == (Extend(s, free, k).0.(length := length), Extend(s, free, k).1)
    decreases k
  {
    if k > 0 {
      var (s1, free1) := TakeBlock(s, free);
      ExtendIgnoresLength(s1, free1, k - 1, length);
    }
  }

  // ---- admission

  /** What can happen to an admitted sequence: appends, each facing whatever free list the other sequences left, and
      rollbacks. */
  datatype Move = Grow(count: nat, free: seq<nat>) | Shrink(count: nat)

  ghost predicate Fits(length: nat, moves: seq<Move>, capacity: nat)
    decreases |moves|
  {
    length <= capacity &&
    (moves == [] ||
     match moves[0]
     case Grow(n, free) => Sorted(free) && Fits(length + n, moves[1..], capacity)
     case Shrink(n) => n <= length && Fits(length - n, moves[1..], capacity))
  }

  /** Every append of the run finds the blocks it needs. */
  ghost predicate NeverStarves(s: Sequence, blockSize: nat, moves: seq<Move>)
    requires blockSize > 0
    decreases |moves|
  {
    && TableFits(s, blockSize)
    && (moves == [] ||
        match moves[0]
        case Grow(n, free) => Reachable(s, free, blockSize, n) &&
          NeverStarves(Grown(s, free, blockSize, n).0, blockSize, moves[1..])
        case Shrink(n) => n <= s.length && NeverStarves(RolledBack(s, blockSize, n), blockSize, moves[1..]))
  }

  /** Once blocks for the capacity are owned, no other sequence can make an append within it fail. */
  lemma {:induction false} AdmissionGuarantee(s: Sequence, blockSize: nat, moves: seq<Move>, capacity: nat)
    requires blockSize > 0 && TableFits(s, blockSize) && Sorted(s.reserved)
    requires OwnedCount(s) >= BlocksFor(capacity, blockSize) && Fits(s.length, moves, capacity)
    ensures NeverStarves(s, blockSize, moves)
    decreases |moves|
  {
    hide TableFits, OwnedCount, BlocksFor, Sorted, Grown, RolledBack, Owned;
    if moves != [] {
      match moves[0]
      case Grow(n, free) =>
        BlocksMonotone(s.length + n, capacity, blockSize);
        GrownTable(s, free, blockSize, n);
        AdmissionGuarantee(Grown(s, free, blockSize, n).0, blockSize, moves[1..], capacity);
      case Shrink(n) =>
        RolledBackTable(s, blockSize, n);
        RolledBackLength(s, blockSize, n);
        AdmissionGuarantee(RolledBack(s, blockSize, n), blockSize, moves[1..], capacity);
    }
  }

  lemma RolledBackLength(s: Sequence, blockSize: nat, n: nat)
    requires blockSize > 0 && n <= s.length && TableFits(s, blockSize)
    ensures RolledBack(s, blockSize, n).length == s.length - n
    ensures Moved(s, RolledBack(s, blockSize, n)) && RolledBack(s, blockSize, n).active == s.active
    ensures RolledBack(s, blockSize, n).requestId == s.requestId
    ensures RolledBack(s, blockSize, n).generation == s.generation
  {}

  class Pool {
    const blockSize: nat
    const blockCount: nat
    var sequences: seq<Sequence>
    var freeSlots: seq<nat>
    var freeBlocks: seq<nat>
    var ids: map<nat, nat>

    ghost predicate Valid()
      reads this
    {
      && blockSize > 0 && blockCount > 0 && sequences != [] && blockCount * blockSize < UINT32
      && Consistent(Now(), blockCount, blockSize)
    }

    ghost function Now(): State
      reads this
    {
      State(sequences, freeSlots, freeBlocks, ids)
    }

    /** Null is the invalid_argument exception. */
    static method Create(blockCount: nat, maxSequences: nat, blockSize: nat) returns (p: Pool?)
      ensures p == null <==>
        blockCount == 0 || maxSequences == 0 || blockSize == 0 || blockCount * blockSize >= 0x1_0000_0000
      ensures p != null ==> fresh(p) && p.Valid() && |p.sequences| == maxSequences && p.freeBlocks == UpTo(blockCount)
      ensures p != null ==> p.blockSize == blockSize && p.blockCount == blockCount && p.ids == map[]
    {
      if blockCount == 0 || maxSequences == 0 || blockSize == 0 || blockCount * blockSize >= UINT32 {
        return null;
      }
      p := new Pool(blockCount, maxSequences, blockSize);
    }

    constructor (blockCount: nat, maxSequences: nat, blockSize: nat)
      requires blockCount > 0 && maxSequences > 0 && blockSize > 0 && blockCount * blockSize < UINT32
      ensures Valid() && |sequences| == maxSequences && freeBlocks == UpTo(blockCount) && ids == map[]
      ensures this.blockSize == blockSize && this.blockCount == blockCount
    {
      hide Consistent, UpTo;
      this.blockSize, this.blockCount := blockSize, blockCount;
      sequences := seq(maxSequences, i => Blank(0));
      freeSlots, freeBlocks, ids := UpTo(maxSequences), UpTo(blockCount), map[];
      EmptyConsistent(seq(maxSequences, i => Blank(0)), blockCount, blockSize);
    }

    function Validate(h: Handle): Status
      reads this
    {
      if Live(sequences, h) then Ok else StaleHandle
    }

    /** acquire_reserved (and acquire, with capacity 0). */
    method AcquireReserved(requestId: nat, capacity: nat) returns (st: Status, h: Handle)
      requires Valid()
      modifies this
      ensures Valid() && Transition(old(sequences), sequences)
      ensures st == if requestId in old(ids) then DuplicateRequest
        else if old(freeSlots) == [] then SequenceSlotsExhausted
        else if BlocksFor(capacity, blockSize) > |old(freeBlocks)| then BlocksExhausted else Ok
      ensures st != Ok ==> Now() == old(Now())
      ensures st == Ok ==> h.slot == old(freeSlots)[0] < |old(sequences)| && !old(sequences)[h.slot].active
      ensures st == Ok ==> h.generation == NextGeneration(old(sequences)[h.slot].generation) && Validate(h) == Ok
      ensures st == Ok ==> ids == old(ids)[requestId := h.slot] && freeSlots == old(freeSlots)[1..]
      ensures st == Ok ==> sequences == old(sequences)[h.slot := sequences[h.slot]]
      ensures st == Ok ==>
        Reserve(Started0(requestId, h.generation), old(freeBlocks), BlocksFor(capacity, blockSize))
        == (sequences[h.slot], freeBlocks)
      ensures st == Ok ==> OwnedCount(sequences[h.slot]) == BlocksFor(capacity, blockSize)
      ensures st == Ok ==> freeBlocks == old(freeBlocks)[BlocksFor(capacity, blockSize)..]
    {
      hide Consistent, BlocksFor, NextGeneration, SequenceOk, Owned, Sorted, Reserve;
      h := Handle(0, 0);
      TransitionSame(sequences);
      if requestId in ids {
        return DuplicateRequest, h;
      }
      if freeSlots == [] {
        return SequenceSlotsExhausted, h;
      }
      var blocks := BlocksFor(capacity, blockSize);
      if blocks > |freeBlocks| {
        return BlocksExhausted, h;
      }
      var slot := freeSlots[0];
      FreeSlot(Now(), blockCount, blockSize);
      var generation := NextGeneration(sequences[slot].generation);
      var s0 := sequences[slot].(requestId := requestId, generation := generation, active := true);
      ConsistentSlot(Now(), blockCount, blockSize, slot);
      FreshReservation(sequences[slot], s0, freeBlocks, blocks, blockSize);
      var (s, free) := Reserve(s0, freeBlocks, blocks);
      AcquireConsistent(Now(), s, free, blockCount, blockSize);
      TransitionOne(sequences, slot, s);
      hide Transition;
      sequences, freeBlocks := sequences[slot := s], free;
      freeSlots, ids := freeSlots[1..], ids[requestId := slot];
      return Ok, Handle(slot, s.generation);
    }

    method ReserveCapacity(h: Handle, capacity: nat) returns (st: Status)
      requires Valid()
      modifies this`sequences, this`freeBlocks
      ensures Valid() && Transition(old(sequences), sequences)
      ensures st == if old(Validate(h)) != Ok then StaleHandle
        else if BlocksFor(capacity, blockSize) <= OwnedCount(old(sequences)[h.slot]) + |old(freeBlocks)| then Ok
        else BlocksExhausted
      ensures st != Ok ==> Now() == old(Now())
      ensures st == Ok ==> OwnedCount(sequences[h.slot]) >= BlocksFor(capacity, blockSize)
      ensures st == Ok ==>
        sequences == old(sequences)[h.slot := old(sequences)[h.slot].(reserved := sequences[h.slot].reserved)]
      ensures st == Ok && BlocksFor(capacity, blockSize) <= OwnedCount(old(sequences)[h.slot]) ==> Now() == old(Now())
      ensures st == Ok && BlocksFor(capacity, blockSize) > OwnedCount(old(sequences)[h.slot]) ==>
        var s := old(sequences)[h.slot];
        var k := BlocksFor(capacity, blockSize) - OwnedCount(s);
        && Reserve(s, old(freeBlocks), k) == (sequences[h.slot], freeBlocks)
        && freeBlocks == old(freeBlocks)[k..]
    {
      hide Consistent, BlocksFor, SequenceOk, Owned, OwnedCount, Sorted, Reserve, Moved, NextGeneration;
      TransitionSame(sequences);
      if Validate(h) != Ok {
        return StaleHandle;
      }
      var s := sequences[h.slot];
      ConsistentSlot(Now(), blockCount, blockSize, h.slot);
      var target, owned := BlocksFor(capacity, blockSize), OwnedCount(s);
      if target <= owned {
        return Ok;
      }
      if target - owned > |freeBlocks| {
        return BlocksExhausted;
      }
      ReservationFacts(s, freeBlocks, target - owned, blockSize);
      var (t, free) := Reserve(s, freeBlocks, target - owned);
      UpdateConsistent(Now(), h.slot, t, free, blockCount, blockSize);
      TransitionOne(sequences, h.slot, t);
      hide Transition;
      sequences, freeBlocks := sequences[h.slot := t], free;
      return Ok;
    }

    method Append(h: Handle, n: nat, endsOnly: bool) returns (r: Appended)
      requires Valid()
      modifies this`sequences, this`freeBlocks
      ensures Valid() && Transition(old(sequences), sequences)
      ensures r.status == if old(Validate(h)) != Ok then StaleHandle
        else if n == 0 then Ok
        else if old(sequences)[h.slot].length + n >= 0x1_0000_0000 then InvalidArgument
        else if !Reachable(old(sequences)[h.slot], old(freeBlocks), blockSize, n) then BlocksExhausted else Ok
      ensures r.status != Ok || n == 0 ==> Now() == old(Now()) && r == Refused(r.status)
      ensures r.status == Ok && n > 0 ==> TableFits(old(sequences)[h.slot], blockSize)
      ensures r.status == Ok && n > 0 ==>
        Grown(old(sequences)[h.slot], old(freeBlocks), blockSize, n) == (sequences[h.slot], freeBlocks)
      ensures r.status == Ok && n > 0 ==> sequences == old(sequences)[h.slot := sequences[h.slot]]
      ensures r.status == Ok && n > 0 ==>
        sequences[h.slot].length == old(sequences)[h.slot].length + n && TableFits(sequences[h.slot], blockSize)
      ensures r.status == Ok && n > 0 ==> r == Reported(sequences[h.slot], blockSize, n, endsOnly)
      ensures r.status == Ok && n > 0 ==>
        GrewInOrder(old(sequences)[h.slot], old(freeBlocks), blockSize, sequences[h.slot], freeBlocks)
      ensures r.status == Ok && n > 0 ==> AnswersRange(r, sequences[h.slot], blockSize, n, endsOnly)
    {
      hide GrewInOrder, AnswersRange, Consistent, BlocksFor, SequenceOk, Owned, OwnedCount, Sorted, Reachable, Grown,
        TableFits, Moved, NextGeneration, MakeSlot;
      TransitionSame(sequences);
      if Validate(h) != Ok {
        return Refused(StaleHandle);
      }
      if n == 0 {
        return Refused(Ok);
      }
      var s := sequences[h.slot];
      ConsistentSlot(Now(), blockCount, blockSize, h.slot);
      if s.length + n >= UINT32 {
        return Refused(InvalidArgument);
      }
      if !Reachable(s, freeBlocks, blockSize, n) {
        return Refused(BlocksExhausted);
      }
      GrownOk(s, freeBlocks, blockSize, n);
      var (t, free) := Grown(s, freeBlocks, blockSize, n);
      UpdateConsistent(Now(), h.slot, t, free, blockCount, blockSize);
      TransitionOne(sequences, h.slot, t);
      hide Transition;
      r := Report(t, blockSize, n, endsOnly);
      ReportedPlaces(t, blockSize, n, endsOnly);
      sequences, freeBlocks := sequences[h.slot := t], free;
    }

    method RollbackAppend(h: Handle, n: nat) returns (st: Status)
      requires Valid()
      modifies this`sequences
      ensures Valid() && Transition(old(sequences), sequences)
      ensures st == if old(Validate(h)) != Ok then StaleHandle
        else if n > old(sequences)[h.slot].length then InvalidArgument else Ok
      ensures st != Ok ==> sequences == old(sequences)
      ensures st == Ok ==> TableFits(old(sequences)[h.slot], blockSize)
      ensures st == Ok ==> sequences == old(sequences)[h.slot := RolledBack(old(sequences)[h.slot], blockSize, n)]
    {
      hide Consistent, SequenceOk, Owned, OwnedCount, Sorted, Moved, NextGeneration, BlocksFor, RolledBack;
      TransitionSame(sequences);
      if Validate(h) != Ok {
        return StaleHandle;
      }
      var s := sequences[h.slot];
      ConsistentSlot(Now(), blockCount, blockSize, h.slot);
      if n > s.length {
        return InvalidArgument;
      }
      var keep := BlocksFor(s.length - n, blockSize);
      BlocksMonotone(s.length - n, s.length, blockSize);
      var table, retry := PopBlocks(s.table, s.retry, keep);
      var t := s.(table := table, retry := retry, length := s.length - n);
      RolledBackOk(s, t, blockSize, n);
      UpdateConsistent(Now(), h.slot, t, freeBlocks, blockCount, blockSize);
      TransitionOne(sequences, h.slot, t);
      hide Transition, TableFits;
      sequences := sequences[h.slot := t];
      return Ok;
    }

    /** clear: all blocks go back, the slot keeps its identity. */
    method Clear(h: Handle) returns (st: Status)
      requires Valid()
      modifies this`sequences, this`freeBlocks
      ensures Valid() && st == old(Validate(h)) && Transition(old(sequences), sequences)
      ensures st != Ok ==> Now() == old(Now())
      ensures st == Ok ==> sequences == old(sequences)[h.slot := Cleared(old(sequences)[h.slot])]
      ensures st == Ok ==> multiset(freeBlocks) == multiset(old(freeBlocks)) + Owned(old(sequences)[h.slot])
    {
      hide Consistent, SequenceOk, Owned, Sorted, Moved, NextGeneration, GiveBackAll;
      TransitionSame(sequences);
      if Validate(h) != Ok {
        return StaleHandle;
      }
      var s := sequences[h.slot];
      ConsistentSlot(Now(), blockCount, blockSize, h.slot);
      ClearedOk(s, freeBlocks, blockSize);
      var free := GiveBackAll(GiveBackAll(GiveBackAll(freeBlocks, s.table), s.reserved), s.retry);
      UpdateConsistent(Now(), h.slot, Cleared(s), free, blockCount, blockSize);
      TransitionOne(sequences, h.slot, Cleared(s));
      hide Transition;
      sequences, freeBlocks := sequences[h.slot := Cleared(s)], free;
      return Ok;
    }

    /** release: the slot is free again and the handle is stale. */
    method Release(h: Handle) returns (st: Status)
      requires Valid()
      modifies this
      ensures Valid() && st == old(Validate(h)) && Transition(old(sequences), sequences)
      ensures st != Ok ==> Now() == old(Now())
      ensures st == Ok ==> sequences == old(sequences)[h.slot := Blank(h.generation)]
      ensures st == Ok ==> multiset(freeBlocks) == multiset(old(freeBlocks)) + Owned(old(sequences)[h.slot])
      ensures st == Ok ==> ids == old(ids) - {old(sequences)[h.slot].requestId}
      ensures Validate(h) == StaleHandle
    {
      hide Consistent, SequenceOk, Owned, Sorted, GiveBack, NextGeneration, Transition;
      st := Clear(h);
      if st != Ok {
        return;
      }
      var s := sequences[h.slot];
      OwnsNothing(s);
      ReleaseConsistent(Now(), h.slot, blockCount, blockSize);
      TransitionOne(old(sequences), h.slot, Blank(h.generation));
      ids := ids - {s.requestId};
      sequences := sequences[h.slot := s.(requestId := 0, active := false)];
      freeSlots := GiveBack(freeSlots, h.slot);
      assert sequences == old(sequences)[h.slot := Blank(h.generation)];
    }

    /** reset: everything is free; generations survive, so every handle given out before is stale. */
    method Reset()
      requires Valid()
      modifies this
      ensures Valid() && freeBlocks == UpTo(blockCount) && ids == map[] && Transition(old(sequences), sequences)
      ensures freeSlots == UpTo(|sequences|)
      ensures forall i :: 0 <= i < |sequences| ==> sequences[i] == Blank(old(sequences)[i].generation)
      ensures forall h :: Validate(h) == StaleHandle
    {
      hide Consistent, SequenceOk, Sorted, NextGeneration, UpTo;
      ghost var before := Now();
      ids := map[];
      var n := |sequences|;
      var cleared: seq<Sequence> := [];
      for i := 0 to n
        invariant |cleared| == i && sequences == old(sequences) && ids == map[]
        invariant forall j :: 0 <= j < i ==>
          cleared[j] == Blank(sequences[j].generation) && cleared[j].generation < UINT64
      {
        SmallGeneration(before, blockCount, blockSize, i);
        cleared := cleared + [Blank(sequences[i].generation)];
      }
      EmptyConsistent(cleared, blockCount, blockSize);
      sequences, freeSlots, freeBlocks := cleared, UpTo(n), UpTo(blockCount);
    }
  }

  // ---- the single-request backend's prefill

  datatype Begun =
    | Started(handle: Handle, table: seq<nat>)
    | AcquireFailed | AllocationFailed | NotContiguous | TableTooSmall

  /** Qwen35Backend::begin_paged_sequence up to the table upload; a failed start gives the sequence back. */
  method BeginPagedSequence(p: Pool, requestId: nat, n: nat, tableCapacity: nat) returns (r: Begun)
    requires p.Valid()
    modifies p
    ensures p.Valid()
    // a fresh pool always has a slot, and dense prefill always coincides with the page table
    ensures r != AcquireFailed && r != NotContiguous
    ensures r.AllocationFailed? <==> BlocksFor(n, p.blockSize) > p.blockCount
    ensures r.TableTooSmall? <==> tableCapacity < BlocksFor(n, p.blockSize) <= p.blockCount
    ensures r.Started? ==> p.Validate(r.handle) == Ok && IdentityRows(p.sequences[r.handle.slot], p.blockSize, n)
    ensures r.Started? ==> r.table == p.sequences[r.handle.slot].table == UpTo(BlocksFor(n, p.blockSize))
  {
    hide Consistent, BlocksFor, UpTo, IdentityRows, TableFits, MakeSlot, Grown, Extend, Reachable, Transition,
      NextGeneration, Reported, Reserve;
    p.Reset();
    UpToSize(|p.sequences|);
    var st, h := p.AcquireReserved(requestId, 0);
    FreshAcquire(p.blockSize);
    if st != Ok {
      return AcquireFailed;
    }
    var a := p.Append(h, n, true);
    FreshGrown(p.blockSize, p.blockCount, requestId, h.generation, n);
    if a.status == Ok && n > 0 { EndsIdentity(p.sequences[h.slot], p.blockSize, n); }
    if a.status != Ok {
      st := p.Release(h);
      return AllocationFailed;
    }
    if n > 0 && (a.ends[0].row != a.ends[0].position || a.ends[1].row != a.ends[1].position) {
      return NotContiguous;
    }
    var table := p.sequences[h.slot].table;
    if |table| > tableCapacity {
      st := p.Release(h);
      return TableTooSmall;
    }
    return Started(h, table);
  }

  /** Every position of a sequence of n tokens lives in the row of the same number. */
  ghost predicate IdentityRows(s: Sequence, blockSize: nat, n: nat)
    requires blockSize > 0
  {
    s.length == n && TableFits(s, blockSize) && forall p :: 0 <= p < n ==> MakeSlot(s, blockSize, p).row == p
  }

  /** So the endpoint check of the backend passes. */
  lemma EndsIdentity(s: Sequence, blockSize: nat, n: nat)
    requires blockSize > 0 && 0 < n && IdentityRows(s, blockSize, n)
    ensures |Reported(s, blockSize, n, true).ends| == 2
    ensures forall e :: e in Reported(s, blockSize, n, true).ends ==> e.row == e.position
  {
    assert MakeSlot(s, blockSize, 0).position == 0 && MakeSlot(s, blockSize, n - 1).position == n - 1;
    hide MakeSlot;
  }

  lemma UpToSize(n: nat)
    ensures |UpTo(n)| == n
  {}

  lemma FreshAcquire(blockSize: nat)
    requires blockSize > 0
    ensures BlocksFor(0, blockSize) == 0
  {}

  /** An empty sequence with nothing reserved, the state right after acquire. */
  function Started0(requestId: nat, generation: nat): Sequence { Sequence(requestId, generation, 0, true, [], [], []) }

  lemma FreshGrown(blockSize: nat, blockCount: nat, requestId: nat, generation: nat, n: nat)
    requires blockSize > 0 && blockCount * blockSize < UINT32
    ensures var s := Started0(requestId, generation);
      Reserve(s, UpTo(blockCount), 0) == (s, UpTo(blockCount))
    ensures TableFits(Started0(requestId, generation), blockSize)
    ensures n >= UINT32 ==> BlocksFor(n, blockSize) > blockCount
    ensures Reachable(Started0(requestId, generation), UpTo(blockCount), blockSize, n) <==>
      BlocksFor(n, blockSize) <= blockCount
    ensures BlocksFor(n, blockSize) <= blockCount ==>
      var t := Grown(Started0(requestId, generation), UpTo(blockCount), blockSize, n).0;
      t == Started0(requestId, generation).(table := UpTo(BlocksFor(n, blockSize)), length := n) &&
        IdentityRows(t, blockSize, n)
    ensures UpTo(BlocksFor(0, blockSize)) == [] && IdentityRows(Started0(requestId, generation), blockSize, 0)
  {
    var s := Started0(requestId, generation);
    if n >= UINT32 { BlocksHold(n, blockSize, blockCount); }
    if BlocksFor(n, blockSize) <= blockCount {
      var k := BlocksFor(n, blockSize);
      assert Missing(s, blockSize, n) == k;
      FreshAscending(s, 0, blockCount, k);
      assert seq(blockCount, i => 0 + i) == UpTo(blockCount) && s.table + seq(k, i => 0 + i) == UpTo(k);
      var t := Grown(s, UpTo(blockCount), blockSize, n).0;
      assert t == s.(table := UpTo(k), length := n);
      hide Grown, Extend;
      forall p | 0 <= p < n ensures MakeSlot(t, blockSize, p).row == p {
        BlockOfPosition(p, n, blockSize);
        DivMod(p, blockSize);
      }
    }
  }

  /** More tokens than the pool has rows need more blocks than it has. */
  lemma BlocksHold(n: nat, blockSize: nat, blockCount: nat)
    requires blockSize > 0 && blockCount * blockSize < n
    ensures BlocksFor(n, blockSize) > blockCount
  {
    DivMod(n - 1, blockSize);
    var q := (n - 1) / blockSize;
    assert (1 + q) * blockSize == blockSize + q * blockSize;
    if 1 + q <= blockCount { MulMonotone(1 + q, blockCount, blockSize); }
  }

  lemma TransitionSame(ss: seq<Sequence>)
    ensures Transition(ss, ss)
  {}

  lemma SmallGeneration(p: State, blockCount: nat, blockSize: nat, i: nat)
    requires blockSize > 0 && Consistent(p, blockCount, blockSize) && i < |p.sequences|
    ensures p.sequences[i].generation < UINT64
  {
    hide Consistent, TableFits, Sorted;
    ConsistentSlot(p, blockCount, blockSize, i);
  }

  function Cleared(s: Sequence): Sequence { s.(length := 0, table := [], retry := [], reserved := []) }

  lemma OwnsNothing(s: Sequence)
    requires s == Cleared(s)
    ensures Owned(s) == multiset{}
  {}

  lemma ClearedOk(s: Sequence, free: seq<nat>, blockSize: nat)
    requires blockSize > 0 && SequenceOk(s, blockSize) && Sorted(free) && s.active
    ensures var free' := GiveBackAll(GiveBackAll(GiveBackAll(free, s.table), s.reserved), s.retry);
      && Sorted(free') && multiset(free') + Owned(Cleared(s)) == multiset(free) + Owned(s)
      && multiset(free') == multiset(free) + Owned(s)
    ensures SequenceOk(Cleared(s), blockSize) && Moved(s, Cleared(s))
  {
    hide GiveBackAll, GiveBack, NextGeneration;
    GiveBackAllFacts(free, s.table);
    var f1 := GiveBackAll(free, s.table);
    GiveBackAllFacts(f1, s.reserved);
    var f2 := GiveBackAll(f1, s.reserved);
    GiveBackAllFacts(f2, s.retry);
    OwnsNothing(Cleared(s));
  }

  lemma FreshReservation(blank: Sequence, s: Sequence, free: seq<nat>, blocks: nat, blockSize: nat)
    requires blockSize > 0 && blank == Blank(blank.generation) && SequenceOk(blank, blockSize) && Sorted(free)
    requires blocks <= |free|
    requires s == Sequence(s.requestId, NextGeneration(blank.generation), 0, true, [], [], [])
    ensures var (t, free') := Reserve(s, free, blocks);
      && SequenceOk(t, blockSize) && Sorted(free') && multiset(free') + Owned(t) == multiset(free) + Owned(blank)
      && t.active && t.requestId == s.requestId && t.generation == s.generation && OwnedCount(t) == blocks
      && Moved(blank, t) && free' == free[blocks..]
  {
    hide Reserve;
    ReserveFacts(s, free, blocks);
  }

  lemma ReservationFacts(s: Sequence, free: seq<nat>, blocks: nat, blockSize: nat)
    requires blockSize > 0 && SequenceOk(s, blockSize) && s.active && Sorted(free) && blocks <= |free|
    ensures var (t, free') := Reserve(s, free, blocks);
      && SequenceOk(t, blockSize) && Sorted(free') && multiset(free') + Owned(t) == multiset(free) + Owned(s)
      && t == s.(reserved := t.reserved) && OwnedCount(t) == OwnedCount(s) + blocks && Moved(s, t)
      && free' == free[blocks..]
  {
    hide Reserve, NextGeneration, Owned, OwnedCount;
    ReserveFacts(s, free, blocks);
  }

  lemma GrownOk(s: Sequence, free: seq<nat>, blockSize: nat, n: nat)
    requires blockSize > 0 && SequenceOk(s, blockSize) && s.active && Sorted(free) && s.length + n < UINT32
    requires TableFits(s, blockSize) && Reachable(s, free, blockSize, n)
    ensures var (t, free') := Grown(s, free, blockSize, n);
      && SequenceOk(t, blockSize) && TableFits(t, blockSize) && Sorted(free') && Moved(s, t) && t.active
      && t.requestId == s.requestId && t.length == s.length + n
      && multiset(free') + Owned(t) == multiset(free) + Owned(s)
      && GrewInOrder(s, free, blockSize, t, free')
  {
    hide NextGeneration, Owned, Sorted, Extend, DrawnInOrder, BlocksFor;
    GrownTable(s, free, blockSize, n);
    var k := Missing(s, blockSize, n);
    ExtendInOrder(s, free, k);
    InOrderIgnoresLength(s, free, k, Extend(s, free, k).0, Extend(s, free, k).1, s.length + n);
  }

  lemma InOrderIgnoresLength(s: Sequence, free: seq<nat>, k: nat, t: Sequence, free': seq<nat>, length: nat)
    requires k <= |s.retry| + |s.reserved| + |free| && DrawnInOrder(s, free, k, t, free')
    ensures DrawnInOrder(s, free, k, t.(length := length), free')
  {}

  /** The blocks a grown sequence t has more than s were drawn in order. */
  ghost predicate GrewInOrder(s: Sequence, free: seq<nat>, blockSize: nat, t: Sequence, free': seq<nat>)
    requires blockSize > 0
  {
    var blocks := BlocksFor(t.length, blockSize);
    |s.table| <= blocks <= OwnedCount(s) + |free| && DrawnInOrder(s, free, blocks - |s.table|, t, free')
  }

  lemma RolledBackOk(s: Sequence, t: Sequence, blockSize: nat, n: nat)
    requires blockSize > 0 && SequenceOk(s, blockSize) && s.active && n <= s.length && TableFits(s, blockSize)
    requires BlocksFor(s.length - n, blockSize) <= |s.table|
    requires t == CutTable(s, BlocksFor(s.length - n, blockSize)).(length := s.length - n)
    ensures t == RolledBack(s, blockSize, n) && SequenceOk(t, blockSize) && Owned(t) == Owned(s) && Moved(s, t)
  {
    hide BlocksFor, NextGeneration, Owned, OwnedCount, Sorted;
    RolledBackTable(s, blockSize, n);
  }

  /** append's answer once the sequence has grown by n tokens. */
  function Reported(t: Sequence, blockSize: nat, n: nat, endsOnly: bool): Appended
    requires blockSize > 0 && TableFits(t, blockSize) && 0 < n <= t.length
  {
    var all := SlotsFrom(t, blockSize, t.length - n);
    if endsOnly then Appended(Ok, n, [], [all[0], all[n - 1]]) else Appended(Ok, n, all, [])
  }

  /** The slot addresses position p: its block is the table entry whose blockSize positions hold p. */
  ghost predicate Places(w: WriteSlot, table: seq<nat>, blockSize: nat, p: nat) {
    && w.position == p && w.offset < blockSize && w.row == w.block * blockSize + w.offset
    && exists q :: 0 <= q < |table| && table[q] == w.block && p == q * blockSize + w.offset
  }

  /** The answer addresses the n newest positions, or the first and the last of them. */
  ghost predicate AnswersRange(r: Appended, t: Sequence, blockSize: nat, n: nat, endsOnly: bool)
    requires 0 < n <= t.length
  {
    && r.status == Ok && r.count == n
    && |r.slots| == (if endsOnly then 0 else n) && |r.ends| == (if endsOnly then 2 else 0)
    && (forall i :: 0 <= i < |r.slots| ==> Places(r.slots[i], t.table, blockSize, t.length - n + i))
    && (endsOnly ==> Places(r.ends[0], t.table, blockSize, t.length - n))
    && (endsOnly ==> Places(r.ends[1], t.table, blockSize, t.length - 1))
  }

  lemma SlotPlaces(t: Sequence, blockSize: nat, p: nat)
    requires blockSize > 0 && p < t.length && TableFits(t, blockSize)
    ensures Places(MakeSlot(t, blockSize, p), t.table, blockSize, p)
  {
    BlockOfPosition(p, t.length, blockSize);
    DivMod(p, blockSize);
    assert t.table[p / blockSize] == MakeSlot(t, blockSize, p).block;
  }

  lemma ReportedPlaces(t: Sequence, blockSize: nat, n: nat, endsOnly: bool)
    requires blockSize > 0 && TableFits(t, blockSize) && 0 < n <= t.length
    ensures AnswersRange(Reported(t, blockSize, n, endsOnly), t, blockSize, n, endsOnly)
  {
    hide MakeSlot, Places, TableFits;
    var all := SlotsFrom(t, blockSize, t.length - n);
    forall i | 0 <= i < |all| ensures Places(all[i], t.table, blockSize, t.length - n + i) {
      SlotPlaces(t, blockSize, t.length - n + i);
    }
  }

  method Report(t: Sequence, blockSize: nat, n: nat, endsOnly: bool) returns (r: Appended)
    requires blockSize > 0 && TableFits(t, blockSize) && 0 < n <= t.length
    ensures r == Reported(t, blockSize, n, endsOnly)
  {
    hide TableFits, MakeSlot;
    var from := t.length - n;
    if endsOnly {
      return Appended(Ok, n, [], [MakeSlot(t, blockSize, from), MakeSlot(t, blockSize, t.length - 1)]);
    }
    var slots: seq<WriteSlot> := [];
    for i := 0 to n
      invariant slots == SlotsFrom(t, blockSize, from)[..i]
    {
      slots := slots + [MakeSlot(t, blockSize, from + i)];
    }
    return Appended(Ok, n, slots, []);
  }

  lemma ReverseFrom(s: seq<nat>, n: nat)
    requires n < |s|
    ensures Reverse(s[n..]) == Reverse(s[n + 1..]) + [s[n]]
  {
    assert s[n..][1..] == s[n + 1..];
  }

  /** The loop of rollback_append. */
  method PopBlocks(table0: seq<nat>, retry0: seq<nat>, keep: nat) returns (table: seq<nat>, retry: seq<nat>)
    requires keep <= |table0|
    ensures table == table0[..keep] && retry == retry0 + Reverse(table0[keep..])
  {
    table, retry := table0, retry0;
    assert table0[|table0|..] == [] && retry0 + [] == retry0;
    while |table| > keep
      invariant keep <= |table| <= |table0| && table == table0[..|table|]
      invariant retry == retry0 + Reverse(table0[|table|..])
    {
      var n := |table| - 1;
      ReverseFrom(table0, n);
      hide Reverse;
      Seqs.Assoc(retry0, Reverse(table0[n + 1..]), [table0[n]]);
      retry := retry + [table[n]];
      table := table[..n];
    }
  }

  // ---- no two visible tokens share a cache row

  lemma CountTwice(s: seq<nat>, i: nat, j: nat)
    requires i < j < |s| && s[i] == s[j]
    ensures multiset(s)[s[i]] >= 2
  {
    assert s == s[..i] + [s[i]] + s[i + 1..j] + [s[j]] + s[j + 1..];
  }

  lemma CountOnce(s: seq<nat>, i: nat)
    requires i < |s|
    ensures multiset(s)[s[i]] >= 1
  {
    assert s[i] in s;
  }

  /** In a consistent pool, different (sequence, position) pairs live in different physical rows, all inside the
      pool. */
  lemma NoAliasing(ss: seq<Sequence>, free: seq<nat>, blockCount: nat, blockSize: nat, i: nat, p: nat, j: nat, q: nat)
    requires blockSize > 0 && AllOk(ss, blockSize) && Conserved(ss, free, blockCount)
    requires i < |ss| && j < |ss| && p < ss[i].length && q < ss[j].length && (i, p) != (j, q)
    ensures TableFits(ss[i], blockSize) && TableFits(ss[j], blockSize)
    ensures MakeSlot(ss[i], blockSize, p).row != MakeSlot(ss[j], blockSize, q).row
    ensures MakeSlot(ss[i], blockSize, p).row < blockCount * blockSize
  {
    assert SequenceOk(ss[i], blockSize) && SequenceOk(ss[j], blockSize);
    var a, b := MakeSlot(ss[i], blockSize, p), MakeSlot(ss[j], blockSize, q);
    BlockOfPosition(p, ss[i].length, blockSize);
    BlockOfPosition(q, ss[j].length, blockSize);
    DivMod(p, blockSize);
    DivMod(q, blockSize);
    OwnedBlock(ss, free, blockCount, i, p / blockSize);
    NextRow(a.block, a.offset, blockCount, blockSize);
    if a.row == b.row {
      DivUnique(a.row, blockSize, a.block, a.offset);
      DivUnique(b.row, blockSize, b.block, b.offset);
      BlocksDistinct(ss, free, blockCount, i, p / blockSize, j, q / blockSize);
    }
  }

  lemma NextRow(block: nat, offset: nat, count: nat, size: nat)
    requires block < count && offset < size
    ensures block * size + offset < count * size
  {
    MulMonotone(block + 1, count, size);
    assert (block + 1) * size == block * size + size;
  }

  lemma OwnedBlock(ss: seq<Sequence>, free: seq<nat>, blockCount: nat, i: nat, k: nat)
    requires Conserved(ss, free, blockCount) && i < |ss| && k < |ss[i].table|
    ensures ss[i].table[k] < blockCount
  {
    var b := ss[i].table[k];
    CountOnce(ss[i].table, k);
    OwnedPart(ss, i);
    UpToOnce(blockCount, b);
    assert OwnedAll(ss)[b] >= Owned(ss[i])[b] >= 1;
    assert (multiset(free) + OwnedAll(ss))[b] >= 1;
  }

  /** Two table entries of the pool hold the same block only if they are the same entry. */
  lemma BlocksDistinct(ss: seq<Sequence>, free: seq<nat>, blockCount: nat, i: nat, k: nat, j: nat, l: nat)
    requires Conserved(ss, free, blockCount) && i < |ss| && j < |ss| && k < |ss[i].table| && l < |ss[j].table|
    ensures ss[i].table[k] == ss[j].table[l] ==> i == j && k == l
  {
    var b := ss[i].table[k];
    UpToOnce(blockCount, b);
    assert (multiset(free) + OwnedAll(ss))[b] <= 1;
    assert OwnedAll(ss)[b] <= 1;
    if b == ss[j].table[l] {
      CountOnce(ss[i].table, k);
      CountOnce(ss[j].table, l);
      if i < j {
        OwnedTwo(ss, i, j);
      } else if j < i {
        OwnedTwo(ss, j, i);
      } else {
        OwnedPart(ss, i);
        if k < l { CountTwice(ss[i].table, k, l); }
        if l < k { CountTwice(ss[i].table, l, k); }
      }
    }
  }
}
