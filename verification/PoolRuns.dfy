/**
Admission over runs of the block pool, server/src/common/concurrency/paged_kv_pool.h:112-122: once a sequence has
reserved its capacity, no interleaving of calls for other sequences can make one of its appends within that capacity
fail.
*/
module PoolRuns {
  import opened Arith
  import opened PagedKvPool

  /** Calls on the pool: appends and rollbacks of the sequence in question, and anything on other handles. */
  datatype Call =
    | OwnAppend(n: nat, endsOnly: bool)
    | OwnRollback(n: nat)
    | Acquire(requestId: nat, capacity: nat)
    | Reserve(h: Handle, capacity: nat)
    | Append(h: Handle, n: nat, endsOnly: bool)
    | Rollback(h: Handle, n: nat)
    | Clear(h: Handle)
    | Release(h: Handle)

  /** The call is not for the sequence behind the handle. */
  predicate Foreign(c: Call, own: Handle) {
    match c
    case OwnAppend(_, _) => false
    case OwnRollback(_) => false
    case Acquire(_, _) => true
    case Reserve(h, _) => h != own
    case Append(h, _, _) => h != own
    case Rollback(h, _) => h != own
    case Clear(h) => h != own
    case Release(h) => h != own
  }

  predicate Allowed(c: Call, own: Handle) { c.OwnAppend? || c.OwnRollback? || Foreign(c, own) }

  /** The length of the sequence after a call; a rollback of too many tokens is refused. */
  function LengthAfter(length: nat, c: Call): nat {
    match c
    case OwnAppend(n, _) => length + n
    case OwnRollback(n) => if n <= length then length - n else length
    case _ => length
  }

  /** The sequence never outgrows its capacity. */
  predicate Within(length: nat, calls: seq<Call>, capacity: nat)
    decreases |calls|
  {
    length <= capacity && (calls == [] || Within(LengthAfter(length, calls[0]), calls[1..], capacity))
  }

  function FinalLength(length: nat, calls: seq<Call>): nat
    decreases |calls|
  {
    if calls == [] then length else FinalLength(LengthAfter(length, calls[0]), calls[1..])
  }

  function OwnAppends(calls: seq<Call>): nat {
    if calls == [] then 0 else (if calls[0].OwnAppend? then 1 else 0) + OwnAppends(calls[1..])
  }

  /** The sequence is live and owns blocks for its capacity. */
  ghost predicate Admitted(p: Pool, own: Handle, capacity: nat)
    reads p
  {
    p.Valid() && Live(p.sequences, own) && OwnedCount(p.sequences[own.slot]) >= BlocksFor(capacity, p.blockSize)
  }

  /** A reserved capacity fits 32 bits, because the pool's rows do. */
  lemma CapacityFits(p: Pool, own: Handle, capacity: nat)
    requires Admitted(p, own, capacity)
    ensures capacity < UINT32
  {
    hide BlocksFor, Consistent;
    OwnedFits(p.Now(), p.blockCount, p.blockSize, own.slot);
    if capacity > p.blockCount * p.blockSize { BlocksHold(capacity, p.blockSize, p.blockCount); }
  }

  /** No sequence owns more blocks than the pool has. */
  lemma OwnedFits(p: State, blockCount: nat, blockSize: nat, i: nat)
    requires blockSize > 0 && Consistent(p, blockCount, blockSize) && i < |p.sequences|
    ensures OwnedCount(p.sequences[i]) <= blockCount
  {
    hide SequenceOk, Sorted, SlotsOk, IdsOk, OwnedAll;
    OwnedPart(p.sequences, i);
    var s, all := p.sequences[i], multiset(UpTo(blockCount));
    assert Owned(s) <= all;
    assert all == Owned(s) + (all - Owned(s));
    OwnedSize(s);
    UpToSize(blockCount);
    hide Owned;
    assert |all| == |UpTo(blockCount)|;
  }

  lemma OwnedSize(s: Sequence)
    ensures |Owned(s)| == OwnedCount(s)
  {
    assert |multiset(s.table)| == |s.table| && |multiset(s.retry)| == |s.retry| &&
      |multiset(s.reserved)| == |s.reserved|;
  }

  /** A call for another sequence leaves this one as it is. */
  method CallOther(p: Pool, own: Handle, c: Call)
    requires p.Valid() && Live(p.sequences, own) && Foreign(c, own)
    modifies p
    ensures p.Valid() && own.slot < |p.sequences| && p.sequences[own.slot] == old(p.sequences[own.slot])
  {
    hide Consistent, BlocksFor, OwnedCount, Grown, RolledBack, Transition, TableFits, Reachable, Reported,
      NextGeneration, Owned;
    match c {
      case Acquire(requestId, capacity) => var st, h := p.AcquireReserved(requestId, capacity);
      case Reserve(h, capacity) => var st := p.ReserveCapacity(h, capacity);
      case Append(h, n, endsOnly) => var r := p.Append(h, n, endsOnly);
      case Rollback(h, n) => var st := p.RollbackAppend(h, n);
      case Clear(h) => var st := p.Clear(h);
      case Release(h) => var st := p.Release(h);
    }
  }

  /** An append within the capacity succeeds, and the sequence still owns its blocks. */
  method CallAppend(p: Pool, own: Handle, capacity: nat, n: nat, endsOnly: bool) returns (r: Appended)
    requires Admitted(p, own, capacity) && p.sequences[own.slot].length + n <= capacity
    modifies p
    ensures Admitted(p, own, capacity) && p.sequences[own.slot].length == old(p.sequences[own.slot]).length + n
    ensures r.status == Ok
  {
    hide Consistent, BlocksFor, OwnedCount, Grown, Transition, TableFits, Reported, Owned, Sorted, Moved, SequenceOk;
    CapacityFits(p, own, capacity);
    var s := p.sequences[own.slot];
    BlocksMonotone(s.length + n, capacity, p.blockSize);
    ConsistentSlot(p.Now(), p.blockCount, p.blockSize, own.slot);
    ReservedSorted(s, p.blockSize);
    GrownTable(s, p.freeBlocks, p.blockSize, n);
    r := p.Append(own, n, endsOnly);
  }

  lemma ReservedSorted(s: Sequence, blockSize: nat)
    requires blockSize > 0 && SequenceOk(s, blockSize)
    ensures Sorted(s.reserved)
  {}

  method CallRollback(p: Pool, own: Handle, capacity: nat, n: nat) returns (st: Status)
    requires Admitted(p, own, capacity)
    modifies p
    ensures Admitted(p, own, capacity)
    ensures p.sequences[own.slot].length == LengthAfter(old(p.sequences[own.slot]).length, OwnRollback(n))
  {
    hide Consistent, BlocksFor, OwnedCount, RolledBack, Transition, TableFits, Owned, Moved;
    var s := p.sequences[own.slot];
    st := p.RollbackAppend(own, n);
    if st == Ok {
      RolledBackTable(s, p.blockSize, n);
      RolledBackLength(s, p.blockSize, n);
    }
  }

  /** Any run of calls: every append of the admitted sequence that stays within its capacity has status Ok. */
  method Serve(p: Pool, own: Handle, capacity: nat, calls: seq<Call>) returns (statuses: seq<Status>)
    requires Admitted(p, own, capacity) && Within(p.sequences[own.slot].length, calls, capacity)
    requires forall i :: 0 <= i < |calls| ==> Allowed(calls[i], own)
    modifies p
    ensures Admitted(p, own, capacity)
    ensures p.sequences[own.slot].length == FinalLength(old(p.sequences[own.slot]).length, calls)
    ensures |statuses| == OwnAppends(calls) && forall i :: 0 <= i < |statuses| ==> statuses[i] == Ok
    decreases |calls|
  {
    hide BlocksFor, OwnedCount, Consistent;
    if calls == [] {
      return [];
    }
    var first: seq<Status> := [];
    match calls[0] {
      case OwnAppend(n, endsOnly) =>
        var r := CallAppend(p, own, capacity, n, endsOnly);
        first := [r.status];
      case OwnRollback(n) =>
        var st := CallRollback(p, own, capacity, n);
      case _ =>
        CallOther(p, own, calls[0]);
    }
    var rest := Serve(p, own, capacity, calls[1..]);
    statuses := first + rest;
  }

  /** Admission and then any run: `calls` may depend on the handle. */
  method AdmitAndServe(p: Pool, requestId: nat, capacity: nat, calls: Handle -> seq<Call>)
    returns (st: Status, h: Handle, statuses: seq<Status>)
    requires p.Valid() && forall h: Handle, i :: 0 <= i < |calls(h)| ==> Allowed(calls(h)[i], h)
    requires forall h :: Within(0, calls(h), capacity)
    modifies p
    ensures p.Valid()
    ensures st == Ok ==> |statuses| == OwnAppends(calls(h)) && forall i :: 0 <= i < |statuses| ==> statuses[i] == Ok
  {
    hide BlocksFor, Consistent, PagedKvPool.Reserve, Transition, NextGeneration;
    statuses := [];
    st, h := p.AcquireReserved(requestId, capacity);
    if st == Ok {
      ReserveKeepsLength(Started0(requestId, h.generation), old(p.freeBlocks), BlocksFor(capacity, p.blockSize));
      statuses := Serve(p, h, capacity, calls(h));
    }
  }

  lemma {:induction false} ReserveKeepsLength(s: Sequence, free: seq<nat>, k: nat)
    requires k <= |free|
    ensures PagedKvPool.Reserve(s, free, k).0.length == s.length
    decreases k
  {
    if k > 0 { ReserveKeepsLength(s.(reserved := GiveBack(s.reserved, free[0])), free[1..], k - 1); }
  }
}
