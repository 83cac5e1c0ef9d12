// The three pools over a run of allocator calls.
module PoolRun {
  import opened Bytes
  import opened PoolCursor

  const POOLS: nat := 3

  /** Where a block comes from. */
  datatype Origin = Slot(i: nat, j: nat) | FromHeap

  /** What a call does to the pools: it asks for a block of some size, or gives one back. */
  datatype Call = Asked(size: nat) | Freed(origin: Origin)

  function PoolNum(size: nat): int {
    if size == 92 then 0 else if size == 12 then 1 else if size == 26 then 2 else -1
  }

  predicate OkOrigin(o: Origin) {
    o.Slot? ==> o.i < POOLS && o.j < SLOTS
  }

  predicate OkCalls(calls: seq<Call>) {
    forall k :: 0 <= k < |calls| && calls[k].Freed? ==> OkOrigin(calls[k].origin)
  }

  function Fresh(): (p: Pool)
    ensures p.Ok()
  {
    Pool(0, seq(SLOTS, _ => false))
  }

  function OpOn(c: Call, i: nat): Op {
    match c
    case Asked(size) => if PoolNum(size) == i then Request else Other
    case Freed(Slot(k, j)) => if k == i then Free(j) else Other
    case Freed(FromHeap) => Other
  }

  /** Pool `i` after a call. */
  function Step(p: Pool, i: nat, c: Call): (q: Pool)
    requires p.Ok() && (c.Freed? ==> OkOrigin(c.origin))
    ensures q.Ok()
  {
    Apply(p, OpOn(c, i))
  }

  /** Pool `i` after a run of calls from the zeroed globals on. */
  function PoolAfter(calls: seq<Call>, i: nat): (p: Pool)
    requires OkCalls(calls)
    ensures p.Ok()
  {
    if calls == [] then Fresh()
    else var n := |calls| - 1; Step(PoolAfter(calls[..n], i), i, calls[n])
  }

  lemma PoolAfterOne(calls: seq<Call>, i: nat, c: Call)
    requires OkCalls(calls) && (c.Freed? ==> OkOrigin(c.origin))
    ensures OkCalls(calls + [c]) && PoolAfter(calls + [c], i) == Step(PoolAfter(calls, i), i, c)
  {
    assert (calls + [c])[..|calls|] == calls;
  }

  function Ops(calls: seq<Call>, i: nat): (ops: seq<Op>)
    requires OkCalls(calls)
    ensures |ops| == |calls| && OkOps(ops)
    ensures forall k :: 0 <= k < |calls| ==> ops[k] == OpOn(calls[k], i)
  {
    seq(|calls|, k requires 0 <= k < |calls| => OpOn(calls[k], i))
  }

  /** The calls from `m` on lead from the pool after `m` calls to the pool after `n`. */
  lemma {:induction false} AfterCalls(calls: seq<Call>, i: nat, m: nat, n: nat)
    requires OkCalls(calls) && m <= n <= |calls|
    ensures OkOps(Ops(calls, i)[m..n])
    ensures After(PoolAfter(calls[..m], i), Ops(calls, i)[m..n]) == PoolAfter(calls[..n], i)
    decreases n
  {
    hide OpOn, Apply;
    if m < n {
      var ops := Ops(calls, i);
      AfterCalls(calls, i, m, n - 1);
      assert ops[m..n] == ops[m..n - 1] + [ops[n - 1]];
      AfterSnoc(PoolAfter(calls[..m], i), ops[m..n - 1], ops[n - 1]);
      assert calls[..n] == calls[..n - 1] + [calls[n - 1]];
      PoolAfterOne(calls[..n - 1], i, calls[n - 1]);
    }
  }

  /** Slot `j` of pool `i` is in use after some call past the first `m` and up to the first `n`. */
  ghost predicate InUseBetween(calls: seq<Call>, i: nat, m: nat, n: nat, j: nat)
    requires OkCalls(calls) && n <= |calls| && j < SLOTS
  {
    exists q :: m < q <= n && PoolAfter(calls[..q], i).uses[j]
  }

  /** Fair reuse over any run of calls: from the call that hands out a slot to the moment when the same
      slot is the next to be handed out, every other slot of its pool has been in use. */
  lemma FairReuseOfCalls(calls: seq<Call>, i: nat, m: nat, n: nat, s: nat, j: nat)
    requires OkCalls(calls) && m < n <= |calls| && j < SLOTS && j != s
    requires calls[m].Asked? && PoolNum(calls[m].size) == i
    requires PoolAfter(calls[..m], i).Next() == Some(s) && PoolAfter(calls[..n], i).Next() == Some(s)
    ensures InUseBetween(calls, i, m, n, j)
  {
    hide After, Ops, InUseDuring, PoolAfter;
    var p, ops := PoolAfter(calls[..m], i), Ops(calls, i)[m + 1..n];
    assert calls[..m + 1] == calls[..m] + [calls[m]];
    PoolAfterOne(calls[..m], i, calls[m]);
    AfterCalls(calls, i, m + 1, n);
    FairReuse(p, ops, s, j);
    InUseAt(p.Take(), ops, j, calls, i, m + 1, n);
  }

  lemma InUseAt(p: Pool, ops: seq<Op>, j: nat, calls: seq<Call>, i: nat, m: nat, n: nat)
    requires OkCalls(calls) && 0 < m <= n <= |calls| && j < SLOTS
    requires p == PoolAfter(calls[..m], i) && ops == Ops(calls, i)[m..n]
    requires OkOps(ops) && InUseDuring(p, ops, j)
    ensures InUseBetween(calls, i, m - 1, n, j)
  {
    hide After, PoolAfter;
    var t :| 0 <= t <= |ops| && After(p, ops[..t]).uses[j];
    assert ops[..t] == Ops(calls, i)[m..m + t];
    AfterCalls(calls, i, m, m + t);
  }
}
