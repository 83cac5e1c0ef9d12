// One pool of the allocator as a value: a cyclic cursor over slots that are free or in use.
module PoolCursor {
  import opened Bytes

  const SLOTS: nat := 1024

  datatype Pool = Pool(cursor: nat, uses: seq<bool>) {
    predicate Ok() {
      |uses| == SLOTS && cursor < SLOTS
    }

    /** The slot `t` steps after the cursor. */
    function Ahead(t: nat): (r: nat)
      requires Ok()
      ensures r < SLOTS
    {
      (cursor + t) % SLOTS
    }

    /** Steps from the cursor to the first free slot, not counting the first `t`; SLOTS if none. */
    function Gap(t: nat): (r: nat)
      requires Ok() && t <= SLOTS
      requires forall u :: 0 <= u < t ==> uses[Ahead(u)]
      ensures r <= SLOTS
      ensures forall u :: 0 <= u < r ==> uses[Ahead(u)]
      ensures r < SLOTS ==> !uses[Ahead(r)]
      decreases SLOTS - t
    {
      if t == SLOTS || !uses[Ahead(t)] then t else Gap(t + 1)
    }

    function Next(): Option<nat>
      requires Ok()
    {
      if Gap(0) < SLOTS then Some(Ahead(Gap(0))) else None
    }

    /** A request: the slot found is marked and the cursor moves past it, or one step when all are in use. */
    function Take(): (p: Pool)
      requires Ok()
      ensures p.Ok()
    {
      if Gap(0) < SLOTS then Pool(Ahead(Gap(0) + 1), uses[Ahead(Gap(0)) := true])
      else Pool(Ahead(1), uses)
    }

    function Release(s: nat): (p: Pool)
      requires Ok() && s < SLOTS
      ensures p.Ok()
    {
      Pool(cursor, uses[s := false])
    }
  }

  lemma TakeAt(p: Pool, j: nat)
    requires p.Ok() && j == p.Gap(0)
    ensures p.Next() == if j < SLOTS then Some((p.cursor + j) % SLOTS) else None
    ensures p.Take() == if j < SLOTS then Pool((p.cursor + j + 1) % SLOTS, p.uses[(p.cursor + j) % SLOTS := true])
                        else Pool((p.cursor + 1) % SLOTS, p.uses)
    ensures j < SLOTS ==> !p.uses[(p.cursor + j) % SLOTS]
  {
  }

  lemma GapUnique(p: Pool, t: nat, r: nat)
    requires p.Ok() && t <= r <= SLOTS
    requires forall u :: 0 <= u < r ==> p.uses[p.Ahead(u)]
    requires r < SLOTS ==> !p.uses[p.Ahead(r)]
    ensures p.Gap(t) == r
    decreases r - t
  {
  }

  lemma StepsTo(p: Pool, s: nat)
    requires p.Ok() && s < SLOTS
    ensures p.Ahead(if s >= p.cursor then s - p.cursor else s - p.cursor + SLOTS) == s
  {
  }

  predicate AllInUse(p: Pool)
    requires p.Ok()
  {
    forall s :: 0 <= s < SLOTS ==> p.uses[s]
  }

  /** A request fails exactly when every slot is in use; otherwise it gets a slot that is free. */
  lemma NextIsFree(p: Pool)
    requires p.Ok()
    ensures p.Next() == None <==> AllInUse(p)
    ensures p.Next().Some? ==> p.Next().value < SLOTS && !p.uses[p.Next().value]
  {
    if p.Gap(0) == SLOTS {
      forall s | 0 <= s < SLOTS
        ensures p.uses[s]
      {
        StepsTo(p, s);
        assert p.uses[p.Ahead(if s >= p.cursor then s - p.cursor else s - p.cursor + SLOTS)];
      }
    }
  }

  /** What a call does to one pool; a call that concerns another pool, or none, is `Other`. */
  datatype Op = Request | Free(s: nat) | Other

  predicate OkOps(ops: seq<Op>) {
    forall i :: 0 <= i < |ops| && ops[i].Free? ==> ops[i].s < SLOTS
  }

  function Apply(p: Pool, op: Op): (q: Pool)
    requires p.Ok() && (op.Free? ==> op.s < SLOTS)
    ensures q.Ok()
  {
    match op
    case Request => p.Take()
    case Free(s) => p.Release(s)
    case Other => p
  }

  function After(p: Pool, ops: seq<Op>): (q: Pool)
    requires p.Ok() && OkOps(ops)
    ensures q.Ok()
    decreases |ops|
  {
    if ops == [] then p else After(Apply(p, ops[0]), ops[1..])
  }

  lemma {:induction false} AfterSnoc(p: Pool, ops: seq<Op>, op: Op)
    requires p.Ok() && OkOps(ops + [op])
    ensures OkOps(ops) && (op.Free? ==> op.s < SLOTS)
    ensures After(p, ops + [op]) == Apply(After(p, ops), op)
    decreases |ops|
  {
    hide Apply;
    assert (ops + [op])[|ops|] == op;
    assert forall i :: 0 <= i < |ops| ==> (ops + [op])[i] == ops[i];
    if ops != [] {
      assert (ops + [op])[1..] == ops[1..] + [op];
      AfterSnoc(Apply(p, ops[0]), ops[1..], op);
    } else {
      assert (ops + [op])[1..] == [];
    }
  }

  /** At some moment of the run, slot `j` is in use. */
  ghost predicate InUseDuring(p: Pool, ops: seq<Op>, j: nat)
    requires p.Ok() && OkOps(ops) && j < SLOTS
  {
    exists m :: 0 <= m <= |ops| && After(p, ops[..m]).uses[j]
  }

  lemma InUseNow(p: Pool, ops: seq<Op>, j: nat)
    requires p.Ok() && OkOps(ops) && j < SLOTS && p.uses[j]
    ensures InUseDuring(p, ops, j)
  {
    assert After(p, ops[..0]).uses[j];
  }

  lemma InUseLater(p: Pool, ops: seq<Op>, j: nat)
    requires p.Ok() && OkOps(ops) && j < SLOTS && ops != []
    requires InUseDuring(Apply(p, ops[0]), ops[1..], j)
    ensures InUseDuring(p, ops, j)
  {
    var m :| 0 <= m <= |ops| - 1 && After(Apply(p, ops[0]), ops[1..][..m]).uses[j];
    assert ops[..m + 1][1..] == ops[1..][..m];
    assert After(p, ops[..m + 1]).uses[j];
  }

  /** The slot `e` past `s`. */
  function Past(s: nat, e: nat): (r: nat)
    ensures r < SLOTS
  {
    (s + 1 + e) % SLOTS
  }

  /** Slots seen from a cursor that is `d` past `s`. */
  lemma AheadIsPast(p: Pool, s: nat, d: nat, t: nat)
    requires p.Ok() && p.cursor == Past(s, d)
    ensures p.Ahead(t) == Past(s, d + t)
  {
  }

  lemma PastAgain(s: nat, e: nat)
    requires s < SLOTS && e < SLOTS && Past(s, e) == s
    ensures e == SLOTS - 1
  {
  }

  /** The sweep: with the cursor `d` past slot `s`, a slot `e` past it with d <= e is met in use
      before the cursor can hand out `s` again. */
  lemma {:induction false} Sweep(p: Pool, ops: seq<Op>, s: nat, d: nat, e: nat)
    requires p.Ok() && OkOps(ops) && s < SLOTS && d <= e < SLOTS - 1
    requires p.cursor == Past(s, d)
    requires After(p, ops).Next() == Some(s)
    ensures InUseDuring(p, ops, Past(s, e))
    decreases |ops|
  {
    hide InUseDuring, Past, p.Gap, p.Ahead;
    var j, g := Past(s, e), p.Gap(0);
    AheadIsPast(p, s, d, e - d);
    if g > e - d {
      InUseNow(p, ops, j);
    } else if ops == [] {
      AheadIsPast(p, s, d, g);
      PastAgain(s, d + g);
      assert false;
    } else {
      var q := Apply(p, ops[0]);
      if !ops[0].Request? {
        Sweep(q, ops[1..], s, d, e);
      } else if g == e - d {
        InUseNow(q, ops[1..], j);
      } else {
        AheadIsPast(p, s, d, g + 1);
        Sweep(q, ops[1..], s, d + g + 1, e);
      }
      InUseLater(p, ops, j);
    }
  }

  /** Fair reuse: between two hand-outs of slot `s`, every other slot is in use at some moment. */
  lemma FairReuse(p: Pool, ops: seq<Op>, s: nat, j: nat)
    requires p.Ok() && OkOps(ops) && j < SLOTS && j != s
    requires p.Next() == Some(s) && After(p.Take(), ops).Next() == Some(s)
    ensures InUseDuring(p.Take(), ops, j)
  {
    hide InUseDuring, After;
    var e := PastSolve(s, j);
    TakenIsPast(p, s);
    Sweep(p.Take(), ops, s, 0, e);
  }

  lemma PastSolve(s: nat, j: nat) returns (e: nat)
    requires s < SLOTS && j < SLOTS && s != j
    ensures Past(s, e) == j && e < SLOTS - 1
  {
    e := if j > s then j - s - 1 else j - s - 1 + SLOTS;
  }

  lemma TakenIsPast(p: Pool, s: nat)
    requires p.Ok() && p.Next() == Some(s)
    ensures s < SLOTS && p.Take().cursor == Past(s, 0)
  {
    ModStep(p.cursor + p.Gap(0));
  }

  lemma ModStep(x: nat)
    ensures (x + 1) % SLOTS == (x % SLOTS + 1) % SLOTS
  {
  }
}
