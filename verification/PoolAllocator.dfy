// The pool allocator (etc/tdxagwDbgMalloc.cpp): three pools of 1024 slots in front of the C heap.
module PoolAllocator {
  import opened Bytes
  import opened PoolCursor
  import opened PoolRun

  type Ptr = nat
  const NULL: Ptr := 0

  const SIZE_T: int := 0x1_0000_0000_0000_0000
  const UINT: int := 0x1_0000_0000

  /** TALLOC_GET_ADJUSTEDSIZE in 64-bit `size_t`: rounded up to a multiple of 1024, with wrap-around. */
  function AdjustedSize(size: nat): nat {
    (size + 1023) % SIZE_T / 1024 * 1024
  }

  /** A block has room for the request exactly when rounding the request up does not wrap. */
  lemma Capacity(size: nat)
    requires size < SIZE_T
    ensures AdjustedSize(size) >= size <==> size <= 0xFFFF_FFFF_FFFF_FFFF - 1023
    ensures AdjustedSize(size) + 12 < SIZE_T
    ensures size <= SIZE_T - 1024 ==> AdjustedSize(size) < size + 1024
    ensures AdjustedSize(size) % 1024 == 0
  {
    if size <= SIZE_T - 1024 {
      assert (size + 1023) % SIZE_T == size + 1023;
    } else {
      assert (size + 1023) % SIZE_T == size + 1023 - SIZE_T < 1024;
    }
  }

  /** A heap block: its two 32-bit header words, the requested and the rounded size, and the bytes
      behind them. */
  datatype Block = Block(size: nat, allocSize: nat, data: seq<byte>)

  /** A live block: where it came from and how many bytes were asked for. */
  datatype Handle = Handle(origin: Origin, size: nat) {
    predicate Ok() {
      origin.Slot? ==> OkOrigin(origin) && PoolNum(size) == origin.i
    }

    /** The size in the header of the block. */
    function Recorded(): nat {
      match origin
      case Slot(i, _) => PoolFill(i)
      case FromHeap => size % UINT
    }
  }

  /** The sizes the pools are filled with; the third is one byte short of the size it serves. */
  function PoolFill(i: nat): nat {
    if i == 0 then 92 else if i == 1 then 12 else 25
  }

  /** The header holds the requested size exactly for requests below 2^32 outside the third pool. */
  lemma RecordedIsRequested(h: Handle)
    requires h.Ok()
    ensures h.Recorded() == h.size <==> h.size < 0x1_0000_0000 && (h.origin.Slot? ==> h.origin.i != 2)
    ensures h.Recorded() <= h.size
  {
    if h.origin.FromHeap? && h.size >= UINT {
      assert h.size % UINT < UINT;
    }
  }

  /** The copy of my_realloc stays inside both blocks. */
  predicate CopyFits(h: Handle, size: nat) {
    h.Recorded() <= AdjustedSize(h.size) && h.Recorded() <= AdjustedSize(size)
  }

  /** It does whenever a block does not shrink. */
  lemma GrowingFits(h: Handle, size: nat)
    requires h.Ok() && h.size <= size <= SIZE_T - 1024
    ensures CopyFits(h, size)
  {
    RecordedIsRequested(h);
    Capacity(h.size);
    Capacity(size);
  }

  /** `memcpy(dst, src, n)`. */
  function Copied(src: seq<byte>, n: nat, dst: seq<byte>): (r: seq<byte>)
    requires n <= |src| && n <= |dst|
    ensures |r| == |dst| && r[..n] == src[..n] && r[n..] == dst[n..]
  {
    src[..n] + dst[n..]
  }

  /** Reallocation to `size` keeps all bytes that were asked for, whatever the two blocks hold. */
  ghost predicate KeepsRequest(h: Handle, size: nat)
    requires CopyFits(h, size)
  {
    forall src: seq<byte>, dst: seq<byte> :: |src| == AdjustedSize(h.size) && |dst| == AdjustedSize(size) ==>
      h.size <= |src| && h.size <= |dst| && Copied(src, h.Recorded(), dst)[..h.size] == src[..h.size]
  }

  /** A growing block keeps its contents exactly for requests below 2^32 outside the third pool. */
  lemma ReallocKeepsRequest(h: Handle, size: nat)
    requires h.Ok() && h.size <= size <= SIZE_T - 1024
    ensures CopyFits(h, size)
    ensures KeepsRequest(h, size) <==> h.size < UINT && (h.origin.Slot? ==> h.origin.i != 2)
  {
    GrowingFits(h, size);
    RecordedIsRequested(h);
    Capacity(h.size);
    Capacity(size);
    var n := h.Recorded();
    if n == h.size {
      forall src: seq<byte>, dst: seq<byte> | |src| == AdjustedSize(h.size) && |dst| == AdjustedSize(size)
        ensures h.size <= |src| && h.size <= |dst| && Copied(src, n, dst)[..h.size] == src[..h.size]
      {
      }
    } else {
      LosesByte(h, size);
    }
  }

  lemma LosesByte(h: Handle, size: nat)
    requires CopyFits(h, size) && h.Recorded() < h.size <= AdjustedSize(h.size) && h.size <= AdjustedSize(size)
    ensures !KeepsRequest(h, size)
  {
    var n := h.Recorded();
    var src, dst := seq(AdjustedSize(h.size), _ => 1 as byte), seq(AdjustedSize(size), _ => 0 as byte);
    assert Copied(src, n, dst)[..h.size][n] == 0;
    assert src[..h.size][n] == 1;
  }

  /** 26 bytes in a slot of the third pool: the last of them is lost. */
  lemma LastOf26IsLost(size: nat)
    requires 26 <= size <= SIZE_T - 1024
    ensures var h := Handle(Slot(2, 0), 26);
            && h.Ok() && h.Recorded() == 25 && CopyFits(h, size)
            && forall src: seq<byte>, dst: seq<byte> :: |src| == 1024 && |dst| == AdjustedSize(size) ==>
                 26 <= |dst| && Copied(src, h.Recorded(), dst)[25] == dst[25]
  {
    Capacity(size);
  }

  /** What a pool grants: its next free slot, and a block of the heap only when all are in use. */
  predicate Grants(p: Pool, i: nat, o: Origin)
    requires p.Ok()
  {
    match o
    case Slot(k, j) => k == i && p.Next() == Some(j)
    case FromHeap => AllInUse(p)
  }

  /** Where a block of `size` bytes comes from: the pools serve 92, 12 and 26 bytes. */
  predicate Granted(size: nat, pool0: Pool, pool1: Pool, pool2: Pool, o: Origin)
    requires pool0.Ok() && pool1.Ok() && pool2.Ok()
  {
    if size == 92 then Grants(pool0, 0, o)
    else if size == 12 then Grants(pool1, 1, o)
    else if size == 26 then Grants(pool2, 2, o)
    else o == FromHeap
  }

  class Allocator {
    var initOne: bool
    const bufs: array2<Ptr>
    const uses: array2<int>
    const idxs: array<nat>
    // The C heap, by the addresses that tmalloc returns.
    var heap: map<Ptr, Block>
    // The blocks handed to the client and not yet freed.
    ghost var live: map<Ptr, Handle>
    // What malloc answered, call by call.
    ghost var answers: seq<Ptr>
    // The calls made since the pools were filled.
    ghost var calls: seq<Call>

    ghost predicate Shape() {
      && bufs.Length0 == 3 && bufs.Length1 == SLOTS
      && uses.Length0 == 3 && uses.Length1 == SLOTS
      && idxs.Length == 3
    }

    predicate IsSlot(i: int, j: int) {
      0 <= i < 3 && 0 <= j < SLOTS
    }

    ghost function State(i: nat): (p: Pool)
      requires Shape() && i < 3
      reads uses, idxs
    {
      Pool(idxs[i], seq(SLOTS, j requires 0 <= j < SLOTS && Shape() reads uses => uses[i, j] != 0))
    }

    /** The slot table: blocks of the heap, all different. A failed allocation leaves a NULL entry. */
    ghost predicate Table()
      requires Shape()
      reads this`heap, bufs
    {
      && (forall i, j :: IsSlot(i, j) && bufs[i, j] != NULL ==>
            && bufs[i, j] in heap
            && heap[bufs[i, j]].size == PoolFill(i) && |heap[bufs[i, j]].data| == 1024)
      && (forall i, j, k, l :: IsSlot(i, j) && IsSlot(k, l) && bufs[i, j] != NULL && bufs[i, j] == bufs[k, l] ==>
            i == k && j == l)
    }

    /** Every live pointer is a block of the heap, from the slot or the path its handle names, as large
        as the request rounded up, with the recorded size in its header. */
    ghost predicate LiveBlock(p: Ptr, h: Handle)
      requires Shape()
      reads this`heap, bufs
    {
      && p != NULL && p in heap && h.Ok()
      && |heap[p].data| == AdjustedSize(h.size) && heap[p].size == h.Recorded()
      && match h.origin
         case FromHeap => forall i, j :: IsSlot(i, j) ==> bufs[i, j] != p
         case Slot(i, j) => IsSlot(i, j) && bufs[i, j] == p
    }

    /** A slot is marked exactly when its block is live. */
    ghost predicate Marks()
      requires Shape()
      reads this`live, bufs, uses
    {
      forall i, j :: IsSlot(i, j) && bufs[i, j] != NULL ==> (uses[i, j] != 0 <==> bufs[i, j] in live)
    }

    /** The pools are what the calls so far made of the zeroed globals. */
    ghost predicate Traced()
      requires Shape()
      reads this`calls, uses, idxs
    {
      OkCalls(calls) && forall i :: 0 <= i < 3 ==> State(i) == PoolAfter(calls, i)
    }

    ghost predicate Unfilled()
      requires Shape()
      reads bufs
    {
      forall i, j :: IsSlot(i, j) ==> bufs[i, j] == NULL
    }

    /** Once the pools are filled, an entry is NULL only because malloc failed. */
    ghost predicate Backed()
      requires Shape()
      reads this`answers, bufs
    {
      forall i, j :: IsSlot(i, j) && bufs[i, j] == NULL ==> NULL in answers
    }

    /** The invariant of every reachable state. */
    ghost predicate Valid()
      reads this, bufs, uses, idxs
    {
      Core() && Traced() && if initOne then calls == [] && Unfilled() else Backed()
    }

    ghost predicate Core()
      reads this, bufs, uses, idxs
    {
      && Shape()
      && (forall i :: 0 <= i < 3 ==> idxs[i] < SLOTS)
      && NULL !in heap && (forall p :: p in heap ==> heap[p].allocSize == |heap[p].data| % UINT)
      && (forall p :: p in live ==> LiveBlock(p, live[p]))
      && Table() && Marks()
    }

    constructor ()
      ensures Valid() && initOne && live == map[] && heap == map[] && calls == [] && answers == []
      ensures fresh(bufs) && fresh(uses) && fresh(idxs)
    {
      initOne := true;
      bufs := new Ptr[3, SLOTS]((i, j) => NULL);
      uses := new int[3, SLOTS]((i, j) => 0);
      idxs := new nat[3](i => 0);
      heap, live, calls, answers := map[], map[], [], [];
      new;
      ZeroedIsFresh();
    }

    lemma ZeroedIsFresh()
      requires Shape() && calls == []
      requires forall i :: 0 <= i < 3 ==> idxs[i] == 0
      requires forall i, j :: IsSlot(i, j) ==> uses[i, j] == 0
      ensures Traced()
    {
      forall i | 0 <= i < 3
        ensures State(i) == Fresh()
      {
        SameState(i, Fresh());
      }
    }

    /** malloc: an address not in use, or NULL. Fresh memory has any contents. */
    method Malloc(n: nat) returns (p: Ptr, junk: seq<byte>)
      modifies this`answers
      ensures p != NULL ==> p !in heap
      ensures answers == old(answers) + [p]
      ensures |junk| == n
    {
      p := *;
      if p in heap {
        p := NULL;
      }
      junk := seq(n, _ => 0);
      answers := answers + [p];
    }

    method Tmalloc(size: nat) returns (p: Ptr)
      requires size < SIZE_T
      modifies this`heap, this`answers
      ensures answers == old(answers) + [p]
      ensures p == NULL ==> heap == old(heap)
      ensures p != NULL ==>
                && p !in old(heap) && p in heap && heap == old(heap)[p := heap[p]]
                && heap[p].size == size % UINT && heap[p].allocSize == AdjustedSize(size) % UINT
                && |heap[p].data| == AdjustedSize(size)
    {
      var junk;
      p, junk := Malloc(AdjustedSize(size));
      if p != NULL {
        heap := heap[p := Block(size % UINT, AdjustedSize(size) % UINT, junk)];
      }
    }

    method Tfree(p: Ptr)
      requires NULL !in heap
      modifies this`heap
      ensures heap == old(heap) - {p}
    {
      if p != NULL {
        heap := heap - {p};
      }
    }

    lemma SameState(i: nat, p: Pool)
      requires Shape() && i < 3 && |p.uses| == SLOTS
      requires idxs[i] == p.cursor && forall j :: 0 <= j < SLOTS ==> (uses[i, j] != 0) == p.uses[j]
      ensures State(i) == p
    {
      assert State(i).uses == p.uses;
    }

    /** The scan of tpool_alloc: the steps from `poolIdx` to a free slot, or SLOTS. */
    method ScanFree(id: nat, poolIdx: nat, ghost was: Pool) returns (j: nat)
      requires Shape() && id < 3 && was.Ok() && poolIdx == was.cursor
      requires forall s :: 0 <= s < SLOTS ==> (uses[id, s] != 0) == was.uses[s]
      ensures j == was.Gap(0)
    {
      j := 0;
      while j < SLOTS && uses[id, (poolIdx + j) % SLOTS] != 0
        invariant 0 <= j <= SLOTS
        invariant forall u :: 0 <= u < j ==> was.uses[was.Ahead(u)]
      {
        assert was.Ahead(j) == (poolIdx + j) % SLOTS;
        j := j + 1;
      }
      assert j < SLOTS ==> was.Ahead(j) == (poolIdx + j) % SLOTS;
      GapUnique(was, 0, j);
    }

    /** The pooled part of tpool_alloc: marks the slot found and moves the cursor. */
    method TakeSlot(id: nat, ghost was: Pool) returns (slot: Option<nat>)
      requires Shape() && id < 3 && was == State(id) && was.Ok()
      modifies uses, idxs
      ensures State(id) == was.Take() && slot == was.Next()
      ensures forall i :: 0 <= i < 3 ==> if i == id then idxs[i] < SLOTS else idxs[i] == old(idxs[i])
      ensures slot.Some? ==> slot.value < SLOTS && old(uses[id, slot.value]) == 0
      ensures forall i, j :: IsSlot(i, j) ==> uses[i, j] == if i == id && slot == Some(j) then 1 else old(uses[i, j])
    {
      hide was.Take, was.Next, was.Gap, was.Ahead;
      var poolIdx := idxs[id];
      idxs[id] := (idxs[id] + 1) % SLOTS;
      var j := ScanFree(id, poolIdx, was);
      if j < SLOTS {
        slot := Some((poolIdx + j) % SLOTS);
        uses[id, slot.value], idxs[id] := 1, (poolIdx + j + 1) % SLOTS;
      } else {
        slot := None;
      }
      TakeAt(was, j);
      SameState(id, was.Take());
    }

    /** `return tmalloc(size)`: a block of the heap, outside the pools. */
    method HeapAlloc(size: nat) returns (p: Ptr)
      requires Core() && size < SIZE_T
      modifies this`heap, this`live, this`answers
      ensures Core() && answers == old(answers) + [p]
      ensures p == NULL ==> heap == old(heap) && live == old(live)
      ensures p != NULL ==>
                && p !in old(heap) && p in heap && heap == old(heap)[p := heap[p]]
                && p !in old(live) && live == old(live)[p := Handle(FromHeap, size)] && LiveBlock(p, live[p])
    {
      p := Tmalloc(size);
      if p != NULL {
        live := live[p := Handle(FromHeap, size)];
      }
    }

    /** The marks are right, except that slot (id, s) is marked before its block is live. */
    ghost predicate MarksBut(id: nat, s: nat)
      requires Shape()
      reads this`live, bufs, uses
    {
      forall i, j :: IsSlot(i, j) && bufs[i, j] != NULL ==>
        (uses[i, j] != 0 <==> bufs[i, j] in live || (i == id && j == s))
    }

    ghost predicate CoreBut(id: nat, s: nat)
      reads this, bufs, uses, idxs
    {
      && Shape()
      && (forall i :: 0 <= i < 3 ==> idxs[i] < SLOTS)
      && NULL !in heap && (forall p :: p in heap ==> heap[p].allocSize == |heap[p].data| % UINT)
      && (forall p :: p in live ==> LiveBlock(p, live[p]))
      && Table() && MarksBut(id, s)
    }

    /** The block of a freshly marked slot becomes live. */
    ghost method HandOut(id: nat, s: nat, size: nat) returns (h: Handle)
      requires CoreBut(id, s) && IsSlot(id, s) && bufs[id, s] != NULL && bufs[id, s] !in live
      requires PoolNum(size) == id
      modifies this`live
      ensures Core() && live == old(live)[bufs[id, s] := h] && h == Handle(Slot(id, s), size)
      ensures LiveBlock(bufs[id, s], h)
    {
      h := Handle(Slot(id, s), size);
      live := live[bufs[id, s] := h];
    }

    /** The slot is marked before its block is handed out. */
    method MarkSlot(id: nat) returns (slot: Option<nat>)
      requires Core() && id < 3
      modifies uses, idxs
      ensures State(id) == old(State(id)).Take() && slot == old(State(id)).Next()
      ensures forall i :: 0 <= i < 3 && i != id ==> State(i) == old(State(i))
      ensures slot.Some? ==> slot.value < SLOTS && CoreBut(id, slot.value)
      ensures slot.Some? && bufs[id, slot.value] != NULL ==> bufs[id, slot.value] !in live
      ensures slot == None || bufs[id, slot.value] == NULL ==> Core()
    {
      hide Table, LiveBlock;
      slot := TakeSlot(id, State(id));
      KeptStates(id);
    }

    /** The pooled branch of tpool_alloc, up to the fallback; `got` is false when all slots are in use. */
    method PoolAlloc(id: nat, size: nat) returns (got: bool, p: Ptr, ghost h: Handle)
      requires Core() && size < SIZE_T && PoolNum(size) == id
      modifies this`live, uses, idxs
      ensures Core()
      ensures State(id) == old(State(id)).Take()
      ensures forall i :: 0 <= i < 3 && i != id ==> State(i) == old(State(i))
      ensures got <==> old(State(id)).Next().Some?
      ensures got && p != NULL ==>
                && p !in old(live) && live == old(live)[p := h] && h.size == size && LiveBlock(p, h)
                && h.origin.Slot? && h.origin.i == id && old(State(id)).Next() == Some(h.origin.j)
      ensures !got || p == NULL ==> live == old(live)
      ensures got ==> IsSlot(id, old(State(id)).Next().value) && p == bufs[id, old(State(id)).Next().value]
    {
      hide Table, LiveBlock, Marks, MarksBut;
      var slot := MarkSlot(id);
      got, p, h := slot.Some?, NULL, Handle(FromHeap, size);
      if got {
        p := bufs[id, slot.value];
        if p != NULL {
          h := HandOut(id, slot.value, size);
        }
      }
    }

    /** Notes a call in the history. */
    ghost method Note(c: Call)
      requires Core() && OkCalls(calls) && (c.Freed? ==> OkOrigin(c.origin)) && !initOne && Backed()
      requires forall i :: 0 <= i < 3 ==> State(i) == Step(PoolAfter(calls, i), i, c)
      modifies this`calls
      ensures Valid() && calls == old(calls) + [c]
    {
      hide Table, LiveBlock, Marks;
      forall i | 0 <= i < 3
        ensures PoolAfter(calls + [c], i) == Step(PoolAfter(calls, i), i, c)
      {
        PoolAfterOne(calls, i, c);
      }
      calls := calls + [c];
    }

    /** The blocks that were live stay as they were, except that of `gone`. */
    twostate predicate Kept(gone: Ptr)
      reads this`heap, this`live
    {
      forall q :: q in old(live) && q != gone && q in old(heap) ==> q in heap && heap[q] == old(heap[q])
    }

    /** What a request does to the pools. */
    twostate predicate Asking(size: nat)
      requires Shape() && forall i :: 0 <= i < 3 ==> old(State(i)).Ok()
      reads uses, idxs
    {
      forall i :: 0 <= i < 3 ==>
        var asked := if i == 0 then size == 92 else if i == 1 then size == 12 else size == 26;
        State(i) == if asked then old(State(i)).Take() else old(State(i))
    }

    /** tpool_alloc. A pooled size gets the next free slot of its pool; the heap serves every other
        size, and a pooled one when its pool has no free slot or the pools are not filled yet. */
    method TpoolAlloc(size: nat) returns (p: Ptr, ghost h: Handle)
      requires Valid() && size < SIZE_T
      modifies this`heap, this`live, this`calls, this`answers, uses, idxs
      ensures Valid() && calls == if initOne then old(calls) else old(calls) + [Asked(size)]
      ensures old(answers) <= answers && (p == NULL ==> NULL in answers)
      ensures p == NULL ==> live == old(live) && heap == old(heap)
      ensures p != NULL ==> p !in old(live) && live == old(live)[p := h] && h.size == size && LiveBlock(p, h)
      ensures p != NULL && h.origin.Slot? ==> heap == old(heap)
      ensures p != NULL && h.origin.FromHeap? ==> p !in old(heap) && p in heap && heap == old(heap)[p := heap[p]]
      ensures p != NULL ==>
                if PoolNum(size) < 0 || initOne then h.origin == FromHeap
                else Grants(old(State(PoolNum(size))), PoolNum(size), h.origin)
      ensures forall i :: 0 <= i < 3 ==>
                State(i) == if i == PoolNum(size) && !initOne then old(State(i)).Take() else old(State(i))
      ensures !initOne ==>
                && Asking(size)
                && (p != NULL ==> Granted(size, old(State(0)), old(State(1)), old(State(2)), h.origin))
    {
      hide Table, LiveBlock, Marks, PoolAfter, Step;
      var poolId := PoolNum(size);
      if poolId < 0 || initOne {
        h := Handle(FromHeap, size);
        p := HeapAlloc(size);
      } else {
        p, h := SlotOrHeap(poolId, size);
      }
      if !initOne {
        AskedSteps(size);
        Note(Asked(size));
      }
      assert p != NULL ==> live[p] == h;
    }

    /** A pooled request once the pools are filled. */
    method SlotOrHeap(id: nat, size: nat) returns (p: Ptr, ghost h: Handle)
      requires Core() && size < SIZE_T && PoolNum(size) == id && Backed()
      modifies this`heap, this`live, this`answers, uses, idxs
      ensures Core() && Backed() && old(answers) <= answers && (p == NULL ==> NULL in answers)
      ensures p == NULL ==> live == old(live) && heap == old(heap)
      ensures p != NULL ==> p !in old(live) && live == old(live)[p := h] && h.size == size && LiveBlock(p, h)
      ensures p != NULL && h.origin.Slot? ==> heap == old(heap)
      ensures p != NULL && h.origin.FromHeap? ==> p !in old(heap) && p in heap && heap == old(heap)[p := heap[p]]
      ensures p != NULL ==> Grants(old(State(id)), id, h.origin)
      ensures forall i :: 0 <= i < 3 ==> State(i) == if i == id then old(State(i)).Take() else old(State(i))
    {
      hide Table, LiveBlock, Marks;
      NextIsFree(State(id));
      var got;
      got, p, h := PoolAlloc(id, size);
      if !got {
        h := Handle(FromHeap, size);
        p := HeapAlloc(size);
      }
    }

    twostate lemma AskedSteps(size: nat)
      requires Shape() && forall i :: 0 <= i < 3 ==> old(State(i)).Ok()
      requires old(Traced()) && calls == old(calls)
      requires forall i :: 0 <= i < 3 ==> State(i) == if i == PoolNum(size) then old(State(i)).Take() else old(State(i))
      ensures OkCalls(calls) && forall i :: 0 <= i < 3 ==> State(i) == Step(PoolAfter(calls, i), i, Asked(size))
    {
    }

    twostate lemma KeptStates(id: nat)
      requires Shape() && id < 3
      requires forall i :: 0 <= i < 3 && i != id ==> idxs[i] == old(idxs[i])
      requires forall i, j :: IsSlot(i, j) && i != id ==> uses[i, j] == old(uses[i, j])
      ensures forall i :: 0 <= i < 3 && i != id ==> State(i) == old(State(i))
    {
      forall i | 0 <= i < 3 && i != id
        ensures State(i) == old(State(i))
      {
        assert State(i).uses == old(State(i)).uses;
      }
    }

    /** The double loop of tpool_free: the first table entry that is `ptr`. */
    method FindSlot(ptr: Ptr) returns (found: bool, i: nat, j: nat)
      requires Shape()
      ensures found ==> IsSlot(i, j) && bufs[i, j] == ptr
      ensures !found ==> forall k, l :: IsSlot(k, l) ==> bufs[k, l] != ptr
    {
      found, i, j := false, 0, 0;
      while i < 3
        invariant 0 <= i <= 3
        invariant forall k, l :: 0 <= k < i && 0 <= l < SLOTS ==> bufs[k, l] != ptr
      {
        j := 0;
        while j < SLOTS
          invariant 0 <= j <= SLOTS
          invariant forall l :: 0 <= l < j ==> bufs[i, l] != ptr
        {
          if ptr == bufs[i, j] {
            found := true;
            return;
          }
          j := j + 1;
        }
        i := i + 1;
      }
    }

    /** `pool_uses[i][j] = 0`, for the block of that slot. */
    method ClearSlot(i: nat, j: nat)
      requires Core() && IsSlot(i, j)
      modifies this`live, uses
      ensures Core() && live == old(live) - {bufs[i, j]}
      ensures forall k :: 0 <= k < 3 ==> State(k) == if k == i then old(State(k)).Release(j) else old(State(k))
    {
      ghost var was := State(i);
      uses[i, j] := 0;
      live := live - {bufs[i, j]};
      KeptStates(i);
      SameState(i, was.Release(j));
    }

    /** tpool_free of a live block: a pooled one goes back to its own slot, any other to the heap. A NULL
        is ignored, except that it clears the mark of a slot whose allocation had failed. */
    method TpoolFree(ptr: Ptr) returns (ghost o: Origin)
      requires Valid() && (ptr == NULL || ptr in live)
      modifies this`heap, this`live, this`calls, uses
      ensures Valid() && live == old(live) - {ptr} && OkOrigin(o)
      ensures calls == if initOne then old(calls) else old(calls) + [Freed(o)]
      ensures if ptr != NULL then o == old(live[ptr].origin) else o.Slot? ==> bufs[o.i, o.j] == NULL
      ensures heap == if o.Slot? then old(heap) else old(heap) - {ptr}
      ensures forall k :: 0 <= k < 3 ==>
                State(k) == if o.Slot? && o.i == k then old(State(k)).Release(o.j) else old(State(k))
    {
      assert ptr != NULL ==> LiveBlock(ptr, live[ptr]);
      hide Table, Marks, Step, PoolAfter;
      if initOne {
        o := FromHeap;
        HeapFree(ptr);
        return;
      }
      var found, i, j := FindSlot(ptr);
      o := if found then Slot(i, j) else FromHeap;
      if found {
        ClearSlot(i, j);
      } else {
        HeapFree(ptr);
      }
      FreedSteps(o);
      Note(Freed(o));
    }

    twostate lemma FreedSteps(o: Origin)
      requires Shape() && OkOrigin(o) && forall i :: 0 <= i < 3 ==> old(State(i)).Ok()
      requires old(Traced()) && calls == old(calls)
      requires forall k :: 0 <= k < 3 ==>
                 State(k) == if o.Slot? && o.i == k then old(State(k)).Release(o.j) else old(State(k))
      ensures OkCalls(calls) && forall i :: 0 <= i < 3 ==> State(i) == Step(PoolAfter(calls, i), i, Freed(o))
    {
    }

    /** `tfree(ptr)` of a block that is not a slot's. */
    method HeapFree(ptr: Ptr)
      requires Core() && forall i, j :: IsSlot(i, j) ==> ptr == NULL || bufs[i, j] != ptr
      modifies this`heap, this`live
      ensures Core() && heap == old(heap) - {ptr} && live == old(live) - {ptr}
    {
      Tfree(ptr);
      live := live - {ptr};
    }

    method FillSlot(i: nat, j: nat)
      requires Core() && IsSlot(i, j) && bufs[i, j] == NULL
      modifies this`heap, this`answers, bufs, uses
      ensures Core() && uses[i, j] == 0 && answers == old(answers) + [bufs[i, j]]
      ensures forall p :: p in old(heap) ==> p in heap && heap[p] == old(heap[p])
      ensures forall k, l :: IsSlot(k, l) && (k != i || l != j) ==>
                bufs[k, l] == old(bufs[k, l]) && uses[k, l] == old(uses[k, l])
    {
      hide Table, LiveBlock, Marks;
      var p := SlotBlock(i);
      SetSlot(i, j, p);
    }

    /** A block for a slot of pool `i`: neither live nor in the table. */
    method SlotBlock(i: nat) returns (p: Ptr)
      requires Core() && i < 3
      modifies this`heap, this`answers
      ensures Core() && Spare(p, i) && answers == old(answers) + [p]
      ensures forall p :: p in old(heap) ==> p in heap && heap[p] == old(heap[p])
    {
      p := Tmalloc(PoolFill(i));
    }

    ghost predicate Spare(p: Ptr, i: nat)
      requires Shape()
      reads this`heap, this`live, bufs
    {
      p != NULL ==>
        && p in heap && heap[p].size == PoolFill(i) && |heap[p].data| == 1024
        && p !in live && forall k, l :: IsSlot(k, l) ==> bufs[k, l] != p
    }

    method SetSlot(i: nat, j: nat, p: Ptr)
      requires Core() && IsSlot(i, j) && bufs[i, j] == NULL && Spare(p, i)
      modifies bufs, uses
      ensures Core() && uses[i, j] == 0 && bufs[i, j] == p
      ensures forall k, l :: IsSlot(k, l) && (k != i || l != j) ==>
                bufs[k, l] == old(bufs[k, l]) && uses[k, l] == old(uses[k, l])
    {
      bufs[i, j] := p;
      uses[i, j] := 0;
    }

    /** One of the three loops of tinit_pool. */
    method FillPool(i: nat)
      requires Core() && i < 3 && forall j :: 0 <= j < SLOTS ==> bufs[i, j] == NULL
      modifies this`heap, this`answers, bufs, uses
      ensures Core() && |answers| == |old(answers)| + SLOTS && old(answers) <= answers
      ensures forall j :: 0 <= j < SLOTS ==> bufs[i, j] == answers[|old(answers)| + j]
      ensures forall p :: p in old(heap) ==> p in heap && heap[p] == old(heap[p])
      ensures forall k, l :: IsSlot(k, l) && k != i ==> bufs[k, l] == old(bufs[k, l]) && uses[k, l] == old(uses[k, l])
      ensures forall j :: 0 <= j < SLOTS ==> uses[i, j] == 0
    {
      hide Table, LiveBlock, Marks;
      for j := 0 to SLOTS
        invariant Core()
        invariant forall p :: p in old(heap) ==> p in heap && heap[p] == old(heap[p])
        invariant forall k, l :: IsSlot(k, l) && k != i ==>
                    bufs[k, l] == old(bufs[k, l]) && uses[k, l] == old(uses[k, l])
        invariant |answers| == |old(answers)| + j && old(answers) <= answers
        invariant forall l :: 0 <= l < j ==> bufs[i, l] == answers[|old(answers)| + l]
        invariant forall l :: j <= l < SLOTS ==> bufs[i, l] == NULL
        invariant forall l :: 0 <= l < j ==> uses[i, l] == 0
      {
        FillSlot(i, j);
      }
    }

    /** The lazy initialisation at the head of every entry point. It leaves cursors and marks as they
        were: before it, none is set. */
    method InitOnce()
      requires Valid()
      modifies this`initOne, this`heap, this`answers, bufs, uses
      ensures Valid() && !initOne && live == old(live) && old(answers) <= answers
      ensures forall i :: 0 <= i < 3 ==> State(i) == old(State(i))
      ensures !old(initOne) ==> heap == old(heap) && SameTable() && answers == old(answers)
      ensures old(initOne) ==>
                && |answers| == |old(answers)| + 3 * SLOTS
                && forall i, j :: IsSlot(i, j) ==> bufs[i, j] == answers[|old(answers)| + i * SLOTS + j]
      ensures forall p :: p in old(heap) ==> p in heap && heap[p] == old(heap[p])
    {
      hide Table, LiveBlock, Marks;
      if initOne {
        FillPool(0);
        FillPool(1);
        FillPool(2);
        ClearedStates();
        initOne := false;
      }
    }

    /** Clearing marks that were clear changes no pool. */
    twostate lemma ClearedStates()
      requires Shape() && old(calls) == [] && old(Traced())
      requires forall i :: 0 <= i < 3 ==> idxs[i] == old(idxs[i])
      requires forall i, j :: IsSlot(i, j) ==> uses[i, j] == 0
      ensures forall i :: 0 <= i < 3 ==> State(i) == old(State(i))
    {
      forall i | 0 <= i < 3
        ensures State(i) == old(State(i))
      {
        assert old(State(i)) == Fresh();
        SameState(i, Fresh());
      }
    }

    /** The slot table is the one of the old state. */
    twostate predicate SameTable()
      requires Shape()
      reads bufs
    {
      forall i, j :: IsSlot(i, j) ==> bufs[i, j] == old(bufs[i, j])
    }

    /** my_malloc. */
    method MyMalloc(size: nat) returns (p: Ptr, ghost h: Handle)
      requires Valid() && size < SIZE_T
      modifies this`initOne, this`heap, this`live, this`calls, this`answers, bufs, uses, idxs
      ensures Valid() && !initOne && (!old(initOne) ==> SameTable())
      ensures calls == old(calls) + [Asked(size)] && Kept(NULL)
      ensures Asking(size) && (p != NULL ==> Granted(size, old(State(0)), old(State(1)), old(State(2)), h.origin))
      ensures p == NULL ==> live == old(live) && NULL in answers
      ensures p != NULL ==> p !in old(live) && live == old(live)[p := h] && h.size == size && LiveBlock(p, h)
    {
      hide Core, Traced, LiveBlock, Granted, State, Step, PoolAfter;
      InitOnce();
      p, h := TpoolAlloc(size);
    }

    /** my_free. */
    method MyFree(ptr: Ptr) returns (ghost o: Origin)
      requires Valid() && (ptr == NULL || ptr in live)
      modifies this`initOne, this`heap, this`live, this`calls, this`answers, bufs, uses
      ensures Valid() && !initOne && (!old(initOne) ==> SameTable())
      ensures calls == old(calls) + [Freed(o)] && OkOrigin(o) && Kept(ptr)
      ensures live == old(live) - {ptr}
      ensures if ptr != NULL then o == old(live[ptr].origin) else o.Slot? ==> bufs[o.i, o.j] == NULL
      ensures o.Slot? && !old(initOne) ==> heap == old(heap)
      ensures o.FromHeap? ==> ptr !in heap
      ensures forall k :: 0 <= k < 3 ==>
                State(k) == if o.Slot? && o.i == k then old(State(k)).Release(o.j) else old(State(k))
    {
      hide Core;
      InitOnce();
      o := TpoolFree(ptr);
    }

    /** memcpy or memset on a live block: the first bytes are replaced, nothing else changes. */
    method WriteBlock(p: Ptr, bytes: seq<byte>)
      requires Valid() && p in heap && |bytes| <= |heap[p].data|
      modifies this`heap
      ensures Valid() && p in heap
      ensures heap == old(heap)[p := old(heap[p]).(data := Copied(bytes, |bytes|, old(heap[p].data)))]
    {
      var b := heap[p];
      assert bytes[..|bytes|] == bytes;
      heap := heap[p := b.(data := bytes + b.data[|bytes|..])];
    }

    /** The end of tpool_realloc: the old contents go to the new block, if there is one, and the old block
        is freed. */
    method CopyAndFree(p: Ptr, ptr: Ptr, n: nat)
      requires Valid() && ptr in live && p != ptr && ptr != NULL && !initOne
      requires p != NULL ==> p in live && p in heap && ptr in heap && n <= |heap[p].data| && n <= |heap[ptr].data|
      modifies this`heap, this`live, this`calls, uses
      ensures Valid() && live == old(live) - {ptr} && calls == old(calls) + [Freed(old(live[ptr].origin))]
      ensures forall q :: q in old(heap) && q != p && q != ptr ==> q in heap && heap[q] == old(heap[q])
      ensures p != NULL ==>
                && LiveBlock(p, live[p])
                && heap[p].data == Copied(old(heap[ptr].data), n, old(heap[p].data))
      ensures forall k :: 0 <= k < 3 ==>
                var o := old(live[ptr].origin);
                State(k) == if o.Slot? && o.i == k then old(State(k)).Release(o.j) else old(State(k))
    {
      assert live[ptr].Ok() by {
        LiveIsBlock(ptr);
      }
      hide Core, Traced, Step, PoolAfter, OkCalls, State, LiveBlock, Copied;
      if p != NULL {
        CopiedPrefix(heap[ptr].data, n, heap[p].data);
        WriteBlock(p, heap[ptr].data[..n]);
      }
      var _ := TpoolFree(ptr);
      if p != NULL {
        LiveIsBlock(p);
      }
    }

    lemma CopiedPrefix(src: seq<byte>, n: nat, dst: seq<byte>)
      requires n <= |src| && n <= |dst|
      ensures Copied(src[..n], n, dst) == Copied(src, n, dst)
    {
    }

    lemma LiveIsBlock(p: Ptr)
      requires Valid() && p in live
      ensures LiveBlock(p, live[p])
    {
    }

    /** The pools after a call of tpool_realloc: the request, and the release of the old block. */
    twostate predicate PoolsMoved(ptr: Ptr, size: nat)
      requires Shape() && forall i :: 0 <= i < 3 ==> old(State(i)).Ok()
      requires ptr != NULL ==> ptr in old(live) && old(live[ptr]).Ok()
      reads this`live, uses, idxs
    {
      var o := if ptr == NULL then FromHeap else old(live[ptr].origin);
      forall i :: 0 <= i < 3 ==>
        var asked := if i == 0 then size == 92 else if i == 1 then size == 12 else size == 26;
        var s := if asked then old(State(i)).Take() else old(State(i));
        State(i) == if o.Slot? && o.i == i then s.Release(o.j) else s
    }

    /** The new block at `p` starts with the recorded size of the old one; behind that it is unchanged. */
    twostate predicate Moved(ptr: Ptr, p: Ptr, n: nat)
      requires ptr in old(heap) && p in heap
      reads this`heap
    {
      && n <= |old(heap[ptr].data)| && n <= |heap[p].data|
      && heap[p].data[..n] == old(heap[ptr].data[..n])
      && (p in old(heap) ==> n <= |old(heap[p].data)| && heap[p].data[n..] == old(heap[p].data)[n..])
    }

    /** tpool_realloc. */
    method TpoolRealloc(ptr: Ptr, size: nat) returns (p: Ptr, ghost h: Handle)
      requires Valid() && size < SIZE_T && (ptr == NULL || ptr in live) && !initOne
      requires ptr != NULL ==> CopyFits(live[ptr], size)
      modifies this`heap, this`live, this`calls, this`answers, uses, idxs
      ensures Valid() && Kept(ptr) && old(answers) <= answers && (p == NULL ==> NULL in answers)
      ensures calls == old(calls) + [Asked(size)] + if ptr == NULL then [] else [Freed(old(live[ptr].origin))]
      ensures p == NULL ==> live == old(live) - {ptr}
      ensures p != NULL ==> p !in old(live) && live == old(live)[p := h] - {ptr} && h.size == size && LiveBlock(p, h)
      ensures p != NULL ==> Granted(size, old(State(0)), old(State(1)), old(State(2)), h.origin)
      ensures PoolsMoved(ptr, size)
      ensures p != NULL && ptr != NULL ==> Moved(ptr, p, old(live[ptr]).Recorded())
    {
      hide Core, Traced, Step, PoolAfter, OkCalls, Granted, State, AdjustedSize, Copied, LiveBlock, PoolNum, Grants;
      NullIsNotLive();
      if ptr == NULL {
        p, h := TpoolAlloc(size);
        assert p != NULL ==> live == old(live)[p := h] - {NULL};
      } else {
        p, h := MoveBlock(ptr, size);
      }
    }

    /** tpool_realloc of a block. */
    method MoveBlock(ptr: Ptr, size: nat) returns (p: Ptr, ghost h: Handle)
      requires Valid() && size < SIZE_T && ptr != NULL && ptr in live && !initOne && CopyFits(live[ptr], size)
      modifies this`heap, this`live, this`calls, this`answers, uses, idxs
      ensures Valid() && Kept(ptr) && old(answers) <= answers && (p == NULL ==> NULL in answers)
      ensures calls == old(calls) + [Asked(size)] + [Freed(old(live[ptr].origin))]
      ensures p == NULL ==> live == old(live) - {ptr}
      ensures p != NULL ==> p !in old(live) && live == old(live)[p := h] - {ptr} && h.size == size && LiveBlock(p, h)
      ensures p != NULL ==> Granted(size, old(State(0)), old(State(1)), old(State(2)), h.origin)
      ensures PoolsMoved(ptr, size)
      ensures p != NULL ==> Moved(ptr, p, old(live[ptr]).Recorded())
    {
      hide Core, Traced, Step, PoolAfter, OkCalls, Granted, State, AdjustedSize, Copied, LiveBlock, PoolNum, Grants;
      NullIsNotLive();
      BlockSizes(ptr);
      var oldSize := heap[ptr].size;
      p, h := TpoolAlloc(size);
      if p != NULL {
        BlockSizes(p);
      }
      assert p != NULL && p in old(heap) ==> heap[p] == old(heap[p]);
      CopyAndFree(p, ptr, oldSize);
    }

    lemma NullIsNotLive()
      requires Valid()
      ensures NULL !in live
    {
    }

    lemma BlockSizes(p: Ptr)
      requires Valid() && p in live
      ensures var h := live[p];
              && p in heap && h.Ok()
              && heap[p].size == h.Recorded() && |heap[p].data| == AdjustedSize(h.size)
    {
    }

    /** my_realloc, where the copy of the recorded size fits both blocks (see ReallocKeepsRequest for
        what survives). */
    method MyRealloc(ptr: Ptr, size: nat) returns (p: Ptr, ghost h: Handle)
      requires Valid() && size < SIZE_T && (ptr == NULL || ptr in live)
      requires ptr != NULL ==> CopyFits(live[ptr], size)
      modifies this`initOne, this`heap, this`live, this`calls, this`answers, bufs, uses, idxs
      ensures Valid() && !initOne && (!old(initOne) ==> SameTable()) && Kept(ptr)
      ensures calls == old(calls) + [Asked(size)] + if ptr == NULL then [] else [Freed(old(live[ptr].origin))]
      ensures p == NULL ==> live == old(live) - {ptr} && NULL in answers
      ensures p != NULL ==> p !in old(live) && live == old(live)[p := h] - {ptr} && h.size == size && LiveBlock(p, h)
      ensures p != NULL ==> Granted(size, old(State(0)), old(State(1)), old(State(2)), h.origin)
      ensures PoolsMoved(ptr, size)
      ensures p != NULL && ptr != NULL ==> Moved(ptr, p, old(live[ptr]).Recorded())
    {
      assert ptr != NULL ==> LiveBlock(ptr, live[ptr]);
      hide Core, Traced, Step, PoolAfter, OkCalls, LiveBlock, Granted, State;
      InitOnce();
      p, h := TpoolRealloc(ptr, size);
    }

    /** my_calloc, for a product that can be rounded up: the block is cleared, and it has room for the
        array exactly when the product of the two sizes did not wrap. */
    method MyCalloc(nmemb: nat, size: nat) returns (p: Ptr, ghost h: Handle)
      requires Valid() && nmemb * size % SIZE_T <= SIZE_T - 1024
      modifies this`initOne, this`heap, this`live, this`calls, this`answers, bufs, uses, idxs
      ensures Valid() && !initOne && (!old(initOne) ==> SameTable())
      ensures var n := nmemb * size % SIZE_T;
              && calls == old(calls) + [Asked(n)] && Kept(NULL)
              && Asking(n) && (p != NULL ==> Granted(n, old(State(0)), old(State(1)), old(State(2)), h.origin))
              && (p == NULL ==> live == old(live) && NULL in answers)
              && (p != NULL ==>
                    && p !in old(live) && live == old(live)[p := h] && h.size == n
                    && p in heap && n <= |heap[p].data| && heap[p].data[..n] == seq(n, _ => 0)
                    && (|heap[p].data| >= nmemb * size <==> nmemb * size < SIZE_T))
    {
      hide Core, Traced, LiveBlock, Grants, State, Step, PoolAfter, Copied, AdjustedSize;
      InitOnce();
      var n := nmemb * size % SIZE_T;
      HoldsArray(nmemb * size);
      p, h := TpoolAlloc(n);
      if p != NULL {
        BlockSizes(p);
        WriteBlock(p, seq(n, _ => 0));
      }
    }

    lemma HoldsArray(total: nat)
      requires total % SIZE_T <= SIZE_T - 1024
      ensures AdjustedSize(total % SIZE_T) >= total % SIZE_T
      ensures AdjustedSize(total % SIZE_T) >= total <==> total < SIZE_T
    {
      Capacity(total % SIZE_T);
    }

    /** Fair reuse in every reachable state: when the next slot to be handed out is the one that an
        earlier call got, every other slot of the pool has been in use since. */
    lemma ReuseIsFair(i: nat, m: nat, s: nat, j: nat)
      requires Valid() && i < 3 && m < |calls| && j < SLOTS && j != s
      requires calls[m].Asked? && PoolNum(calls[m].size) == i
      requires PoolAfter(calls[..m], i).Next() == Some(s) && State(i).Next() == Some(s)
      ensures InUseBetween(calls, i, m, |calls|, j)
    {
      hide Core;
      assert calls[..|calls|] == calls;
      FairReuseOfCalls(calls, i, m, |calls|, s, j);
    }
  }
}
