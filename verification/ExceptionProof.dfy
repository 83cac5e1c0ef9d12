// The macro expansion of eloop/cexcept.h implements structured exceptions.
module ExceptionProof {
  import opened Bytes
  import opened Exceptions
  import opened ExceptionMachine

  /** Where a `return` goes on. */
  function Caller(k: Kont): Kont {
    match k
    case Done => Done
    case CallK(k') => k'
    case ThenK(c, blk, k') => Caller(k')
    case LoopK(c, blk, k') => Caller(k')
    case EndBlockK(k') => Caller(k')
  }

  /** How many blocks of the running procedure are open. */
  function Open(k: Kont): nat {
    match k
    case Done => 0
    case CallK(k') => 0
    case ThenK(c, blk, k') => Open(k')
    case LoopK(c, blk, k') => Open(k')
    case EndBlockK(k') => 1 + Open(k')
  }

  /** The blocks that a `return` leaves live. */
  function Outer(locals: seq<Local>, k: Kont): seq<Local>
    requires Open(k) <= |locals|
  {
    locals[..|locals| - Open(k)]
  }

  lemma OuterOf(locals: seq<Local>, k: Kont)
    requires Open(k) + 1 <= |locals|
    ensures Outer(locals[..|locals| - 1], k) == Outer(locals, EndBlockK(k))
  {
  }

  /** A `return` drops exactly the open blocks of its procedure. */
  lemma {:induction false} Unwinds(c: Config, k: Kont)
    requires Open(k) <= |c.locals|
    ensures Unwind(c, k) == c.(ctl := Continue(Caller(k)), locals := Outer(c.locals, k))
    decreases k
  {
    match k
    case ThenK(code, blk, k') => Unwinds(c, k');
    case LoopK(code, blk, k') => Unwinds(c, k');
    case EndBlockK(k') =>
      Unwinds(c.(locals := c.locals[..|c.locals| - 1]), k');
      OuterOf(c.locals, k');
    case _ =>
      assert c.locals[..|c.locals|] == c.locals;
  }

  /** The machine has finished the statement as `o` says: `penv` and the live blocks are those of the
      start, less those that a `return` leaves, whatever `caught` and `etmp` were; a thrown value sits in
      `etmp`, about to jump. */
  predicate Finished(o: Outcome, start: Config, k: Kont, end: Config)
    requires Open(k) <= |start.locals|
  {
    && end.penv == start.penv
    && end.locals == (if o.Returned? then Outer(start.locals, k) else start.locals)
    && match o
       case Normal(w) => end.ctl == Continue(k) && end.w == w
       case Returned(w) => end.ctl == Continue(Caller(k)) && end.w == w
       case Thrown(w, v) => end.ctl == Jump && end.w == w && end.etmp == v
       case Timeout => false
  }

  /** The continuation of the body of a Try. */
  function InsideTry(body: Code, id: nat, k: Kont): Kont {
    LoopK(body, id, ThenK(CRestorePenv, id, EndBlockK(k)))
  }

  /** The machine just after `setjmp` has returned 0 and the loop has entered the body. */
  function Entered(body: Code, c: Config, k: Kont): Config {
    var id := |c.locals|;
    var after := ThenK(CRestorePenv, id, EndBlockK(k));
    var saved := JmpBuf(CDoWhileCaught(body), CSetCaught, id, after);
    c.(ctl := Exec(body, id, InsideTry(body, id, k)), penv := At(id),
       locals := c.locals + [Local(c.penv, Some(saved))])
  }

  lemma EnterTry(procs: Procs, c: Config, body: Code, blk: nat, k: Kont)
    requires c.ctl == Exec(CBlock(TryBlock(body)), blk, k)
    ensures Run(procs, c, 10) == Entered(body, c, k)
  {
    hide Step;
    OpenBlock(procs, c, body, blk, k);
    var c5 := Run(procs, c, 5);
    SaveAndSet(procs, c5, body, |c.locals|, EndBlockK(k));
    assert c5.locals[..|c.locals|] == c.locals;
    RunAdd(procs, c, 5, 5);
    assert Run(procs, c, 10).locals == Entered(body, c, k).locals;
  }

  /** The block is opened and the outer pointer saved. */
  lemma OpenBlock(procs: Procs, c: Config, body: Code, blk: nat, k: Kont)
    requires c.ctl == Exec(CBlock(TryBlock(body)), blk, k)
    ensures
      var rest := CSeq(CSetPenv, CSeq(CIfSetjmp(CDoWhileCaught(body), CSetCaught), CRestorePenv));
      Run(procs, c, 5) == c.(ctl := Exec(CSetPenv, |c.locals|, ThenK(rest.c2, |c.locals|, EndBlockK(k))),
                             locals := c.locals + [Local(c.penv, None)])
  {
    var c1 := Step(procs, c);
    assert c1.locals[|c.locals|] == Local(Null, None);
    var c3 := Step(procs, Step(procs, c1));
    assert c3.locals == c.locals + [Local(c.penv, None)];
    assert Run(procs, c, 5) == Run(procs, c1, 4) == Run(procs, c3, 2) == Step(procs, Step(procs, c3));
  }

  /** The context points at the block, `setjmp` saves the continuation and the loop starts. */
  lemma SaveAndSet(procs: Procs, c: Config, body: Code, id: nat, k: Kont)
    requires id < |c.locals|
    requires c.ctl == Exec(CSetPenv, id, ThenK(CSeq(CIfSetjmp(CDoWhileCaught(body), CSetCaught), CRestorePenv), id, k))
    ensures
      var after := ThenK(CRestorePenv, id, k);
      var saved := JmpBuf(CDoWhileCaught(body), CSetCaught, id, after);
      Run(procs, c, 5) == c.(ctl := Exec(body, id, LoopK(body, id, after)), penv := At(id),
                             locals := c.locals[id := c.locals[id].(env := Some(saved))])
  {
    var c3 := Step(procs, Step(procs, Step(procs, c)));
    assert c3.ctl == Exec(CIfSetjmp(CDoWhileCaught(body), CSetCaught), id, ThenK(CRestorePenv, id, k));
    assert c3.locals == c.locals && c3.penv == At(id);
    assert Run(procs, c, 5) == Run(procs, c3, 2) == Step(procs, Step(procs, c3));
  }

  /** A body that completes clears `caught`, restores `penv` and drops the block. */
  lemma LeaveTry(procs: Procs, c: Config, body: Code, end: Config, k: Kont)
    requires end.locals == Entered(body, c, k).locals
    requires end.ctl == Continue(InsideTry(body, |c.locals|, k))
    ensures Run(procs, end, 4) == end.(ctl := Continue(k), penv := c.penv, caught := 0, locals := c.locals)
  {
    var c2 := Step(procs, Step(procs, end));
    var c4 := Step(procs, Step(procs, c2));
    assert c4.locals == c.locals;
    assert Run(procs, end, 4) == Run(procs, c2, 2) == c4;
  }

  /** A body that throws comes back through its own `setjmp`: `caught` is set and `penv` restored. */
  lemma CatchTry(procs: Procs, c: Config, body: Code, end: Config, k: Kont)
    requires end.locals == Entered(body, c, k).locals && end.penv == At(|c.locals|) && end.ctl == Jump
    ensures Run(procs, end, 5) == end.(ctl := Continue(k), penv := c.penv, caught := 1, locals := c.locals)
  {
    var c1 := Step(procs, end);
    assert c1.locals == end.locals;
    var c3 := Step(procs, Step(procs, c1));
    var c5 := Step(procs, Step(procs, c3));
    assert c5.locals == c.locals;
    assert Run(procs, end, 5) == Run(procs, c1, 4) == Run(procs, c3, 2) == c5;
  }

  /** Forward simulation: whatever the context, the expansion of `s` does what `s` means. A handler runs
      exactly when its body threw, with the thrown value; a throw inside it leaves to the outer Try. */
  lemma {:induction false} Simulates(procs: Procs, s: Stmt, fuel: nat, c: Config, blk: nat, k: Kont)
    returns (n: nat, end: Config)
    requires c.ctl == Exec(Expand(s), blk, k) && Eval(procs, s, c.w, fuel) != Timeout
    requires ProperProcs(procs) && Proper(s) && Open(k) <= |c.locals|
    ensures end == Run(procs, c, n) && Finished(Eval(procs, s, c.w, fuel), c, k, end)
    decreases fuel, s
  {
    match s
    case Seq(s1, s2) => n, end := SimulatesSeq(procs, s1, s2, fuel, c, blk, k);
    case If(e, s1, s2) =>
      n, end := Simulates(procs, if Value(e, c.w) != 0 then s1 else s2, fuel, Step(procs, c), blk, k);
      RunAdd(procs, c, 1, n);
      n := 1 + n;
    case Call(p) => n, end := SimulatesCall(procs, p, fuel, c, blk, k);
    case Return =>
      Unwinds(c, k);
      n, end := 1, Step(procs, c);
    case Try(body, into, handler) =>
      n, end := SimulatesTry(procs, body, into, handler, fuel, c, blk, k);
    case _ =>
      n, end := 1, Step(procs, c);
  }

  lemma {:induction false} SimulatesSeq(procs: Procs, s1: Stmt, s2: Stmt, fuel: nat, c: Config, blk: nat, k: Kont)
    returns (n: nat, end: Config)
    requires c.ctl == Exec(Expand(Seq(s1, s2)), blk, k) && Eval(procs, Seq(s1, s2), c.w, fuel) != Timeout
    requires ProperProcs(procs) && Proper(Seq(s1, s2)) && Open(k) <= |c.locals|
    ensures end == Run(procs, c, n) && Finished(Eval(procs, Seq(s1, s2), c.w, fuel), c, k, end)
    decreases fuel, Seq(s1, s2), 0
  {
    hide Run;
    n, end := Simulates(procs, s1, fuel, Step(procs, c), blk, ThenK(Expand(s2), blk, k));
    OneStep(procs, c);
    RunAdd(procs, c, 1, n);
    n := 1 + n;
    if Eval(procs, s1, c.w, fuel).Normal? {
      var c2 := Step(procs, end);
      OneStep(procs, end);
      RunAdd(procs, c, n, 1);
      var m;
      m, end := Simulates(procs, s2, fuel, c2, blk, k);
      RunAdd(procs, c, n + 1, m);
      n := n + 1 + m;
    }
  }

  /** A procedure runs with its caller as continuation; a return in it ends the call. */
  lemma {:induction false} SimulatesCall(procs: Procs, p: nat, fuel: nat, c: Config, blk: nat, k: Kont)
    returns (n: nat, end: Config)
    requires c.ctl == Exec(CCall(p), blk, k) && Eval(procs, Call(p), c.w, fuel) != Timeout
    requires ProperProcs(procs) && Open(k) <= |c.locals|
    ensures end == Run(procs, c, n) && Finished(Eval(procs, Call(p), c.w, fuel), c, k, end)
    decreases fuel, Call(p), 0
  {
    hide Run;
    n, end := Simulates(procs, Body(procs, p), fuel - 1, Step(procs, c), blk, CallK(k));
    OneStep(procs, c);
    RunAdd(procs, c, 1, n);
    n := 1 + n;
    if Eval(procs, Body(procs, p), c.w, fuel - 1).Normal? {
      OneStep(procs, end);
      RunAdd(procs, c, n, 1);
      n, end := n + 1, Step(procs, end);
    }
  }

  lemma OneStep(procs: Procs, c: Config)
    ensures Run(procs, c, 1) == Step(procs, c)
  {
  }

  lemma {:induction false} SimulatesTry(
    procs: Procs, body: Stmt, into: Option<nat>, handler: Stmt, fuel: nat, c: Config, blk: nat, k: Kont)
    returns (n: nat, end: Config)
    requires c.ctl == Exec(Expand(Try(body, into, handler)), blk, k)
    requires Eval(procs, Try(body, into, handler), c.w, fuel) != Timeout
    requires ProperProcs(procs) && Proper(Try(body, into, handler)) && Open(k) <= |c.locals|
    ensures end == Run(procs, c, n) && Finished(Eval(procs, Try(body, into, handler), c.w, fuel), c, k, end)
    decreases fuel, Try(body, into, handler), 2
  {
    NoReturnIsProper(body);
    DoesNotReturn(procs, body, c.w, fuel);
    n, end := SimulatesStaying(procs, body, into, handler, fuel, c, blk, k);
  }

  /** The body runs in its block. */
  lemma {:induction false} SimulatesBody(
    procs: Procs, body: Stmt, into: Option<nat>, handler: Stmt, fuel: nat, c: Config, blk: nat, k: Kont)
    returns (n: nat, end: Config)
    requires c.ctl == Exec(Expand(Try(body, into, handler)), blk, k)
    requires Eval(procs, body, c.w, fuel) != Timeout
    requires ProperProcs(procs) && Proper(body) && Open(k) <= |c.locals|
    ensures
      var code, after := Expand(body), ThenK(CIfCaught(into, Expand(handler)), blk, k);
      var inside := InsideTry(code, |c.locals|, after);
      && Open(inside) == 1 + Open(k) && Caller(inside) == Caller(k)
      && end == Run(procs, c, 11 + n) && Finished(Eval(procs, body, c.w, fuel), Entered(code, c, after), inside, end)
    decreases fuel, Try(body, into, handler), 0
  {
    hide Run, Step;
    var code, h := Expand(body), Expand(handler);
    var after := ThenK(CIfCaught(into, h), blk, k);
    StartTry(procs, c, code, into, h, blk, k);
    OpenInside(code, |c.locals|, after);
    n, end := Simulates(procs, body, fuel, Entered(code, c, after), |c.locals|, InsideTry(code, |c.locals|, after));
    RunAdd(procs, c, 11, n);
  }

  lemma OpenInside(body: Code, id: nat, k: Kont)
    ensures Open(InsideTry(body, id, k)) == 1 + Open(k) && Caller(InsideTry(body, id, k)) == Caller(k)
  {
    assert Open(ThenK(CRestorePenv, id, EndBlockK(k))) == 1 + Open(k);
    assert Caller(ThenK(CRestorePenv, id, EndBlockK(k))) == Caller(k);
  }

  /** A Try whose body does not return on this run does what it means. */
  lemma {:induction false} SimulatesStaying(
    procs: Procs, body: Stmt, into: Option<nat>, handler: Stmt, fuel: nat, c: Config, blk: nat, k: Kont)
    returns (n: nat, end: Config)
    requires c.ctl == Exec(Expand(Try(body, into, handler)), blk, k)
    requires Eval(procs, Try(body, into, handler), c.w, fuel) != Timeout
    requires ProperProcs(procs) && Proper(body) && Proper(handler) && Open(k) <= |c.locals|
    requires !Eval(procs, body, c.w, fuel).Returned?
    ensures end == Run(procs, c, n) && Finished(Eval(procs, Try(body, into, handler), c.w, fuel), c, k, end)
    decreases fuel, Try(body, into, handler), 1
  {
    hide Run, Step;
    var code, h := Expand(body), Expand(handler);
    n, end := SimulatesBody(procs, body, into, handler, fuel, c, blk, k);
    var threw := end.ctl.Jump?;
    var left := EndTry(procs, c, code, end, into, h, blk, k, threw);
    RunAdd(procs, c, 11 + n, if threw then 7 else 6);
    n, end := 11 + n + if threw then 7 else 6, left;
    if threw {
      var m;
      m, end := Simulates(procs, handler, fuel, left, blk, k);
      RunAdd(procs, c, n, m);
      n := n + m;
    }
  }

  lemma StartTry(procs: Procs, c: Config, code: Code, into: Option<nat>, h: Code, blk: nat, k: Kont)
    requires c.ctl == Exec(CSeq(CBlock(TryBlock(code)), CIfCaught(into, h)), blk, k)
    ensures Run(procs, c, 11) == Entered(code, c, ThenK(CIfCaught(into, h), blk, k))
  {
    EnterTry(procs, Step(procs, c), code, blk, ThenK(CIfCaught(into, h), blk, k));
  }

  /** From the end of the body to the start of the handler, or past the statement. */
  lemma EndTry(procs: Procs, c: Config, code: Code, end: Config, into: Option<nat>, h: Code,
               blk: nat, k: Kont, threw: bool)
    returns (left: Config)
    requires end.locals == Entered(code, c, ThenK(CIfCaught(into, h), blk, k)).locals
    requires if threw then end.ctl == Jump && end.penv == At(|c.locals|)
             else end.ctl == Continue(InsideTry(code, |c.locals|, ThenK(CIfCaught(into, h), blk, k)))
    ensures left == Run(procs, end, if threw then 7 else 6)
    ensures left == if threw
                    then end.(ctl := Exec(h, blk, k), penv := c.penv, caught := 1, locals := c.locals,
                              w := if into == None then end.w
                                   else World(end.w.store[into.value := end.etmp], end.w.trace))
                    else end.(ctl := Continue(k), penv := c.penv, caught := 0, locals := c.locals)
  {
    var after := ThenK(CIfCaught(into, h), blk, k);
    if threw {
      CatchTry(procs, c, code, end, after);
    } else {
      LeaveTry(procs, c, code, end, after);
    }
    var n := if threw then 5 else 4;
    var mid := Run(procs, end, n);
    left := Step(procs, Step(procs, mid));
    RunAdd(procs, end, n, 2);
    assert Run(procs, mid, 2) == left;
  }

  /** When the body throws, the machine reaches the handler with `penv` and the blocks of the start, in the
      world of the throw with the thrown value in the variable of the Catch and nothing else changed. */
  lemma HandlerStarts(
    procs: Procs, body: Stmt, into: Option<nat>, handler: Stmt, fuel: nat, c: Config, blk: nat, k: Kont)
    returns (n: nat, start: Config)
    requires c.ctl == Exec(Expand(Try(body, into, handler)), blk, k)
    requires ProperProcs(procs) && Proper(body) && Open(k) <= |c.locals|
    requires Eval(procs, body, c.w, fuel).Thrown?
    ensures start == Run(procs, c, n) && start.ctl == Exec(Expand(handler), blk, k)
    ensures start.penv == c.penv && start.locals == c.locals
    ensures var o := Eval(procs, body, c.w, fuel);
            start.w == if into == None then o.w else World(o.w.store[into.value := o.v], o.w.trace)
  {
    hide Run, Step, Expand, Entered;
    var end;
    n, end := SimulatesBody(procs, body, into, handler, fuel, c, blk, k);
    var after := ThenK(CIfCaught(into, Expand(handler)), blk, k);
    EnteredBlock(Expand(body), c, after, 0);
    start := EndTry(procs, c, Expand(body), end, into, Expand(handler), blk, k, true);
    RunAdd(procs, c, 11 + n, 7);
    n := 18 + n;
  }

  /** A program that emits what it caught, run by the machine from any context. */
  lemma MachineEmitsCaught(procs: Procs, w: World, caught: int, etmp: int) returns (n: nat)
    requires ProperProcs(procs)
    ensures var s := Try(Throw(Const(7)), Some(0), Emit(Var(0)));
            var end := Run(procs, Initial(s, w, caught, etmp), n);
            end.ctl == Continue(Done) && end.w == World(w.store[0 := 7], w.trace + [7])
  {
    hide Run, Initial, Finished;
    var s := Try(Throw(Const(7)), Some(0), Emit(Var(0)));
    assert Eval(procs, s, w, 0) == Normal(World(w.store[0 := 7], w.trace + [7]));
    n := ProgramResult(procs, s, w, caught, etmp, 0);
    FinalNormal(Run(procs, Initial(s, w, caught, etmp), n));
  }

  lemma FinalNormal(c: Config)
    requires Final(c) && c.ctl != Crashed
    ensures c.ctl == Continue(Done)
  {
  }

  // ---------------------------------------------------------------- returns out of a Try clause

  /** The rule on returns is needed on every run: a Try leaves `penv` as it found it, the null or a live
      jump buffer, exactly when its body does not return. When it does, `penv` names the buffer of the
      block that has died with it, and a throw before the next Try crashes. */
  lemma TryReturns(
    procs: Procs, body: Stmt, into: Option<nat>, handler: Stmt, fuel: nat, c: Config, blk: nat, k: Kont)
    returns (n: nat, end: Config)
    requires c.ctl == Exec(Expand(Try(body, into, handler)), blk, k)
    requires Eval(procs, Try(body, into, handler), c.w, fuel) != Timeout
    requires ProperProcs(procs) && Proper(body) && Proper(handler) && Open(k) <= |c.locals|
    requires c.penv.At? ==> c.penv.i < |c.locals|
    ensures end == Run(procs, c, n)
    ensures !Eval(procs, body, c.w, fuel).Returned? ==>
              Finished(Eval(procs, Try(body, into, handler), c.w, fuel), c, k, end)
    ensures Eval(procs, body, c.w, fuel).Returned? ==>
              && end.ctl == Continue(Caller(k)) && end.w == Eval(procs, body, c.w, fuel).w
              && end.penv == At(|c.locals|) && end.locals == Outer(c.locals, k)
              && Step(procs, end.(ctl := Jump)).ctl == Crashed
    ensures end.penv == c.penv <==> !Eval(procs, body, c.w, fuel).Returned?
  {
    hide Run, Expand, Entered;
    if Eval(procs, body, c.w, fuel).Returned? {
      n, end := SimulatesBody(procs, body, into, handler, fuel, c, blk, k);
      n := 11 + n;
      EnteredBlock(Expand(body), c, ThenK(CIfCaught(into, Expand(handler)), blk, k), Open(k));
    } else {
      n, end := SimulatesStaying(procs, body, into, handler, fuel, c, blk, k);
    }
  }

  lemma EnteredBlock(body: Code, c: Config, k: Kont, open: nat)
    requires open <= |c.locals|
    ensures var e := Entered(body, c, k);
            e.penv == At(|c.locals|) && |e.locals| == |c.locals| + 1
            && e.locals[..|e.locals| - (1 + open)] == c.locals[..|c.locals| - open]
  {
  }

  // ---------------------------------------------------------------- termination

  predicate Halts(procs: Procs, c: Config, n: nat) {
    Final(Run(procs, c, n))
  }

  /** A run that halts within `n` steps and passes an unfinished configuration first, halts from there. */
  lemma StillHalts(procs: Procs, c: Config, n: nat, m: nat)
    requires Halts(procs, c, n) && !Final(Run(procs, c, m))
    ensures m < n && Halts(procs, Run(procs, c, m), n - m)
  {
    if n <= m {
      RunAdd(procs, c, n, m - n);
      FinalStays(procs, Run(procs, c, n), m - n);
    } else {
      RunAdd(procs, c, m, n - m);
    }
  }

  lemma {:induction false} HaltsAfterStep(procs: Procs, c: Config, n: nat)
    requires Halts(procs, c, n) && !Final(c)
    ensures n > 0 && Halts(procs, Step(procs, c), n - 1)
  {
  }

  /** Where a statement ends inside a longer halting run: its outcome, and how the run goes on. */
  lemma FinishesInside(procs: Procs, s: Stmt, f: nat, c: Config, blk: nat, k: Kont, n: nat)
    returns (m: nat, end: Config)
    requires c.ctl == Exec(Expand(s), blk, k) && Halts(procs, c, n)
    requires Eval(procs, s, c.w, f) != Timeout && ProperProcs(procs) && Proper(s) && Open(k) <= |c.locals|
    ensures Finished(Eval(procs, s, c.w, f), c, k, end)
    ensures !Final(end) ==> m < n && Halts(procs, end, n - m)
  {
    m, end := Simulates(procs, s, f, c, blk, k);
    if !Final(end) {
      StillHalts(procs, c, n, m);
    }
  }

  /** Backward simulation: if the machine halts from here, the statement has an outcome. */
  lemma {:induction false} Terminates(procs: Procs, s: Stmt, c: Config, blk: nat, k: Kont, n: nat) returns (f: nat)
    requires c.ctl == Exec(Expand(s), blk, k) && Halts(procs, c, n)
    requires ProperProcs(procs) && Proper(s) && Open(k) <= |c.locals|
    ensures Eval(procs, s, c.w, f) != Timeout
    decreases n, s
  {
    hide Run, Halts, Expand;
    f := 0;
    match s
    case Seq(s1, s2) =>
      f := TerminatesSeq(procs, s1, s2, c, blk, k, n);
    case If(e, s1, s2) =>
      HaltsAfterStep(procs, c, n);
      ExpandIf(e, s1, s2);
      f := Terminates(procs, if Value(e, c.w) != 0 then s1 else s2, Step(procs, c), blk, k, n - 1);
    case Call(p) =>
      HaltsAfterStep(procs, c, n);
      ExpandCall(p);
      var g := Terminates(procs, Body(procs, p), Step(procs, c), blk, CallK(k), n - 1);
      f := g + 1;
    case Try(body, into, handler) =>
      f := TerminatesTry(procs, body, into, handler, c, blk, k, n);
    case _ =>
  }

  lemma ExpandIf(e: Expr, s1: Stmt, s2: Stmt)
    ensures Expand(If(e, s1, s2)) == CIf(e, Expand(s1), Expand(s2))
  {
  }

  lemma ExpandTry(body: Stmt, into: Option<nat>, handler: Stmt)
    ensures Expand(Try(body, into, handler))
            == CSeq(CBlock(TryBlock(Expand(body))), CIfCaught(into, Expand(handler)))
  {
  }

  lemma ExpandCall(p: nat)
    ensures Expand(Call(p)) == CCall(p)
  {
  }

  lemma {:induction false} TerminatesSeq(procs: Procs, s1: Stmt, s2: Stmt, c: Config, blk: nat, k: Kont, n: nat)
    returns (f: nat)
    requires c.ctl == Exec(Expand(Seq(s1, s2)), blk, k) && Halts(procs, c, n)
    requires ProperProcs(procs) && Proper(Seq(s1, s2)) && Open(k) <= |c.locals|
    ensures Eval(procs, Seq(s1, s2), c.w, f) != Timeout
    decreases n, Seq(s1, s2), 0
  {
    hide Run, Halts;
    HaltsAfterStep(procs, c, n);
    var c1, k1 := Step(procs, c), ThenK(Expand(s2), blk, k);
    f := Terminates(procs, s1, c1, blk, k1, n - 1);
    var m, end := FinishesInside(procs, s1, f, c1, blk, k1, n - 1);
    if Eval(procs, s1, c.w, f).Normal? {
      HaltsAfterStep(procs, end, n - 1 - m);
      var g := Terminates(procs, s2, Step(procs, end), blk, k, n - 2 - m);
      MoreFuel(procs, s1, c.w, f, f + g);
      MoreFuel(procs, s2, end.w, g, f + g);
      f := f + g;
    }
  }

  lemma {:induction false} TerminatesTry(
    procs: Procs, body: Stmt, into: Option<nat>, handler: Stmt, c: Config, blk: nat, k: Kont, n: nat)
    returns (f: nat)
    requires c.ctl == Exec(Expand(Try(body, into, handler)), blk, k) && Halts(procs, c, n)
    requires ProperProcs(procs) && Proper(Try(body, into, handler)) && Open(k) <= |c.locals|
    ensures Eval(procs, Try(body, into, handler), c.w, f) != Timeout
    decreases n, Try(body, into, handler), 0
  {
    ExpandTry(body, into, handler);
    hide Run, Step, Halts, Expand, TryBlock;
    var code, h := Expand(body), Expand(handler);
    var after := ThenK(CIfCaught(into, h), blk, k);
    var entered := Entered(code, c, after);
    StartTry(procs, c, code, into, h, blk, k);
    StillHalts(procs, c, n, 11);
    var inside := InsideTry(code, |c.locals|, after);
    NoReturnIsProper(body);
    OpenInside(code, |c.locals|, after);
    f := Terminates(procs, body, entered, |c.locals|, inside, n - 11);
    DoesNotReturn(procs, body, c.w, f);
    var m, end := FinishesInside(procs, body, f, entered, |c.locals|, inside, n - 11);
    if end.ctl.Jump? {
      var start := EndTry(procs, c, code, end, into, h, blk, k, true);
      StillHalts(procs, end, n - 11 - m, 7);
      var g := Terminates(procs, handler, start, blk, k, n - 18 - m);
      MoreFuel(procs, body, c.w, f, f + g);
      MoreFuel(procs, handler, start.w, g, f + g);
      f := f + g;
    }
  }

  // ---------------------------------------------------------------- whole programs

  /** After init_exception_context only `penv` is known. */
  function Initial(s: Stmt, w: World, caught: int, etmp: int): Config {
    Config(Exec(Expand(s), 0, Done), Null, caught, etmp, [], w)
  }

  /** A program that completes leaves the context as it found it; an uncaught throw is a jump through a
      null `penv`, with the thrown value still in `etmp`. */
  lemma ProgramResult(procs: Procs, s: Stmt, w: World, caught: int, etmp: int, f: nat) returns (n: nat)
    requires ProperProcs(procs) && Proper(s) && Eval(procs, s, w, f) != Timeout
    ensures
      var end := Run(procs, Initial(s, w, caught, etmp), n);
      && Final(end) && end.penv == Null && end.locals == [] && end.w == Eval(procs, s, w, f).w
      && (end.ctl == Crashed <==> Eval(procs, s, w, f).Thrown?)
      && (Eval(procs, s, w, f).Thrown? ==> end.etmp == Eval(procs, s, w, f).v)
  {
    var c := Initial(s, w, caught, etmp);
    var last;
    n, last := Simulates(procs, s, f, c, 0, Done);
    if last.ctl.Jump? {
      RunAdd(procs, c, n, 1);
      assert Run(procs, last, 1) == Step(procs, last);
      n := n + 1;
    }
  }

  /** A return out of a Try clause breaks the macros: the context still names the dead jump buffer, and
      the next throw crashes instead of reaching its handler. */
  lemma ReturnFromTryClause(w: World)
    ensures
      var procs := map[0 := Try(Return, None, Skip)];
      var s := Try(Seq(Call(0), Throw(Const(1))), None, Emit(Const(7)));
      && Proper(s) && !Proper(procs[0])
      && Eval(procs, s, w, 1) == Normal(w.(trace := w.trace + [7]))
      && Run(procs, Initial(s, w, 0, 0), 28).ctl == Crashed
  {
    hide Run, Initial, Eval;
    ReturnMeans(w);
    ReturnCrashes(map[0 := Try(Return, None, Skip)], w);
  }

  lemma ReturnMeans(w: World)
    ensures
      var procs := map[0 := Try(Return, None, Skip)];
      var s := Try(Seq(Call(0), Throw(Const(1))), None, Emit(Const(7)));
      Eval(procs, s, w, 1) == Normal(w.(trace := w.trace + [7]))
  {
    hide Eval;
    var procs := map[0 := Try(Return, None, Skip)];
    CallReturns(procs, w);
    ThenThrows(procs, w);
    TryMeans(procs, Seq(Call(0), Throw(Const(1))), None, Emit(Const(7)), w, 1);
    EmitMeans(procs, 7, w, 1);
  }

  lemma CallReturns(procs: Procs, w: World)
    requires procs == map[0 := Try(Return, None, Skip)]
    ensures Eval(procs, Call(0), w, 1) == Normal(w)
  {
    assert Eval(procs, Try(Return, None, Skip), w, 0) == Returned(w);
  }

  lemma ThenThrows(procs: Procs, w: World)
    requires Eval(procs, Call(0), w, 1) == Normal(w)
    ensures Eval(procs, Seq(Call(0), Throw(Const(1))), w, 1) == Thrown(w, 1)
  {
    PlainMeans(procs, 0, Const(1), Skip, Skip, w, 1);
  }

  lemma EmitMeans(procs: Procs, v: int, w: World, fuel: nat)
    ensures Eval(procs, Emit(Const(v)), w, fuel) == Normal(w.(trace := w.trace + [v]))
  {
  }

  lemma ReturnCrashes(procs: Procs, w: World)
    requires procs == map[0 := Try(Return, None, Skip)]
    ensures Run(procs, Initial(Try(Seq(Call(0), Throw(Const(1))), None, Emit(Const(7))), w, 0, 0), 28).ctl == Crashed
  {
    hide Run, Entered;
    var body := CSeq(CCall(0), CThrow(Const(1)));
    var c := Initial(Try(Seq(Call(0), Throw(Const(1))), None, Emit(Const(7))), w, 0, 0);
    var after := ThenK(CIfCaught(None, CEmit(Const(7))), 0, Done);
    assert c.ctl == Exec(CSeq(CBlock(TryBlock(body)), CIfCaught(None, CEmit(Const(7)))), 0, Done);
    StartTry(procs, c, body, None, CEmit(Const(7)), 0, Done);
    EnteredCall(procs, c, body, after);
    RunAdd(procs, c, 11, 17);
  }

  lemma EnteredCall(procs: Procs, c: Config, body: Code, after: Kont)
    requires procs == map[0 := Try(Return, None, Skip)] && body == CSeq(CCall(0), CThrow(Const(1))) && c.locals == []
    ensures Run(procs, Entered(body, c, after), 17).ctl == Crashed
  {
    hide Run;
    var c1, k := Entered(body, c, after), ThenK(CThrow(Const(1)), 0, InsideTry(body, 0, after));
    var c2 := Step(procs, c1);
    var c3 := Step(procs, c2);
    assert c3.ctl == Exec(CSeq(CBlock(TryBlock(CReturn)), CIfCaught(None, CSkip)), 0, CallK(k));
    OneStep(procs, c1);
    OneStep(procs, c2);
    RunAdd(procs, c1, 1, 1);
    RunAdd(procs, c1, 2, 15);
    StartTry(procs, c3, CReturn, None, CSkip, 0, CallK(k));
    ReturnedFrom(procs, Run(procs, c3, 11), k);
    RunAdd(procs, c3, 11, 4);
  }

  lemma ReturnedFrom(procs: Procs, c: Config, k: Kont)
    requires k.ThenK? && k.c.CThrow? && |c.locals| == 2 && c.penv == At(1)
    requires c.ctl == Exec(CReturn, 1, InsideTry(CReturn, 1, ThenK(CIfCaught(None, CSkip), 0, CallK(k))))
    ensures Run(procs, c, 4).ctl == Crashed
  {
    var left := c.(locals := c.locals[..1]);
    var after := ThenK(CIfCaught(None, CSkip), 0, CallK(k));
    assert Unwind(left, after) == left.(ctl := Continue(k));
    assert Unwind(c, EndBlockK(after)) == Unwind(left, after);
    assert Unwind(c, InsideTry(CReturn, 1, after)) == Unwind(c, EndBlockK(after));
    var c1 := Step(procs, c);
    assert c1 == left.(ctl := Continue(k));
    var c3 := Step(procs, Step(procs, c1));
    assert c3.ctl == Jump;
    assert Run(procs, c, 4) == Run(procs, c3, 1) == Step(procs, c3);
  }

  /** The machine halts on exactly the programs that have an outcome. */
  lemma ProgramHalts(procs: Procs, s: Stmt, w: World, caught: int, etmp: int)
    requires ProperProcs(procs) && Proper(s)
    ensures (exists n :: Halts(procs, Initial(s, w, caught, etmp), n))
            <==> (exists f: nat :: Eval(procs, s, w, f) != Timeout)
  {
    if n :| Halts(procs, Initial(s, w, caught, etmp), n) {
      var f := Terminates(procs, s, Initial(s, w, caught, etmp), 0, Done, n);
    }
    if f: nat :| Eval(procs, s, w, f) != Timeout {
      var n := ProgramResult(procs, s, w, caught, etmp, f);
      assert Halts(procs, Initial(s, w, caught, etmp), n);
    }
  }
}
