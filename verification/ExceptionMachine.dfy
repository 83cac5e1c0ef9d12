// The macros of eloop/cexcept.h expanded, and a machine with saved continuations that runs the result.
module ExceptionMachine {
  import opened Bytes
  import opened Exceptions

  /** C statements after preprocessing. Each macro part is one form, in the order it is written. */
  datatype Code =
    | CSkip
    | CEmit(e: Expr)
    | CAssign(x: nat, e: Expr)
    | CSeq(c1: Code, c2: Code)
    | CIf(e: Expr, c1: Code, c2: Code)
    | CCall(p: nat)
    | CReturn
    | CBlock(c: Code)                       // a block with two locals: the outer context pointer, a jump buffer
    | CSavePenv                             // remember the context pointer in the block
    | CSetPenv                              // point the context at the block's jump buffer
    | CIfSetjmp(c1: Code, c2: Code)         // the first time c1; on a return by a jump c2
    | CDoWhileCaught(c: Code)               // c once: the loop condition clears the flag and is then false
    | CSetCaught                            // note that control came back by a jump
    | CRestorePenv                          // point the context back at the outer jump buffer
    | CIfCaught(into: Option<nat>, c: Code) // when flagged, assign the exception and run c
    | CThrow(e: Expr)                       // store the exception, then jump, for ever

  /** The macro expansion. */
  function Expand(s: Stmt): Code {
    match s
    case Skip => CSkip
    case Emit(e) => CEmit(e)
    case Assign(x, e) => CAssign(x, e)
    case Seq(s1, s2) => CSeq(Expand(s1), Expand(s2))
    case If(e, s1, s2) => CIf(e, Expand(s1), Expand(s2))
    case Call(p) => CCall(p)
    case Return => CReturn
    case Throw(e) => CThrow(e)
    case Try(body, x, handler) => CSeq(CBlock(TryBlock(Expand(body))), CIfCaught(x, Expand(handler)))
  }

  function TryBlock(body: Code): Code {
    CSeq(CSavePenv, CSeq(CSetPenv, CSeq(CIfSetjmp(CDoWhileCaught(body), CSetCaught), CRestorePenv)))
  }

  /** The rest of the computation. `blk` is the block whose locals the waiting code names. */
  datatype Kont =
    | Done
    | ThenK(c: Code, blk: nat, k: Kont)     // execute c next
    | LoopK(c: Code, blk: nat, k: Kont)     // evaluate the condition of a do-while around c
    | EndBlockK(k: Kont)                    // leave a block: its locals die
    | CallK(k: Kont)                        // leave a procedure

  /** What setjmp saves: the `if` whose condition it is evaluating, and everything after it. */
  datatype JmpBuf = JmpBuf(c1: Code, c2: Code, blk: nat, k: Kont)

  datatype Ptr = Null | At(i: nat)

  /** The two variables of a Try block. */
  datatype Local = Local(prev: Ptr, env: Option<JmpBuf>)

  datatype Control = Exec(c: Code, blk: nat, k: Kont) | Continue(k: Kont) | Jump | Crashed

  /** `penv`, `caught` and `etmp` are the exception context; `locals` is the stack of live blocks. */
  datatype Config = Config(ctl: Control, penv: Ptr, caught: int, etmp: int, locals: seq<Local>, w: World)

  predicate Final(c: Config) {
    c.ctl == Continue(Done) || c.ctl == Crashed
  }

  function Step(procs: Procs, c: Config): Config {
    match c.ctl
    case Crashed => c
    case Jump =>
      // longjmp(*penv, 1): a null or dead jmp_buf is fatal; otherwise setjmp returns again, with 1
      if c.penv.At? && c.penv.i < |c.locals| && c.locals[c.penv.i].env.Some? then
        var j := c.locals[c.penv.i].env.value;
        c.(ctl := Exec(j.c2, j.blk, j.k), locals := c.locals[..c.penv.i + 1])
      else c.(ctl := Crashed)
    case Continue(k) =>
      (match k
       case Done => c
       case CallK(k') => c.(ctl := Continue(k'))
       case ThenK(code, blk, k') => c.(ctl := Exec(code, blk, k'))
       case LoopK(code, blk, k') =>
         var c' := c.(caught := 0);
         if c'.caught != 0 then c'.(ctl := Exec(code, blk, k)) else c'.(ctl := Continue(k'))
       case EndBlockK(k') =>
         if c.locals == [] then c.(ctl := Crashed)
         else c.(ctl := Continue(k'), locals := c.locals[..|c.locals| - 1]))
    case Exec(code, blk, k) => StepCode(procs, c, code, blk, k)
  }

  /** A `return`: the blocks that it leaves die, without running what is left of them. */
  function Unwind(c: Config, k: Kont): Config
    decreases k
  {
    match k
    case Done => c.(ctl := Continue(Done))
    case CallK(k') => c.(ctl := Continue(k'))
    case ThenK(code, blk, k') => Unwind(c, k')
    case LoopK(code, blk, k') => Unwind(c, k')
    case EndBlockK(k') =>
      if c.locals == [] then c.(ctl := Crashed) else Unwind(c.(locals := c.locals[..|c.locals| - 1]), k')
  }

  function StepCode(procs: Procs, c: Config, code: Code, blk: nat, k: Kont): Config {
    match code
    case CSkip => c.(ctl := Continue(k))
    case CEmit(e) => c.(ctl := Continue(k), w := c.w.(trace := c.w.trace + [Value(e, c.w)]))
    case CAssign(x, e) => c.(ctl := Continue(k), w := Update(c.w, x, Value(e, c.w)))
    case CSeq(c1, c2) => c.(ctl := Exec(c1, blk, ThenK(c2, blk, k)))
    case CIf(e, c1, c2) => c.(ctl := Exec(if Value(e, c.w) != 0 then c1 else c2, blk, k))
    case CCall(p) => c.(ctl := Exec(Expand(Body(procs, p)), blk, CallK(k)))
    case CReturn => Unwind(c, k)
    case CBlock(c1) => c.(ctl := Exec(c1, |c.locals|, EndBlockK(k)), locals := c.locals + [Local(Null, None)])
    case CSetPenv => c.(ctl := Continue(k), penv := At(blk))
    case CDoWhileCaught(c1) => c.(ctl := Exec(c1, blk, LoopK(c1, blk, k)))
    case CSetCaught => c.(ctl := Continue(k), caught := 1)
    case CIfCaught(x, c1) =>
      if c.caught == 0 then c.(ctl := Continue(k)) else c.(ctl := Exec(c1, blk, k), w := Bind(c.w, x, c.etmp))
    case CThrow(e) => c.(ctl := Jump, etmp := Value(e, c.w))
    case _ => if blk < |c.locals| then StepLocal(c, code, blk, k) else c.(ctl := Crashed)
  }

  /** The statements that use the variables of their block. */
  function StepLocal(c: Config, code: Code, blk: nat, k: Kont): Config
    requires blk < |c.locals|
  {
    var l := c.locals[blk];
    match code
    case CSavePenv => c.(ctl := Continue(k), locals := c.locals[blk := l.(prev := c.penv)])
    case CIfSetjmp(c1, c2) =>
      c.(ctl := Exec(c1, blk, k), locals := c.locals[blk := l.(env := Some(JmpBuf(c1, c2, blk, k)))])
    case CRestorePenv => c.(ctl := Continue(k), penv := l.prev)
    case _ => c.(ctl := Crashed)
  }

  function Run(procs: Procs, c: Config, n: nat): Config
    decreases n
  {
    if n == 0 then c else Run(procs, Step(procs, c), n - 1)
  }

  lemma {:induction false} RunAdd(procs: Procs, c: Config, m: nat, n: nat)
    ensures Run(procs, c, m + n) == Run(procs, Run(procs, c, m), n)
    decreases m
  {
    if m > 0 {
      RunAdd(procs, Step(procs, c), m - 1, n);
    }
  }

  /** A final configuration is not left. */
  lemma {:induction false} FinalStays(procs: Procs, c: Config, n: nat)
    requires Final(c)
    ensures Run(procs, c, n) == c
    decreases n
  {
    if n > 0 {
      FinalStays(procs, c, n - 1);
    }
  }
}
