// Structured exceptions: a small language with Try/Catch/Throw and `return`, and its big-step meaning.
// This is what the documentation of eloop/cexcept.h promises, without contexts or jumps.
module Exceptions {
  import opened Bytes

  datatype Expr = Const(n: int) | Var(x: nat) | Add(e1: Expr, e2: Expr)

  datatype Stmt =
    | Skip
    | Emit(e: Expr)
    | Assign(x: nat, e: Expr)
    | Seq(s1: Stmt, s2: Stmt)
    | If(e: Expr, s1: Stmt, s2: Stmt)
    | Call(p: nat)
    | Return
    | Throw(e: Expr)
    | Try(body: Stmt, into: Option<nat>, handler: Stmt)

  /** The procedures of a program; calling an undefined one does nothing. */
  type Procs = map<nat, Stmt>

  function Body(procs: Procs, p: nat): Stmt {
    if p in procs then procs[p] else Skip
  }

  /** Variables (of static storage, so that jumps keep them) and the values emitted so far. */
  datatype World = World(store: map<nat, int>, trace: seq<int>)

  function Value(e: Expr, w: World): int {
    match e
    case Const(n) => n
    case Var(x) => if x in w.store then w.store[x] else 0
    case Add(e1, e2) => Value(e1, w) + Value(e2, w)
  }

  function Update(w: World, x: nat, v: int): World {
    w.(store := w.store[x := v])
  }

  /** Catch (x) assigns the exception to x; Catch_anonymous does not. */
  function Bind(w: World, x: Option<nat>, v: int): World {
    if x.Some? then Update(w, x.value, v) else w
  }

  /** `Returned` is on its way out of the running procedure. */
  datatype Outcome = Normal(w: World) | Returned(w: World) | Thrown(w: World, v: int) | Timeout

  function CallEnds(o: Outcome): Outcome {
    if o.Returned? then Normal(o.w) else o
  }

  /** Big-step execution with at most `fuel` nested calls. */
  function Eval(procs: Procs, s: Stmt, w: World, fuel: nat): Outcome
    decreases fuel, s
  {
    match s
    case Skip => Normal(w)
    case Emit(e) => Normal(w.(trace := w.trace + [Value(e, w)]))
    case Assign(x, e) => Normal(Update(w, x, Value(e, w)))
    case Seq(s1, s2) =>
      var o := Eval(procs, s1, w, fuel);
      if o.Normal? then Eval(procs, s2, o.w, fuel) else o
    case If(e, s1, s2) => if Value(e, w) != 0 then Eval(procs, s1, w, fuel) else Eval(procs, s2, w, fuel)
    case Call(p) => if fuel == 0 then Timeout else CallEnds(Eval(procs, Body(procs, p), w, fuel - 1))
    case Return => Returned(w)
    case Throw(e) => Thrown(w, Value(e, w))
    case Try(body, x, handler) =>
      var o := Eval(procs, body, w, fuel);
      if o.Thrown? then Eval(procs, handler, Bind(o.w, x, o.v), fuel) else o
  }

  /** The plain statements. */
  lemma PlainMeans(procs: Procs, x: nat, e: Expr, s1: Stmt, s2: Stmt, w: World, fuel: nat)
    ensures Eval(procs, Assign(x, e), w, fuel) == Normal(World(w.store[x := Value(e, w)], w.trace))
    ensures Eval(procs, If(e, s1, s2), w, fuel) == Eval(procs, if Value(e, w) == 0 then s2 else s1, w, fuel)
    ensures Eval(procs, Throw(e), w, fuel) == Thrown(w, Value(e, w))
    ensures Value(Var(x), w) == if x in w.store then w.store[x] else 0
  {
  }

  /** A Try by the outcome of its body: an exception reaches the handler, which starts in the world of the
      throw with the value in its variable and nothing else changed; any other outcome is that of the Try. */
  lemma TryMeans(procs: Procs, body: Stmt, into: Option<nat>, handler: Stmt, w: World, fuel: nat)
    ensures var o, result := Eval(procs, body, w, fuel), Eval(procs, Try(body, into, handler), w, fuel);
            && (!o.Thrown? ==> result == o)
            && (o.Thrown? && into == None ==> result == Eval(procs, handler, o.w, fuel))
            && (o.Thrown? && into.Some? ==>
                  result == Eval(procs, handler, World(o.w.store[into.value := o.v], o.w.trace), fuel))
  {
  }

  /** A caught value can be used: the handler emits one more than what was thrown. */
  lemma CaughtIsEmitted(procs: Procs, x: nat, v: int, w: World, fuel: nat)
    ensures Eval(procs, Try(Throw(Const(v)), Some(x), Emit(Add(Var(x), Const(1)))), w, fuel)
            == Normal(World(w.store[x := v], w.trace + [v + 1]))
  {
    assert Eval(procs, Throw(Const(v)), w, fuel) == Thrown(w, v);
    assert Value(Add(Var(x), Const(1)), World(w.store[x := v], w.trace)) == v + 1;
  }

  /** Fuel only decides whether the outcome is found. */
  lemma {:induction false} MoreFuel(procs: Procs, s: Stmt, w: World, f: nat, g: nat)
    requires f <= g && Eval(procs, s, w, f) != Timeout
    ensures Eval(procs, s, w, g) == Eval(procs, s, w, f)
    decreases f, s
  {
    match s
    case Seq(s1, s2) =>
      MoreFuel(procs, s1, w, f, g);
      var o := Eval(procs, s1, w, f);
      if o.Normal? {
        MoreFuel(procs, s2, o.w, f, g);
      }
    case If(e, s1, s2) => MoreFuel(procs, if Value(e, w) != 0 then s1 else s2, w, f, g);
    case Call(p) => MoreFuel(procs, Body(procs, p), w, f - 1, g - 1);
    case Try(body, x, handler) =>
      MoreFuel(procs, body, w, f, g);
      var o := Eval(procs, body, w, f);
      if o.Thrown? {
        MoreFuel(procs, handler, Bind(o.w, x, o.v), f, g);
      }
    case _ =>
  }

  // ---------------------------------------------------------------- where a return may stand

  predicate NoReturn(s: Stmt) {
    match s
    case Seq(s1, s2) => NoReturn(s1) && NoReturn(s2)
    case If(e, s1, s2) => NoReturn(s1) && NoReturn(s2)
    case Try(body, x, handler) => NoReturn(body) && NoReturn(handler)
    case Return => false
    case _ => true
  }

  /** The rule of the documentation: no jump out of a Try clause, but any out of a Catch clause. */
  predicate Proper(s: Stmt) {
    match s
    case Seq(s1, s2) => Proper(s1) && Proper(s2)
    case If(e, s1, s2) => Proper(s1) && Proper(s2)
    case Try(body, x, handler) => NoReturn(body) && Proper(handler)
    case _ => true
  }

  ghost predicate ProperProcs(procs: Procs) {
    forall p :: p in procs ==> Proper(procs[p])
  }

  lemma {:induction false} NoReturnIsProper(s: Stmt)
    requires NoReturn(s)
    ensures Proper(s)
  {
    match s
    case Seq(s1, s2) =>
      NoReturnIsProper(s1);
      NoReturnIsProper(s2);
    case If(e, s1, s2) =>
      NoReturnIsProper(s1);
      NoReturnIsProper(s2);
    case Try(body, x, handler) => NoReturnIsProper(handler);
    case _ =>
  }

  /** Without a return of its own a statement does not leave its procedure. */
  lemma {:induction false} DoesNotReturn(procs: Procs, s: Stmt, w: World, fuel: nat)
    requires NoReturn(s)
    ensures !Eval(procs, s, w, fuel).Returned?
    decreases s
  {
    match s
    case Seq(s1, s2) =>
      DoesNotReturn(procs, s1, w, fuel);
      var o := Eval(procs, s1, w, fuel);
      if o.Normal? {
        DoesNotReturn(procs, s2, o.w, fuel);
      }
    case If(e, s1, s2) => DoesNotReturn(procs, if Value(e, w) != 0 then s1 else s2, w, fuel);
    case Try(body, x, handler) =>
      DoesNotReturn(procs, body, w, fuel);
      var o := Eval(procs, body, w, fuel);
      if o.Thrown? {
        DoesNotReturn(procs, handler, Bind(o.w, x, o.v), fuel);
      }
    case _ =>
  }
}
