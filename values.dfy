/** Run-time values, errors and outcomes of evaluation. */
module Values {
  import opened Wrappers
  import opened Syntax

  /** A reference to an environment array.  It is the identity of a Ruby
      array of frames, not a copy of its contents: see module Environment. */
  type EnvRef = nat

  /** The primitives of the global environment (u_scheme_r.rb:90-99 and 297-304). */
  datatype PrimOp =
    | Add | Sub | Mul | Gt | Ge | Lt | Le | NumEq
    | IsNull | Cons | Car | Cdr | ListOf

  /** A value.  In Ruby values and expressions live in one universe; here
      quoted data become values through `Datum`.  `Nil` is Ruby's nil (what
      `define` returns), which is not the empty list `List([])` that the
      variable `nil` is bound to.  A closure keeps its parameter list and
      body as expressions and the environment it captured by reference. */
  datatype Value =
    | Num(n: int)
    | Sym(name: string)
    | Str(s: string)
    | Bool(b: bool)
    | Nil
    | List(items: seq<Value>)
    | Prim(op: PrimOp)
    | Closure(params: Expr, body: Expr, env: EnvRef)

  /** Why an evaluation stopped.  `Malformed` stands for the host error Ruby
      raises when it cannot take a special form or a closure apart (calling
      `map`, `zip` or `[]` on something that is not an array). */
  datatype Error =
    | Unbound(name: Expr)
    | NotAFunction(callee: Value)
    | Malformed
    | Arity(op: PrimOp, given: nat)
    | TypeMismatch(op: PrimOp)
    | ConsNotList

  /** The outcome of an evaluation: a result, an error, or the end of the
      fuel that stands in for the host's stack. */
  datatype Outcome<+T> = Ok(value: T) | Err(error: Error) | OutOfFuel
  {
    /** The same failure at another result type. */
    function Forward<U>(): Outcome<U>
      requires !Ok?
    {
      if Err? then Err(error) else OutOfFuel
    }
  }

  /** Ruby's truth: only false and nil are false. */
  predicate Truthy(v: Value)
  {
    v != Bool(false) && v != Value.Nil
  }

  /** A quoted expression as a value; in Ruby it is the very same object. */
  function Datum(e: Expr): Value
  {
    match e
    case Num(n) => Value.Num(n)
    case Sym(x) => Value.Sym(x)
    case Str(s) => Value.Str(s)
    case Nil => Value.Nil
    case List(es) => Value.List(seq(|es|, i requires 0 <= i < |es| => Datum(es[i])))
  }

  /** The expression a data value stands for; closures, primitives and
      booleans are not expressions. */
  function AsExpr(v: Value): Option<Expr>
  {
    match v
    case Num(n) => Some(Expr.Num(n))
    case Sym(x) => Some(Expr.Sym(x))
    case Str(s) => Some(Expr.Str(s))
    case Nil => Some(Expr.Nil)
    case List(vs) =>
      var parts := seq(|vs|, i requires 0 <= i < |vs| => AsExpr(vs[i]));
      if forall i :: 0 <= i < |parts| ==> parts[i].Some? then
        Some(Expr.List(seq(|parts|, i requires 0 <= i < |parts| && parts[i].Some? => parts[i].value)))
      else None
    case _ => None
  }

  /** Quoting loses nothing: the value `quote` returns is its argument. */
  lemma {:induction false} DatumIsExpr(e: Expr)
    ensures AsExpr(Datum(e)) == Some(e)
  {
    match e
    case List(es) =>
      forall i | 0 <= i < |es| ensures AsExpr(Datum(es[i])) == Some(es[i]) {
        DatumIsExpr(es[i]);
      }
      var vs := Datum(e).items;
      var parts := seq(|vs|, i requires 0 <= i < |vs| => AsExpr(vs[i]));
      assert forall i :: 0 <= i < |parts| ==> parts[i] == Some(es[i]);
      var back := seq(|parts|, i requires 0 <= i < |parts| && parts[i].Some? => parts[i].value);
      assert back == es;
    case _ =>
  }
}
