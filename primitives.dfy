/** The primitive procedures and the global environment they live in. */
module Primitives {
  import opened Wrappers
  import opened Syntax
  import opened Values
  import opened Environment

  /** The number of arguments a primitive's Ruby lambda accepts; `list`
      takes any number. */
  function FixedArity(op: PrimOp): Option<nat>
  {
    match op
    case IsNull => Some(1)
    case Car => Some(1)
    case Cdr => Some(1)
    case ListOf => None
    case _ => Some(2)
  }

  /** Invoke a primitive on evaluated arguments (`apply_primitive_fun`).
      Numbers are unbounded integers; where Ruby would apply an operator to
      something other than the numbers or lists the primitive is meant for,
      the model reports a type mismatch. */
  function ApplyPrim(op: PrimOp, args: seq<Value>): (r: Outcome<Value>)
    ensures r == Err(Arity(op, |args|)) <==> FixedArity(op).Some? && |args| != FixedArity(op).value
    ensures op == Cons && |args| == 2 ==>
      (r == Err(ConsNotList) <==> !args[1].List?) &&
      (r.Ok? <==> args[1].List?) &&
      (r.Ok? ==> r.value == Value.List([args[0]] + args[1].items))
    ensures op == ListOf ==> r == Ok(Value.List(args))
    ensures op == NumEq && |args| == 2 ==> r == Ok(Bool(args[0] == args[1]))
    ensures op == IsNull && |args| == 1 ==> r == Ok(Bool(args[0] == Value.List([])))
  {
    if FixedArity(op).Some? && |args| != FixedArity(op).value then Err(Arity(op, |args|))
    else
      match op
      case ListOf => Ok(Value.List(args))
      case IsNull => Ok(Bool(args[0] == Value.List([])))
      case Car =>
        (match args[0]
         case List(xs) => if |xs| == 0 then Ok(Value.Nil) else Ok(xs[0])
         case _ => Err(TypeMismatch(op)))
      case Cdr =>
        (match args[0]
         case List(xs) => if |xs| == 0 then Ok(Value.Nil) else Ok(Value.List(xs[1..]))
         case _ => Err(TypeMismatch(op)))
      case Cons =>
        (match args[1]
         case List(xs) => Ok(Value.List([args[0]] + xs))
         case _ => Err(ConsNotList))
      case NumEq => Ok(Bool(args[0] == args[1]))
      case _ =>
        if args[0].Num? && args[1].Num? then Ok(Arith(op, args[0].n, args[1].n))
        else Err(TypeMismatch(op))
  }

  /** The arithmetic and comparison primitives on two numbers. */
  function Arith(op: PrimOp, x: int, y: int): Value
  {
    match op
    case Add => Value.Num(x + y)
    case Sub => Value.Num(x - y)
    case Mul => Value.Num(x * y)
    case Gt => Bool(x > y)
    case Ge => Bool(x >= y)
    case Lt => Bool(x < y)
    case Le => Bool(x <= y)
    case _ => Bool(x == y)
  }

  /** `$list_env`: `nil` is the empty list. */
  function ListFrame(): Frame
  {
    map[Expr.Sym("nil") := Value.List([]),
        Expr.Sym("null?") := Prim(IsNull),
        Expr.Sym("cons") := Prim(Cons),
        Expr.Sym("car") := Prim(Car),
        Expr.Sym("cdr") := Prim(Cdr),
        Expr.Sym("list") := Prim(ListOf)]
  }

  /** `$primitive_fun_env`. */
  function PrimFrame(): Frame
  {
    map[Expr.Sym("+") := Prim(Add),
        Expr.Sym("-") := Prim(Sub),
        Expr.Sym("*") := Prim(Mul),
        Expr.Sym(">") := Prim(Gt),
        Expr.Sym(">=") := Prim(Ge),
        Expr.Sym("<") := Prim(Lt),
        Expr.Sym("<=") := Prim(Le),
        Expr.Sym("==") := Prim(NumEq)]
  }

  /** `$boolean_env`. */
  function BoolFrame(): Frame
  {
    map[Expr.Sym("true") := Bool(true), Expr.Sym("false") := Bool(false)]
  }

  /** The global environment is array 0. */
  const GlobalEnv: EnvRef := 0

  /** `$global_env = [$list_env, $primitive_fun_env, $boolean_env]`: three
      frames, searched in that order. */
  function GlobalStore(): (st: Store)
    ensures WellFormed(st)
    ensures EnvFrames(st, GlobalEnv) == [0, 1, 2]
  {
    Store([ListFrame(), PrimFrame(), BoolFrame()], [[0, 1, 2]])
  }
}
