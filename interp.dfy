/** The eval/apply engine (`_eval` and the functions it dispatches to), for
    both variants of the source: `Dialect` says which special forms exist.

    Every function takes the store and returns the store as it is afterwards,
    also when evaluation fails: mutations committed before an error remain,
    as in Ruby.  `fuel` bounds the depth of nested `_eval` calls, standing in
    for the host stack; every call of `Eval` uses one unit. */
module Interp {
  import opened Wrappers
  import opened Syntax
  import opened Values
  import opened Environment
  import opened Primitives

  type Result = (Outcome<Value>, Store)

  /** `_eval`: a number evaluates to itself, any other atom is looked up as a
      variable, a list headed by an enabled keyword is a special form, and
      any other list is an application. */
  function Eval(d: Dialect, e: Expr, env: EnvRef, st: Store, fuel: nat): (r: Result)
    decreases fuel, 0
  {
    if fuel == 0 then (OutOfFuel, st)
    else
      match e
      case Num(n) => (Ok(Value.Num(n)), st)
      case List(es) =>
        (match FormOf(d, es)
         case Some(k) => EvalForm(d, k, es, env, st, fuel - 1)
         case None => EvalApplication(d, es, env, st, fuel - 1))
      case _ => (Lookup(e, env, st), st)
  }

  /** `lookup_var` as an outcome. */
  function Lookup(x: Expr, env: EnvRef, st: Store): Outcome<Value>
  {
    match LookupVar(x, env, st)
    case Some(v) => Ok(v)
    case None => Err(Unbound(x))
  }

  /** `eval_special_form`. */
  function EvalForm(d: Dialect, k: Form, es: seq<Expr>, env: EnvRef, st: Store, fuel: nat): (r: Result)
    requires FormOf(d, es) == Some(k)
    decreases fuel, 3
  {
    match k
    case Lambda =>
      // make_closure: the parameters, the body and the current array itself
      (Ok(Closure(At(es, 1), At(es, 2), env)), st)
    case Let =>
      (match LetParts(es)
       case None => (Err(Malformed), st)
       case Some((ps, inits, body)) => Eval(d, LetApplication(ps, inits, body), env, st, fuel))
    case Letrec => EvalLetrec(d, es, env, st, fuel)
    case If => EvalIf(d, At(es, 1), At(es, 2), At(es, 3), env, st, fuel)
    case Cond =>
      (match CondToIf(es[1..])
       case None => (Err(Malformed), st)
       case Some(ifExp) =>
         // eval_cond hands the rewritten form to eval_if directly
         var (c, t, f) := IfParts(ifExp);
         EvalIf(d, c, t, f, env, st, fuel))
    case Define => EvalDefine(d, es, env, st, fuel)
    case Quote => (Ok(Datum(At(es, 1))), st)
  }

  /** `eval_if`: the test once, then exactly one branch. */
  function EvalIf(d: Dialect, c: Expr, t: Expr, f: Expr, env: EnvRef, st: Store, fuel: nat): (r: Result)
    decreases fuel, 1
  {
    var (cv, st1) := Eval(d, c, env, st, fuel);
    if !cv.Ok? then (cv, st1)
    else
      if Truthy(cv.value) then Eval(d, t, env, st1, fuel) else Eval(d, f, env, st1, fuel)
  }

  /** `eval_letrec`: bind every name to `:dummy` in one fresh frame in front
      of the environment, evaluate the initialisers there, store their values
      into `ext_env[0]` in place, and evaluate the let-application of the
      form in the fixed-up environment (which evaluates the initialisers a
      second time). */
  function EvalLetrec(d: Dialect, es: seq<Expr>, env: EnvRef, st: Store, fuel: nat): (r: Result)
    decreases fuel, 2
  {
    match LetParts(es)
    case None => (Err(Malformed), st)
    case Some((ps, inits, body)) =>
      var (ext, st1) := ExtendEnvFrame(st, Placeholders(ps), env);
      var (vals, st2) := EvalList(d, inits, ext, st1, fuel);
      if !vals.Ok? then (vals.Forward(), st2)
      else
        var st3 := SetExtendEnv(st2, ps, vals.value, ext);
        Eval(d, LetApplication(ps, inits, body), ext, st3, fuel)
  }

  /** `eval_define`: find the frame binding the name first, then evaluate the
      value; overwrite the entry in that frame, or else unshift a new
      one-binding frame onto the same array.  The result is nil. */
  function EvalDefine(d: Dialect, es: seq<Expr>, env: EnvRef, st: Store, fuel: nat): (r: Result)
    decreases fuel, 1
  {
    var (name, valExp) := DefineParts(es);
    var ref := LookupVarRef(name, env, st);
    var (v, st1) := Eval(d, valExp, env, st, fuel);
    if !v.Ok? then (v, st1)
    else
      var st2 := if ref.Some? then WriteFrame(st1, ref.value, name, v.value)
                 else UnshiftFrame(st1, map[name := v.value], env);
      (Ok(Value.Nil), st2)
  }

  /** The application branch of `_eval`: the head first, then the arguments
      (`cdr(exp)`, which is nil for the empty list), then `apply`. */
  function EvalApplication(d: Dialect, es: seq<Expr>, env: EnvRef, st: Store, fuel: nat): (r: Result)
    decreases fuel, 2
  {
    var (fv, st1) := Eval(d, At(es, 0), env, st, fuel);
    if !fv.Ok? then (fv, st1)
    else if |es| == 0 then (Err(Malformed), st1)
    else
      var (args, st2) := EvalList(d, es[1..], env, st1, fuel);
      if !args.Ok? then (args.Forward(), st2)
      else
        Apply(d, fv.value, args.value, st2, fuel)
  }

  /** `eval_list`: each expression in turn, left to right, each one seeing
      the store the previous one left. */
  function EvalList(d: Dialect, es: seq<Expr>, env: EnvRef, st: Store, fuel: nat): (r: (Outcome<seq<Value>>, Store))
    ensures r.0.Ok? ==> |r.0.value| == |es|
    decreases fuel, 1, |es|
  {
    if |es| == 0 then (Ok([]), st)
    else
      var (v, st1) := Eval(d, es[0], env, st, fuel);
      if !v.Ok? then (v.Forward(), st1)
      else
        var (vs, st2) := EvalList(d, es[1..], env, st1, fuel);
        if !vs.Ok? then (vs, st2) else (Ok([v.value] + vs.value), st2)
  }

  /** `apply`: a primitive is invoked on the arguments; a closure's captured
      array is extended by a fresh frame pairing its parameters with the
      arguments, and its body is evaluated there.  Anything else is not a
      function. */
  function Apply(d: Dialect, fv: Value, args: seq<Value>, st: Store, fuel: nat): (r: Result)
    decreases fuel, 1
  {
    match fv
    case Prim(op) => (ApplyPrim(op, args), st)
    case Closure(params, body, cenv) =>
      (match params
       case List(ps) =>
         var (ne, st1) := ExtendEnv(st, ps, args, cenv);
         Eval(d, body, ne, st1, fuel)
       case _ => (Err(Malformed), st))
    case _ => (Err(NotAFunction(fv)), st)
  }
}
