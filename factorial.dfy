/** The program at the end of `schemer.rb`; both dialects evaluate it:

      (letrec ((fact (lambda (n) (if (< n 1) 1 (* n (fact (- n 1)))))))
        (fact 5))

    evaluated in the global environment.  The recursive lambda reaches
    itself only through the letrec frame its closure captured, so this is
    the end-to-end check of the placeholder, the in-place fix-up and the
    re-evaluation. */
module Factorial {
  import opened Wrappers
  import opened Syntax
  import opened Values
  import opened Environment
  import opened Primitives
  import opened Interp
  import opened Properties

  function Fact(k: int): int
    decreases if k < 1 then 0 else k
  {
    if k < 1 then 1 else k * Fact(k - 1)
  }

  function S(x: string): Expr
  {
    Expr.Sym(x)
  }

  /** `(if (< n 1) 1 (* n (fact (- n 1))))` */
  function FactBody(): Expr
  {
    Expr.List([S("if"), Expr.List([S("<"), S("n"), Expr.Num(1)]), Expr.Num(1),
               Expr.List([S("*"), S("n"), Expr.List([S("fact"), Expr.List([S("-"), S("n"), Expr.Num(1)])])])])
  }

  /** `(lambda (n) ...)` */
  function FactLambda(): Expr
  {
    Expr.List([S("lambda"), Expr.List([S("n")]), FactBody()])
  }

  /** The closure `make_closure` builds for the lambda in environment e. */
  function FactClosure(e: EnvRef): Value
  {
    Closure(Expr.List([S("n")]), FactBody(), e)
  }

  /** `(letrec ((fact (lambda (n) ...))) (fact k))` */
  function FactProgram(k: int): Expr
  {
    Expr.List([S("letrec"), Expr.List([Expr.List([S("fact"), FactLambda()])]), Expr.List([S("fact"), Expr.Num(k)])])
  }

  /** The names the body uses resolve to the closure and the primitives. */
  predicate FactReady(e: EnvRef, st: Store)
  {
    && LookupVar(S("fact"), e, st) == Some(FactClosure(e))
    && LookupVar(S("<"), e, st) == Some(Prim(Lt))
    && LookupVar(S("*"), e, st) == Some(Prim(Mul))
    && LookupVar(S("-"), e, st) == Some(Prim(Sub))
  }

  /** A call whose head is a bound variable, evaluated with fuel fa: the
      arguments are evaluated as a list, then the head's value is applied,
      both with fuel fb. */
  lemma EvalCall(d: Dialect, f: Expr, args: seq<Expr>, fv: Value, env: EnvRef, st: Store, fa: nat, fb: nat)
    requires f.Sym? && FormOf(d, [f] + args) == None
    requires LookupVar(f, env, st) == Some(fv)
    requires fa == fb + 1 && fb >= 1
    ensures Eval(d, Expr.List([f] + args), env, st, fa) ==
      var (o, st1) := EvalList(d, args, env, st, fb);
      if !o.Ok? then (o.Forward(), st1) else Apply(d, fv, o.value, st1, fb)
  {
    var es := [f] + args;
    assert At(es, 0) == f && es[1..] == args;
    assert Eval(d, f, env, st, fb) == (Ok(fv), st);
    assert Eval(d, Expr.List(es), env, st, fa) == EvalApplication(d, es, env, st, fb);
  }

  /** One argument expression. */
  lemma EvalList1(d: Dialect, a: Expr, env: EnvRef, st: Store, fuel: nat)
    ensures EvalList(d, [a], env, st, fuel) ==
      var (va, st1) := Eval(d, a, env, st, fuel);
      if !va.Ok? then (va.Forward(), st1) else (Ok([va.value]), st1)
  {
    assert [a][0] == a && [a][1..] == [];
    var (va, st1) := Eval(d, a, env, st, fuel);
    if va.Ok? {
      assert [va.value] + [] == [va.value];
    }
  }

  /** Two argument expressions, in order. */
  lemma EvalList2(d: Dialect, a: Expr, b: Expr, env: EnvRef, st: Store, fuel: nat)
    ensures EvalList(d, [a, b], env, st, fuel) ==
      var (va, st1) := Eval(d, a, env, st, fuel);
      if !va.Ok? then (va.Forward(), st1)
      else
        var (vb, st2) := Eval(d, b, env, st1, fuel);
        if !vb.Ok? then (vb.Forward(), st2) else (Ok([va.value, vb.value]), st2)
  {
    assert [a, b][1..] == [b] && [b][1..] == [];
    var (va, st1) := Eval(d, a, env, st, fuel);
    if va.Ok? {
      var (vb, st2) := Eval(d, b, env, st1, fuel);
      if vb.Ok? {
        assert [vb.value] + [] == [vb.value];
        assert EvalList(d, [b], env, st1, fuel) == (Ok([vb.value]), st2);
        assert [va.value] + [vb.value] == [va.value, vb.value];
      }
    }
  }

  /** `(f a)` with f a bound variable and a evaluating to va. */
  lemma EvalApp1(d: Dialect, f: Expr, a: Expr, fv: Value, va: Value, env: EnvRef, st: Store, sta: Store, fa: nat, fb: nat)
    requires f.Sym? && FormOf(d, [f, a]) == None && LookupVar(f, env, st) == Some(fv)
    requires fa == fb + 1 && fb >= 1
    requires Eval(d, a, env, st, fb) == (Ok(va), sta)
    ensures Eval(d, Expr.List([f, a]), env, st, fa) == Apply(d, fv, [va], sta, fb)
  {
    assert [f, a] == [f] + [a];
    EvalCall(d, f, [a], fv, env, st, fa, fb);
    EvalList1(d, a, env, st, fb);
  }

  /** `(f a b)` with f a bound variable and a, b evaluating in turn. */
  lemma EvalApp2(d: Dialect, f: Expr, a: Expr, b: Expr, fv: Value, va: Value, vb: Value, env: EnvRef,
                 st: Store, sta: Store, stb: Store, fa: nat, fb: nat)
    requires f.Sym? && FormOf(d, [f, a, b]) == None && LookupVar(f, env, st) == Some(fv)
    requires fa == fb + 1 && fb >= 1
    requires Eval(d, a, env, st, fb) == (Ok(va), sta)
    requires Eval(d, b, env, sta, fb) == (Ok(vb), stb)
    ensures Eval(d, Expr.List([f, a, b]), env, st, fa) == Apply(d, fv, [va, vb], stb, fb)
  {
    assert [f, a, b] == [f] + [a, b];
    EvalCall(d, f, [a, b], fv, env, st, fa, fb);
    EvalList2(d, a, b, env, st, fb);
  }

  /** `(op n 1)` with op bound to a primitive and n to a number. */
  lemma EvalArith(d: Dialect, op: string, p: PrimOp, env: EnvRef, st: Store, k: int, fuel: nat)
    requires FormOf(d, [S(op), S("n"), Expr.Num(1)]) == None
    requires LookupVar(S(op), env, st) == Some(Prim(p)) && LookupVar(S("n"), env, st) == Some(Value.Num(k))
    requires FixedArity(p) == Some(2) && p != NumEq && p != Cons
    requires fuel >= 2
    ensures Eval(d, Expr.List([S(op), S("n"), Expr.Num(1)]), env, st, fuel) == (Ok(Arith(p, k, 1)), st)
  {
    var fb: nat := fuel - 1;
    EvalApp2(d, S(op), S("n"), Expr.Num(1), Prim(p), Value.Num(k), Value.Num(1), env, st, st, st, fuel, fb);
  }

  /** Lookups in the frame a call of the closure adds. */
  lemma CallFrame(st: Store, e: EnvRef, k: int)
    requires WellFormed(st) && e < |st.envs| && FactReady(e, st)
    ensures var (ne, st1) := ExtendEnv(st, [S("n")], [Value.Num(k)], e);
      && Extends(st, st1) && WellFormed(st1) && ne < |st1.envs|
      && LookupVar(S("n"), ne, st1) == Some(Value.Num(k))
      && LookupVar(S("fact"), ne, st1) == Some(FactClosure(e))
      && LookupVar(S("<"), ne, st1) == Some(Prim(Lt))
      && LookupVar(S("*"), ne, st1) == Some(Prim(Mul))
      && LookupVar(S("-"), ne, st1) == Some(Prim(Sub))
  {
    LookupAfterExtendEnv(st, [S("n")], [Value.Num(k)], e, S("n"));
    LookupAfterExtendEnv(st, [S("n")], [Value.Num(k)], e, S("fact"));
    LookupAfterExtendEnv(st, [S("n")], [Value.Num(k)], e, S("<"));
    LookupAfterExtendEnv(st, [S("n")], [Value.Num(k)], e, S("*"));
    LookupAfterExtendEnv(st, [S("n")], [Value.Num(k)], e, S("-"));
  }

  /** Allocation keeps the names resolving as they did. */
  lemma ReadyExtends(st: Store, st': Store, e: EnvRef)
    requires WellFormed(st) && Extends(st, st') && e < |st.envs| && FactReady(e, st)
    ensures FactReady(e, st')
  {
    ExtendsLookup(st, st', e, S("fact"));
    ExtendsLookup(st, st', e, S("<"));
    ExtendsLookup(st, st', e, S("*"));
    ExtendsLookup(st, st', e, S("-"));
  }

  /** The fuel a call of the closure on k needs. */
  function Steps(k: int): nat
  {
    3 * (if k < 1 then 0 else k) + 5
  }

  /** `(fact (- n 1))` applies what `fact` names to n - 1; the call is
      evaluated with fuel fa and the application runs with fb. */
  lemma CallStep(d: Dialect, c: Value, ne: EnvRef, st1: Store, k: int, fa: nat, fb: nat)
    requires LookupVar(S("fact"), ne, st1) == Some(c)
    requires LookupVar(S("-"), ne, st1) == Some(Prim(Sub)) && LookupVar(S("n"), ne, st1) == Some(Value.Num(k))
    requires fa == fb + 1 && fb >= 2
    ensures Eval(d, Expr.List([S("fact"), Expr.List([S("-"), S("n"), Expr.Num(1)])]), ne, st1, fa) ==
            Apply(d, c, [Value.Num(k - 1)], st1, fb)
  {
    var dec := Expr.List([S("-"), S("n"), Expr.Num(1)]);
    EvalArith(d, "-", Sub, ne, st1, k, fb);
    EvalApp1(d, S("fact"), dec, c, Value.Num(k - 1), ne, st1, st1, fa, fb);
  }

  /** `(* n call)`, given what call yields with one unit of fuel less. */
  lemma RecStep(d: Dialect, call: Expr, ne: EnvRef, st1: Store, k: int, m: int, st2: Store, fa: nat, fb: nat)
    requires LookupVar(S("*"), ne, st1) == Some(Prim(Mul)) && LookupVar(S("n"), ne, st1) == Some(Value.Num(k))
    requires fa == fb + 1 && fb >= 1
    requires Eval(d, call, ne, st1, fb) == (Ok(Value.Num(m)), st2)
    ensures Eval(d, Expr.List([S("*"), S("n"), call]), ne, st1, fa) == (Ok(Value.Num(k * m)), st2)
  {
    assert Apply(d, Prim(Mul), [Value.Num(k), Value.Num(m)], st2, fb) == (Ok(Value.Num(k * m)), st2);
    EvalApp2(d, S("*"), S("n"), call, Prim(Mul), Value.Num(k), Value.Num(m), ne, st1, st1, st2, fa, fb);
  }

  /** `(if (< n 1) 1 rec)`: the test picks the branch, and rec is evaluated
      with one unit of fuel less. */
  lemma BodyStep(d: Dialect, rec: Expr, ne: EnvRef, st1: Store, k: int, fa: nat, fb: nat)
    requires LookupVar(S("<"), ne, st1) == Some(Prim(Lt)) && LookupVar(S("n"), ne, st1) == Some(Value.Num(k))
    requires fa == fb + 1 && fb >= 2
    ensures Eval(d, Expr.List([S("if"), Expr.List([S("<"), S("n"), Expr.Num(1)]), Expr.Num(1), rec]), ne, st1, fa) ==
            if k < 1 then (Ok(Value.Num(1)), st1) else Eval(d, rec, ne, st1, fb)
  {
    var test := Expr.List([S("<"), S("n"), Expr.Num(1)]);
    EvalIfForm(d, test, Expr.Num(1), rec, ne, st1, fb);
    EvalArith(d, "<", Lt, ne, st1, k, fb);
  }

  /** The body when n < 1: the result is 1 and the store is untouched. */
  lemma BodyBase(d: Dialect, ne: EnvRef, st1: Store, k: int, fuel: nat)
    requires LookupVar(S("<"), ne, st1) == Some(Prim(Lt)) && LookupVar(S("n"), ne, st1) == Some(Value.Num(k))
    requires k < 1 && fuel >= 3
    ensures Eval(d, FactBody(), ne, st1, fuel) == (Ok(Value.Num(1)), st1)
  {
    var call := Expr.List([S("fact"), Expr.List([S("-"), S("n"), Expr.Num(1)])]);
    var rec := Expr.List([S("*"), S("n"), call]);
    assert FactBody() == Expr.List([S("if"), Expr.List([S("<"), S("n"), Expr.Num(1)]), Expr.Num(1), rec]);
    var fb: nat := fuel - 1;
    BodyStep(d, rec, ne, st1, k, fuel, fb);
  }

  /** The body when n >= 1, run with fuel f + 3: n times what the call of
      `fact` on n - 1, run with fuel f, yields, in the store that call leaves. */
  lemma BodyRec(d: Dialect, c: Value, ne: EnvRef, st1: Store, k: int, fuel: nat, f: nat, m: int, st2: Store)
    requires LookupVar(S("fact"), ne, st1) == Some(c)
    requires LookupVar(S("<"), ne, st1) == Some(Prim(Lt)) && LookupVar(S("*"), ne, st1) == Some(Prim(Mul))
    requires LookupVar(S("-"), ne, st1) == Some(Prim(Sub)) && LookupVar(S("n"), ne, st1) == Some(Value.Num(k))
    requires k >= 1 && fuel == f + 3 && f >= 2
    requires Apply(d, c, [Value.Num(k - 1)], st1, f) == (Ok(Value.Num(m)), st2)
    ensures Eval(d, FactBody(), ne, st1, fuel) == (Ok(Value.Num(k * m)), st2)
  {
    var call := Expr.List([S("fact"), Expr.List([S("-"), S("n"), Expr.Num(1)])]);
    var rec := Expr.List([S("*"), S("n"), call]);
    assert FactBody() == Expr.List([S("if"), Expr.List([S("<"), S("n"), Expr.Num(1)]), Expr.Num(1), rec]);
    var fc: nat := f + 1;
    var fr: nat := f + 2;
    CallStep(d, c, ne, st1, k, fc, f);
    RecStep(d, call, ne, st1, k, m, st2, fr, fc);
    BodyStep(d, rec, ne, st1, k, fuel, fr);
  }

  /** A call of the closure runs the body in a fresh frame binding n. */
  lemma ApplyFact(d: Dialect, e: EnvRef, st: Store, fuel: nat, k: int)
    ensures var (ne, st1) := ExtendEnv(st, [S("n")], [Value.Num(k)], e);
      Apply(d, FactClosure(e), [Value.Num(k)], st, fuel) == Eval(d, FactBody(), ne, st1, fuel)
  {
  }

  /** Calling the factorial closure on k yields k! (1 for k < 1), whatever
      environment it captured, as long as `fact` resolves there to this very
      closure; the store only gains frames and arrays. */
  lemma {:induction false} FactCall(d: Dialect, k: int, e: EnvRef, st: Store, fuel: nat)
    requires WellFormed(st) && e < |st.envs| && FactReady(e, st)
    requires fuel >= Steps(k)
    ensures var (r, st') := Apply(d, FactClosure(e), [Value.Num(k)], st, fuel);
      r == Ok(Value.Num(Fact(k))) && Extends(st, st') && WellFormed(st')
    decreases if k < 1 then 0 else k
  {
    var (ne, st1) := ExtendEnv(st, [S("n")], [Value.Num(k)], e);
    ApplyFact(d, e, st, fuel, k);
    CallFrame(st, e, k);
    if k < 1 {
      BodyBase(d, ne, st1, k, fuel);
    } else {
      ReadyExtends(st, st1, e);
      var f: nat := fuel - 3;
      FactCall(d, k - 1, e, st1, f);
      var st2 := Apply(d, FactClosure(e), [Value.Num(k - 1)], st1, f).1;
      BodyRec(d, FactClosure(e), ne, st1, k, fuel, f, Fact(k - 1), st2);
      ExtendsTrans(st, st1, st2);
    }
  }

  /** The primitives the body uses resolve as in the global environment. */
  predicate PrimsReady(e: EnvRef, st: Store)
  {
    && LookupVar(S("<"), e, st) == Some(Prim(Lt))
    && LookupVar(S("*"), e, st) == Some(Prim(Mul))
    && LookupVar(S("-"), e, st) == Some(Prim(Sub))
  }

  /** A letrec with one binding. */
  lemma LetPartsOne(kw: Expr, name: Expr, init: Expr, body: Expr)
    requires init.List?
    ensures LetParts([kw, Expr.List([Expr.List([name, init])]), body]) == Some(([name], [init], body))
  {
    var bs := [Expr.List([name, init])];
    var names := seq(|bs|, i requires 0 <= i < |bs| => At(bs[i].items, 0));
    var vals := seq(|bs|, i requires 0 <= i < |bs| => At(bs[i].items, 1));
    assert names == [name];
    assert vals == [init];
  }

  /** The initialiser of the letrec makes the factorial closure over the
      array it is evaluated in, and changes nothing. */
  lemma FactLambdaList(d: Dialect, env: EnvRef, st: Store, fuel: nat)
    requires fuel > 0
    ensures EvalList(d, [FactLambda()], env, st, fuel) == (Ok([FactClosure(env)]), st)
  {
    assert IsLambda(FactLambda());
    EvalLambdas(d, [FactLambda()], env, st, fuel);
    var vs := EvalList(d, [FactLambda()], env, st, fuel).0.value;
    assert vs[0] == FactClosure(env);
    assert vs == [FactClosure(env)];
  }

  /** The letrec of the program: after the placeholder frame and the fix-up
      the program continues as the call `(fact k)` in the frame of the
      let-application, which binds `fact` to the closure again. */
  lemma ProgramEval(d: Dialect, k: int, env: EnvRef, st: Store, fuel: nat, g: nat)
    requires fuel == g + 3
    ensures var (ext, st1) := ExtendEnvFrame(st, Placeholders([S("fact")]), env);
      var st3 := SetExtendEnv(st1, [S("fact")], [FactClosure(ext)], ext);
      var (ne, st5) := ExtendEnv(st3, [S("fact")], [FactClosure(ext)], ext);
      Eval(d, FactProgram(k), env, st, fuel) == Eval(d, Expr.List([S("fact"), Expr.Num(k)]), ne, st5, g + 1)
  {
    var es := FactProgram(k).items;
    var ps := [S("fact")];
    var inits := [FactLambda()];
    var call := Expr.List([S("fact"), Expr.Num(k)]);
    LetPartsOne(S("letrec"), S("fact"), FactLambda(), call);
    assert LetParts(es) == Some((ps, inits, call));
    LetrecMeaning(d, es, env, st, g);
    var (ext, st1) := ExtendEnvFrame(st, Placeholders(ps), env);
    FactLambdaList(d, ext, st1, g + 2);
    var st3 := SetExtendEnv(st1, ps, [FactClosure(ext)], ext);
    FactLambdaList(d, ext, st3, g + 1);
  }

  /** After the placeholder frame and the fix-up, `fact` resolves through
      the letrec's array to the closure over that same array, and the
      primitives resolve as they did. */
  lemma ProgramReady(env: EnvRef, st: Store)
    requires WellFormed(st) && env < |st.envs| && PrimsReady(env, st)
    ensures var (ext, st1) := ExtendEnvFrame(st, Placeholders([S("fact")]), env);
      var st3 := SetExtendEnv(st1, [S("fact")], [FactClosure(ext)], ext);
      WellFormed(st3) && ext < |st3.envs| && FactReady(ext, st3)
  {
    var ps := [S("fact")];
    var (ext, st1) := ExtendEnvFrame(st, Placeholders(ps), env);
    var vals := [FactClosure(ext)];
    LookupAfterFixup(st1, ps, vals, ext, S("fact"));
    forall x | x in [S("<"), S("*"), S("-")]
      ensures LookupVar(x, ext, SetExtendEnv(st1, ps, vals, ext)) == LookupVar(x, env, st)
    {
      LookupAfterExtend(st, Placeholders(ps), env, x);
      FixupLeavesOthers(st1, ps, vals, ext, ext, x);
    }
  }

  /** The frame of the let-application the letrec evaluates last: it binds
      `fact` to the same closure, and leaves the letrec's array as it was. */
  lemma CallFrameOf(st3: Store, ext: EnvRef)
    requires WellFormed(st3) && ext < |st3.envs| && FactReady(ext, st3)
    ensures var (ne, st5) := ExtendEnv(st3, [S("fact")], [FactClosure(ext)], ext);
      && WellFormed(st5) && ext < |st5.envs| && FactReady(ext, st5)
      && LookupVar(S("fact"), ne, st5) == Some(FactClosure(ext))
  {
    var (ne, st5) := ExtendEnv(st3, [S("fact")], [FactClosure(ext)], ext);
    LookupAfterExtendEnv(st3, [S("fact")], [FactClosure(ext)], ext, S("fact"));
    ReadyExtends(st3, st5, ext);
  }

  /** `(fact k)` is an application in both variants. */
  lemma CallIsApplication(d: Dialect, k: int)
    ensures FormOf(d, [S("fact"), Expr.Num(k)]) == None
  {
  }

  /** The program yields k! in any well-formed store and environment where
      the primitives resolve as in the global environment, given enough fuel;
      both variants of the interpreter agree on it. */
  lemma FactProgramResult(d: Dialect, k: int, env: EnvRef, st: Store, fuel: nat)
    requires WellFormed(st) && env < |st.envs| && PrimsReady(env, st)
    requires fuel >= Steps(k) + 3
    ensures Eval(d, FactProgram(k), env, st, fuel).0 == Ok(Value.Num(Fact(k)))
  {
    var g: nat := fuel - 3;
    ProgramEval(d, k, env, st, fuel, g);
    ProgramReady(env, st);
    var (ext, st1) := ExtendEnvFrame(st, Placeholders([S("fact")]), env);
    var st3 := SetExtendEnv(st1, [S("fact")], [FactClosure(ext)], ext);
    var (ne, st5) := ExtendEnv(st3, [S("fact")], [FactClosure(ext)], ext);
    CallFrameOf(st3, ext);
    CallIsApplication(d, k);
    EvalApp1(d, S("fact"), Expr.Num(k), FactClosure(ext), Value.Num(k), ne, st5, st5, g + 1, g);
    FactCall(d, k, ext, st5, g);
  }

  /** A name `$list_env` does not bind resolves in the global environment
      to its entry in `$primitive_fun_env`, the second frame of the array. */
  lemma GlobalPrim(x: Expr)
    requires x !in ListFrame() && x in PrimFrame()
    ensures LookupVar(x, GlobalEnv, GlobalStore()) == Some(PrimFrame()[x])
  {
    assert BindsFirst(GlobalStore(), GlobalEnv, x, 1);
  }

  lemma GlobalPrims()
    ensures PrimsReady(GlobalEnv, GlobalStore())
  {
    GlobalLt();
    GlobalMul();
    GlobalSub();
  }

  lemma GlobalLt()
    ensures LookupVar(S("<"), GlobalEnv, GlobalStore()) == Some(Prim(Lt))
  {
    GlobalPrim(Expr.Sym("<"));
  }

  lemma GlobalMul()
    ensures LookupVar(S("*"), GlobalEnv, GlobalStore()) == Some(Prim(Mul))
  {
    GlobalPrim(Expr.Sym("*"));
  }

  lemma GlobalSub()
    ensures LookupVar(S("-"), GlobalEnv, GlobalStore()) == Some(Prim(Sub))
  {
    GlobalPrim(Expr.Sym("-"));
  }

  /** Both dialects evaluate the program at the end of `schemer.rb` to 120. */
  lemma FactorialOfFive(d: Dialect)
    ensures Eval(d, FactProgram(5), GlobalEnv, GlobalStore(), 23).0 == Ok(Value.Num(120))
  {
    GlobalPrims();
    FactProgramResult(d, 5, GlobalEnv, GlobalStore(), 23);
    assert Fact(5) == 120;
  }
}
