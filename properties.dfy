/** Properties of the engine: evaluation order, the meaning of each special
    form stated independently of its desugaring, and how `define` and the
    letrec fix-up act on shared frames. */
module Properties {
  import opened Wrappers
  import opened Syntax
  import opened Values
  import opened Environment
  import opened Primitives
  import opened Interp
  import opened Growth

  // ----- classification -----

  /** A number evaluates to itself and any other atom is looked up as a
      variable (raising when no frame binds it); neither touches the store. */
  lemma EvalAtom(d: Dialect, e: Expr, env: EnvRef, st: Store, fuel: nat)
    requires !e.List? && fuel > 0
    ensures Eval(d, e, env, st, fuel) ==
      (if e.Num? then Ok(Value.Num(e.n))
       else if LookupVar(e, env, st).Some? then Ok(LookupVar(e, env, st).value)
       else Err(Unbound(e)), st)
  {
  }

  // ----- evaluation order -----

  /** `eval_list` is left to right: evaluating a concatenation evaluates the
      first part, then the second part in the store the first part left, and
      stops at the first failure. */
  lemma {:induction false} EvalListAppend(d: Dialect, es1: seq<Expr>, es2: seq<Expr>, env: EnvRef, st: Store, fuel: nat)
    ensures EvalList(d, es1 + es2, env, st, fuel) ==
      var (o1, st1) := EvalList(d, es1, env, st, fuel);
      if !o1.Ok? then (o1, st1)
      else
        var (o2, st2) := EvalList(d, es2, env, st1, fuel);
        if !o2.Ok? then (o2, st2) else (Ok(o1.value + o2.value), st2)
    decreases |es1|
  {
    if |es1| == 0 {
      assert es1 + es2 == es2;
      var (o2, st2) := EvalList(d, es2, env, st, fuel);
      if o2.Ok? {
        assert [] + o2.value == o2.value;
      }
    } else {
      assert (es1 + es2)[0] == es1[0];
      assert (es1 + es2)[1..] == es1[1..] + es2;
      var (v, st1) := Eval(d, es1[0], env, st, fuel);
      if v.Ok? {
        EvalListAppend(d, es1[1..], es2, env, st1, fuel);
        var (o1, s1) := EvalList(d, es1[1..], env, st1, fuel);
        if o1.Ok? {
          var (o2, s2) := EvalList(d, es2, env, s1, fuel);
          if o2.Ok? {
            assert [v.value] + (o1.value + o2.value) == ([v.value] + o1.value) + o2.value;
          }
        }
      }
    }
  }

  /** Argument i is evaluated after arguments 0..i-1, in the store they left,
      and its value is the i-th value of the list. */
  lemma {:induction false} EvalListAt(d: Dialect, es: seq<Expr>, env: EnvRef, st: Store, fuel: nat, i: nat)
    requires EvalList(d, es, env, st, fuel).0.Ok? && i < |es|
    ensures EvalList(d, es[..i], env, st, fuel).0.Ok?
    ensures Eval(d, es[i], env, EvalList(d, es[..i], env, st, fuel).1, fuel) ==
      (Ok(EvalList(d, es, env, st, fuel).0.value[i]), EvalList(d, es[..i + 1], env, st, fuel).1)
    decreases i
  {
    var (v, st1) := Eval(d, es[0], env, st, fuel);
    if i == 0 {
      assert es[..0] == [];
      assert es[..1][0] == es[0] && es[..1][1..] == [];
    } else {
      EvalListAt(d, es[1..], env, st1, fuel, i - 1);
      assert es[1..][..i - 1] == es[..i][1..] && es[..i][0] == es[0];
      assert es[1..][..i] == es[..i + 1][1..] && es[..i + 1][0] == es[0];
      assert es[1..][i - 1] == es[i];
    }
  }

  /** An application evaluates its elements as one left-to-right list, the
      head first, and applies the first value to the others; a failure of
      the head means no argument is evaluated. */
  lemma ApplicationOrder(d: Dialect, es: seq<Expr>, env: EnvRef, st: Store, fuel: nat)
    requires FormOf(d, es) == None && |es| > 0
    ensures Eval(d, Expr.List(es), env, st, fuel + 1) ==
      var (o, st1) := EvalList(d, es, env, st, fuel);
      if !o.Ok? then (o.Forward(), st1) else Apply(d, o.value[0], o.value[1..], st1, fuel)
    ensures !Eval(d, es[0], env, st, fuel).0.Ok? ==>
      Eval(d, Expr.List(es), env, st, fuel + 1) == Eval(d, es[0], env, st, fuel)
  {
    var (fv, st1) := Eval(d, es[0], env, st, fuel);
    if fv.Ok? {
      var (args, st2) := EvalList(d, es[1..], env, st1, fuel);
      if args.Ok? {
        assert ([fv.value] + args.value)[1..] == args.value;
      }
    }
  }

  /** `apply` of a primitive invokes it on the arguments and leaves the
      store alone; a closure whose parameters are not an array cannot be
      zipped, and anything else is not a function. */
  lemma ApplyDispatch(d: Dialect, fv: Value, args: seq<Value>, st: Store, fuel: nat)
    ensures fv.Prim? ==> Apply(d, fv, args, st, fuel) == (ApplyPrim(fv.op, args), st)
    ensures fv.Closure? && !fv.params.List? ==> Apply(d, fv, args, st, fuel) == (Err(Malformed), st)
    ensures !fv.Prim? && !fv.Closure? ==> Apply(d, fv, args, st, fuel) == (Err(NotAFunction(fv)), st)
  {
  }

  /** `lambda_apply`: a closure runs its body in its captured environment
      extended by a fresh frame for the arguments. */
  lemma ApplyClosure(d: Dialect, ps: seq<Expr>, body: Expr, cenv: EnvRef, args: seq<Value>, st: Store, fuel: nat, key: Expr)
    requires WellFormed(st)
    ensures var (ne, st1) := ExtendEnv(st, ps, args, cenv);
      && Apply(d, Closure(Expr.List(ps), body, cenv), args, st, fuel) == Eval(d, body, ne, st1, fuel)
      && Extends(st, st1)
      && LookupVar(key, ne, st1) ==
           if key in ps then Some(ArgAt(args, LastIndex(ps, key))) else LookupVar(key, cenv, st)
  {
    var (ne, st1) := ExtendEnv(st, ps, args, cenv);
    assert Apply(d, Closure(Expr.List(ps), body, cenv), args, st, fuel) == Eval(d, body, ne, st1, fuel);
    LookupAfterExtendEnv(st, ps, args, cenv, key);
  }

  // ----- if -----

  /** The test is evaluated once; then exactly one branch, chosen by Ruby's
      truth (only false and nil are false), in the store the test left. */
  lemma EvalIfForm(d: Dialect, c: Expr, t: Expr, f: Expr, env: EnvRef, st: Store, fuel: nat)
    ensures Eval(d, Expr.List([Expr.Sym("if"), c, t, f]), env, st, fuel + 1) ==
      var (cv, st1) := Eval(d, c, env, st, fuel);
      if !cv.Ok? then (cv, st1)
      else if cv.value == Bool(false) || cv.value == Value.Nil then Eval(d, f, env, st1, fuel)
      else Eval(d, t, env, st1, fuel)
  {
    var es := [Expr.Sym("if"), c, t, f];
    assert FormOf(d, es) == Some(If);
    assert At(es, 1) == c && At(es, 2) == t && At(es, 3) == f;
    assert Eval(d, Expr.List(es), env, st, fuel + 1) == EvalIf(d, c, t, f, env, st, fuel);
  }

  // ----- let -----

  /** `let` without the desugaring: the initialisers are evaluated left to
      right in the outer environment, then the body runs in that environment
      extended by one fresh frame pairing the names with the values. */
  lemma LetMeaning(d: Dialect, es: seq<Expr>, env: EnvRef, st: Store, fuel: nat)
    requires At(es, 0) == Expr.Sym("let") && LetParts(es).Some?
    ensures var (ps, inits, body) := LetParts(es).value;
      Eval(d, Expr.List(es), env, st, fuel + 3) ==
        var (vals, st1) := EvalList(d, inits, env, st, fuel + 1);
        if !vals.Ok? then (vals.Forward(), st1)
        else
          var (ne, st2) := ExtendEnv(st1, ps, vals.value, env);
          Eval(d, body, ne, st2, fuel + 1)
  {
    assert FormOf(d, es) == Some(Let);
    var (ps, inits, body) := LetParts(es).value;
    LetApplicationMeaning(d, ps, inits, body, env, st, fuel);
  }

  /** `((lambda ps body) inits...)` evaluates the initialisers in the outer
      environment and then the body in a fresh frame in front of it. */
  lemma LetApplicationMeaning(d: Dialect, ps: seq<Expr>, inits: seq<Expr>, body: Expr, env: EnvRef, st: Store, fuel: nat)
    ensures Eval(d, LetApplication(ps, inits, body), env, st, fuel + 2) ==
      var (vals, st1) := EvalList(d, inits, env, st, fuel + 1);
      if !vals.Ok? then (vals.Forward(), st1)
      else
        var (ne, st2) := ExtendEnv(st1, ps, vals.value, env);
        Eval(d, body, ne, st2, fuel + 1)
  {
    var app := [Expr.List([Expr.Sym("lambda"), Expr.List(ps), body])] + inits;
    assert At(app, 0) == Expr.List([Expr.Sym("lambda"), Expr.List(ps), body]);
    assert app[1..] == inits;
    assert FormOf(d, [Expr.Sym("lambda"), Expr.List(ps), body]) == Some(Lambda);
    assert Eval(d, At(app, 0), env, st, fuel + 1) == (Ok(Closure(Expr.List(ps), body, env)), st);
    assert FormOf(d, app) == None;
    var (vals, st1) := EvalList(d, inits, env, st, fuel + 1);
    if vals.Ok? {
      assert Apply(d, Closure(Expr.List(ps), body, env), vals.value, st1, fuel + 1) ==
        var (ne, st2) := ExtendEnv(st1, ps, vals.value, env);
        Eval(d, body, ne, st2, fuel + 1);
    }
  }

  // ----- letrec -----

  /** An expression `(lambda ...)`. */
  predicate IsLambda(e: Expr)
  {
    e.List? && At(e.items, 0) == Expr.Sym("lambda")
  }

  /** Evaluating lambda expressions creates closures over the current
      environment and changes nothing. */
  lemma {:induction false} EvalLambdas(d: Dialect, es: seq<Expr>, env: EnvRef, st: Store, fuel: nat)
    requires forall i :: 0 <= i < |es| ==> IsLambda(es[i])
    requires fuel > 0
    ensures EvalList(d, es, env, st, fuel).0.Ok?
    ensures EvalList(d, es, env, st, fuel).1 == st
    ensures forall i :: 0 <= i < |es| && es[i].List? ==>
      EvalList(d, es, env, st, fuel).0.value[i] == Closure(At(es[i].items, 1), At(es[i].items, 2), env)
    decreases |es|
  {
    if |es| > 0 {
      assert IsLambda(es[0]);
      var items := es[0].items;
      assert FormOf(d, items) == Some(Lambda);
      var c := Closure(At(items, 1), At(items, 2), env);
      assert Eval(d, es[0], env, st, fuel) == (Ok(c), st);
      assert forall i :: 0 <= i < |es[1..]| ==> IsLambda(es[1..][i]) by {
        forall i | 0 <= i < |es[1..]| ensures IsLambda(es[1..][i]) {
          assert es[1..][i] == es[i + 1];
        }
      }
      EvalLambdas(d, es[1..], env, st, fuel);
      var rest := EvalList(d, es[1..], env, st, fuel).0.value;
      assert EvalList(d, es, env, st, fuel) == (Ok([c] + rest), st);
      forall i | 1 <= i < |es| && es[i].List?
        ensures ([c] + rest)[i] == Closure(At(es[i].items, 1), At(es[i].items, 2), env)
      {
        assert es[1..][i - 1] == es[i];
      }
    }
  }

  /** The letrec protocol: when every initialiser is a lambda, step 2 leaves
      the store alone and yields closures that all capture the extended
      array; before the fix-up a name seen through that array is still
      `:dummy`, after it (step 3 writes the same frame in place) it is the
      closure stored for the name, although no closure's environment
      reference has changed. */
  lemma LetrecFixup(d: Dialect, ps: seq<Expr>, inits: seq<Expr>, env: EnvRef, st: Store, fuel: nat, j: nat)
    requires |ps| == |inits| && j < |ps| && fuel > 0
    requires forall i :: 0 <= i < |inits| ==> IsLambda(inits[i])
    ensures var (ext, st1) := ExtendEnvFrame(st, Placeholders(ps), env);
      var (vals, st2) := EvalList(d, inits, ext, st1, fuel);
      && vals.Ok? && st2 == st1
      && (forall i :: 0 <= i < |inits| ==> vals.value[i].Closure? && vals.value[i].env == ext)
      && LookupVar(ps[j], ext, st1) == Some(Value.Sym("dummy"))
      && var st3 := SetExtendEnv(st2, ps, vals.value, ext);
         LookupVar(ps[j], ext, st3) == Some(vals.value[LastIndex(ps, ps[j])])
  {
    var (ext, st1) := ExtendEnvFrame(st, Placeholders(ps), env);
    EvalLambdas(d, inits, ext, st1, fuel);
    var vals := EvalList(d, inits, ext, st1, fuel).0.value;
    assert ps[j] in Placeholders(ps);
    assert BindsFirst(st1, ext, ps[j], 0);
    LookupAfterFixup(st1, ps, vals, ext, ps[j]);
  }

  /** `letrec` in full: the placeholder frame, the initialisers in the
      extended array, the in-place fix-up of the frame at its front, and the
      let-application in the fixed-up array, whose own evaluation of the
      initialisers is the second one. */
  lemma LetrecMeaning(d: Dialect, es: seq<Expr>, env: EnvRef, st: Store, fuel: nat)
    requires At(es, 0) == Expr.Sym("letrec") && LetParts(es).Some?
    ensures var (ps, inits, body) := LetParts(es).value;
      var (ext, st1) := ExtendEnvFrame(st, Placeholders(ps), env);
      var (vals, st2) := EvalList(d, inits, ext, st1, fuel + 2);
      Eval(d, Expr.List(es), env, st, fuel + 3) ==
        if !vals.Ok? then (vals.Forward(), st2)
        else
          var st3 := SetExtendEnv(st2, ps, vals.value, ext);
          var (vals2, st4) := EvalList(d, inits, ext, st3, fuel + 1);
          if !vals2.Ok? then (vals2.Forward(), st4)
          else
            var (ne, st5) := ExtendEnv(st4, ps, vals2.value, ext);
            Eval(d, body, ne, st5, fuel + 1)
  {
    assert FormOf(d, es) == Some(Letrec);
    assert Eval(d, Expr.List(es), env, st, fuel + 3) == EvalLetrec(d, es, env, st, fuel + 2);
    var (ps, inits, body) := LetParts(es).value;
    var (ext, st1) := ExtendEnvFrame(st, Placeholders(ps), env);
    var (vals, st2) := EvalList(d, inits, ext, st1, fuel + 2);
    if vals.Ok? {
      var st3 := SetExtendEnv(st2, ps, vals.value, ext);
      LetApplicationMeaning(d, ps, inits, body, ext, st3, fuel);
    }
  }

  // ----- define -----

  /** `(define (f ps...) b)` is `(define f (lambda (ps...) b))`. */
  lemma DefineSugar(f: Expr, ps: seq<Expr>, body: Expr, env: EnvRef, st: Store, fuel: nat)
    requires !f.List?
    ensures Eval(Full, Expr.List([Expr.Sym("define"), Expr.List([f] + ps), body]), env, st, fuel) ==
            Eval(Full, Expr.List([Expr.Sym("define"), f, Expr.List([Expr.Sym("lambda"), Expr.List(ps), body])]), env, st, fuel)
  {
    assert FormOf(Full, [Expr.Sym("define"), Expr.List([f] + ps), body]) == Some(Define);
    assert FormOf(Full, [Expr.Sym("define"), f, Expr.List([Expr.Sym("lambda"), Expr.List(ps), body])]) == Some(Define);
    assert ([f] + ps)[1..] == ps && ([f] + ps)[0] == f;
    assert Syntax.Cdr([f] + ps) == Expr.List(ps);
    assert DefineParts([Expr.Sym("define"), Expr.List([f] + ps), body]) ==
           DefineParts([Expr.Sym("define"), f, Expr.List([Expr.Sym("lambda"), Expr.List(ps), body])]);
    if fuel > 0 {
      assert Eval(Full, Expr.List([Expr.Sym("define"), Expr.List([f] + ps), body]), env, st, fuel) ==
             EvalDefine(Full, [Expr.Sym("define"), Expr.List([f] + ps), body], env, st, fuel - 1);
      assert Eval(Full, Expr.List([Expr.Sym("define"), f, Expr.List([Expr.Sym("lambda"), Expr.List(ps), body])]), env, st, fuel) ==
             EvalDefine(Full, [Expr.Sym("define"), f, Expr.List([Expr.Sym("lambda"), Expr.List(ps), body])], env, st, fuel - 1);
    }
  }

  /** One step of `define`: the frame is looked up before the value is
      evaluated, and the store after the form is the store after the value
      with the binding written or unshifted. */
  lemma DefineStep(es: seq<Expr>, env: EnvRef, st: Store, fuel: nat)
    requires At(es, 0) == Expr.Sym("define")
    ensures var (name, valExp) := DefineParts(es);
      var ref := LookupVarRef(name, env, st);
      var (v, st1) := Eval(Full, valExp, env, st, fuel);
      Eval(Full, Expr.List(es), env, st, fuel + 1) ==
        if !v.Ok? then (v, st1)
        else if ref.Some? then (Ok(Value.Nil), WriteFrame(st1, ref.value, name, v.value))
        else (Ok(Value.Nil), UnshiftFrame(st1, map[name := v.value], env))
  {
    assert FormOf(Full, es) == Some(Define);
    assert Eval(Full, Expr.List(es), env, st, fuel + 1) == EvalDefine(Full, es, env, st, fuel);
  }

  /** Redefinition: when some frame of the array already binds the name, the
      value is written into that frame, the result is nil, and the new value
      is seen through every environment array (of any closure or call) whose
      innermost binding of the name is that frame; no other lookup changes. */
  lemma DefineOverwrites(es: seq<Expr>, env: EnvRef, st: Store, fuel: nat, other: EnvRef, key: Expr)
    requires At(es, 0) == Expr.Sym("define")
    requires LookupVarRef(DefineParts(es).0, env, st).Some?
    requires Eval(Full, DefineParts(es).1, env, st, fuel).0.Ok?
    ensures var (name, valExp) := DefineParts(es);
      var fid := LookupVarRef(name, env, st).value;
      var (v, st1) := Eval(Full, valExp, env, st, fuel);
      var (r, st2) := Eval(Full, Expr.List(es), env, st, fuel + 1);
      && r == Ok(Value.Nil)
      && LookupVar(key, other, st2) ==
           if key == name && LookupVarRef(name, other, st1) == Some(fid) then Some(v.value)
           else LookupVar(key, other, st1)
  {
    DefineStep(es, env, st, fuel);
    var (name, valExp) := DefineParts(es);
    var fid := LookupVarRef(name, env, st).value;
    var (v, st1) := Eval(Full, valExp, env, st, fuel);
    var i: nat :| BindsFirst(st, env, name, i);
    assert fid < |st.frames| && name in st.frames[fid];
    EvalEvolves(Full, valExp, env, st, fuel);
    assert name in st1.frames[fid];
    LookupAfterWrite(st1, fid, name, v.value, other, key);
  }

  /** First definition: when no frame binds the name, a one-binding frame is
      unshifted onto the same array, so the name is now seen through it (and
      by every closure holding that array), the result is nil, and no other
      array changes, not even one `extend_env` copied from it before. */
  lemma DefineUnshifts(es: seq<Expr>, env: EnvRef, st: Store, fuel: nat, other: EnvRef, key: Expr)
    requires At(es, 0) == Expr.Sym("define") && WellFormed(st) && env < |st.envs|
    requires LookupVarRef(DefineParts(es).0, env, st).None?
    requires Eval(Full, DefineParts(es).1, env, st, fuel).0.Ok?
    ensures var (name, valExp) := DefineParts(es);
      var (v, st1) := Eval(Full, valExp, env, st, fuel);
      var (r, st2) := Eval(Full, Expr.List(es), env, st, fuel + 1);
      && r == Ok(Value.Nil)
      && LookupVar(key, env, st2) == (if key == name then Some(v.value) else LookupVar(key, env, st1))
      && (other != env && other < |st1.envs| ==> LookupVar(key, other, st2) == LookupVar(key, other, st1))
  {
    DefineStep(es, env, st, fuel);
    var (name, valExp) := DefineParts(es);
    var (v, st1) := Eval(Full, valExp, env, st, fuel);
    EvalEvolves(Full, valExp, env, st, fuel);
    LookupAfterUnshift(st1, name, v.value, env, key);
    if other != env && other < |st1.envs| {
      UnshiftLeavesOthers(st1, map[name := v.value], env, other, key);
    }
  }

  // ----- cond -----

  /** `cond` without the desugaring: the tests are tried in order, each in
      the store the previous one left; the consequent of the first test with
      a true value is the result; when none matches, evaluation ends with the
      string `''`, which is looked up as a variable. */
  function CondMeaning(d: Dialect, clauses: seq<Expr>, env: EnvRef, st: Store, fuel: nat): Result
    requires |clauses| > 0 && forall i :: 0 <= i < |clauses| ==> clauses[i].List?
    decreases |clauses|
  {
    var (tv, st1) := Eval(d, ClauseTest(clauses[0].items), env, st, fuel);
    if !tv.Ok? then (tv, st1)
    else if Truthy(tv.value) then Eval(d, At(clauses[0].items, 1), env, st1, fuel)
    else if |clauses| == 1 then Eval(d, Expr.Str(""), env, st1, fuel)
    else if fuel == 0 then (OutOfFuel, st1)
    else CondMeaning(d, clauses[1..], env, st1, fuel - 1)
  }

  /** The nested ifs `cond_to_if` builds mean exactly the first-match rule. */
  lemma {:induction false} CondToIfMeaning(clauses: seq<Expr>, env: EnvRef, st: Store, fuel: nat)
    requires |clauses| > 0 && forall i :: 0 <= i < |clauses| ==> clauses[i].List?
    ensures var (c, t, f) := IfParts(CondToIf(clauses).value);
      EvalIf(Full, c, t, f, env, st, fuel) == CondMeaning(Full, clauses, env, st, fuel)
    decreases |clauses|
  {
    var rest := CondToIf(clauses[1..]).value;
    var test, conseq := ClauseTest(clauses[0].items), At(clauses[0].items, 1);
    assert IfParts(CondToIf(clauses).value) == (test, conseq, rest);
    var (tv, st1) := Eval(Full, test, env, st, fuel);
    if tv.Ok? && !Truthy(tv.value) && |clauses| > 1 && fuel > 0 {
      var g: nat := fuel - 1;
      NestedIf(clauses[1..], env, st1, fuel, g);
      CondToIfMeaning(clauses[1..], env, st1, g);
    }
  }

  /** The rewrite of non-empty clauses is itself an if form. */
  lemma NestedIf(clauses: seq<Expr>, env: EnvRef, st: Store, fuel: nat, g: nat)
    requires |clauses| > 0 && forall i :: 0 <= i < |clauses| ==> clauses[i].List?
    requires fuel == g + 1
    ensures var (c, t, f) := IfParts(CondToIf(clauses).value);
      Eval(Full, CondToIf(clauses).value, env, st, fuel) == EvalIf(Full, c, t, f, env, st, g)
  {
    var r := CondToIf(clauses).value;
    assert r.List? && |r.items| == 4 && r.items[0] == Expr.Sym("if");
    assert FormOf(Full, r.items) == Some(If);
  }

  /** The cond form evaluates as the first-match rule. */
  lemma CondFirstMatch(clauses: seq<Expr>, env: EnvRef, st: Store, fuel: nat)
    requires |clauses| > 0 && forall i :: 0 <= i < |clauses| ==> clauses[i].List?
    ensures Eval(Full, Expr.List([Expr.Sym("cond")] + clauses), env, st, fuel + 1) == CondMeaning(Full, clauses, env, st, fuel)
  {
    var es := [Expr.Sym("cond")] + clauses;
    assert FormOf(Full, es) == Some(Cond);
    assert es[1..] == clauses;
    CondToIfMeaning(clauses, env, st, fuel);
  }

  // ----- quote -----

  /** `quote` returns its argument unevaluated (nothing is looked up, no list
      is applied) and leaves the store alone. */
  lemma QuoteReturnsDatum(x: Expr, env: EnvRef, st: Store, fuel: nat)
    ensures Eval(Full, Expr.List([Expr.Sym("quote"), x]), env, st, fuel + 1) == (Ok(Datum(x)), st)
    ensures AsExpr(Datum(x)) == Some(x)
  {
    assert FormOf(Full, [Expr.Sym("quote"), x]) == Some(Quote);
    DatumIsExpr(x);
  }

  // ----- the two variants -----

  /** In schemer.rb only lambda, let, letrec and if are special: a list headed
      by `cond`, `define` or `quote` is an application, so its head is looked
      up as a variable, and when nothing binds it evaluation fails there
      without evaluating anything else. */
  lemma BasicHasNoCondDefineQuote(es: seq<Expr>, env: EnvRef, st: Store, fuel: nat)
    requires At(es, 0) in {Expr.Sym("cond"), Expr.Sym("define"), Expr.Sym("quote")}
    requires LookupVar(At(es, 0), env, st).None?
    ensures FormOf(Basic, es) == None && FormOf(Full, es).Some?
    ensures Eval(Basic, Expr.List(es), env, st, fuel + 2) == (Err(Unbound(At(es, 0))), st)
  {
    assert FormOf(Basic, es) == None;
    assert Eval(Basic, At(es, 0), env, st, fuel + 1) == (Err(Unbound(At(es, 0))), st);
    assert Eval(Basic, Expr.List(es), env, st, fuel + 2) == EvalApplication(Basic, es, env, st, fuel + 1);
  }
}
