/** What evaluation may do to the store.  Whatever an expression does,
    including when it fails, no frame or array is freed, no binding
    disappears, an array only gains frames at its front, and well-formedness
    is kept.  These are the facts the shared-structure arguments rely on: a
    frame id or array id taken before an evaluation still names the same
    object afterwards. */
module Growth {
  import opened Wrappers
  import opened Syntax
  import opened Values
  import opened Environment
  import opened Interp

  /** The store only grows from st to st', and stays well-formed. */
  predicate Evolves(st: Store, st': Store)
  {
    Grows(st, st') && (WellFormed(st) ==> WellFormed(st'))
  }

  lemma EvolvesTrans(a: Store, b: Store, c: Store)
    requires Evolves(a, b) && Evolves(b, c)
    ensures Evolves(a, c)
  {
    GrowsTrans(a, b, c);
  }

  lemma {:induction false} EvalEvolves(d: Dialect, e: Expr, env: EnvRef, st: Store, fuel: nat)
    ensures Evolves(st, Eval(d, e, env, st, fuel).1)
    decreases fuel, 0
  {
    if fuel > 0 && e.List? {
      match FormOf(d, e.items)
      case Some(k) => EvalFormEvolves(d, k, e.items, env, st, fuel - 1);
      case None => EvalApplicationEvolves(d, e.items, env, st, fuel - 1);
    }
  }

  lemma {:induction false} EvalFormEvolves(d: Dialect, k: Form, es: seq<Expr>, env: EnvRef, st: Store, fuel: nat)
    requires FormOf(d, es) == Some(k)
    ensures Evolves(st, EvalForm(d, k, es, env, st, fuel).1)
    decreases fuel, 3
  {
    match k
    case Let =>
      if LetParts(es).Some? {
        var (ps, inits, body) := LetParts(es).value;
        EvalEvolves(d, LetApplication(ps, inits, body), env, st, fuel);
      }
    case Letrec => EvalLetrecEvolves(d, es, env, st, fuel);
    case If => EvalIfEvolves(d, At(es, 1), At(es, 2), At(es, 3), env, st, fuel);
    case Cond =>
      if CondToIf(es[1..]).Some? {
        var (c, t, f) := IfParts(CondToIf(es[1..]).value);
        EvalIfEvolves(d, c, t, f, env, st, fuel);
      }
    case Define => EvalDefineEvolves(d, es, env, st, fuel);
    case _ =>
  }

  lemma {:induction false} EvalIfEvolves(d: Dialect, c: Expr, t: Expr, f: Expr, env: EnvRef, st: Store, fuel: nat)
    ensures Evolves(st, EvalIf(d, c, t, f, env, st, fuel).1)
    decreases fuel, 1
  {
    var (cv, st1) := Eval(d, c, env, st, fuel);
    EvalEvolves(d, c, env, st, fuel);
    if cv.Ok? {
      var branch := if Truthy(cv.value) then t else f;
      EvalEvolves(d, branch, env, st1, fuel);
      EvolvesTrans(st, st1, Eval(d, branch, env, st1, fuel).1);
    }
  }

  lemma {:induction false} EvalLetrecEvolves(d: Dialect, es: seq<Expr>, env: EnvRef, st: Store, fuel: nat)
    ensures Evolves(st, EvalLetrec(d, es, env, st, fuel).1)
    decreases fuel, 2
  {
    if LetParts(es).Some? {
      var (ps, inits, body) := LetParts(es).value;
      var (ext, st1) := ExtendEnvFrame(st, Placeholders(ps), env);
      ExtendsGrows(st, st1);
      var (vals, st2) := EvalList(d, inits, ext, st1, fuel);
      EvalListEvolves(d, inits, ext, st1, fuel);
      EvolvesTrans(st, st1, st2);
      if vals.Ok? {
        var st3 := SetExtendEnv(st2, ps, vals.value, ext);
        EvolvesTrans(st, st2, st3);
        EvalEvolves(d, LetApplication(ps, inits, body), ext, st3, fuel);
        EvolvesTrans(st, st3, Eval(d, LetApplication(ps, inits, body), ext, st3, fuel).1);
      }
    }
  }

  lemma {:induction false} EvalDefineEvolves(d: Dialect, es: seq<Expr>, env: EnvRef, st: Store, fuel: nat)
    ensures Evolves(st, EvalDefine(d, es, env, st, fuel).1)
    decreases fuel, 1
  {
    var (name, valExp) := DefineParts(es);
    var ref := LookupVarRef(name, env, st);
    var (v, st1) := Eval(d, valExp, env, st, fuel);
    EvalEvolves(d, valExp, env, st, fuel);
    if v.Ok? {
      var st2 := if ref.Some? then WriteFrame(st1, ref.value, name, v.value)
                 else UnshiftFrame(st1, map[name := v.value], env);
      EvolvesTrans(st, st1, st2);
    }
  }

  lemma {:induction false} EvalApplicationEvolves(d: Dialect, es: seq<Expr>, env: EnvRef, st: Store, fuel: nat)
    ensures Evolves(st, EvalApplication(d, es, env, st, fuel).1)
    decreases fuel, 2
  {
    var (fv, st1) := Eval(d, At(es, 0), env, st, fuel);
    EvalEvolves(d, At(es, 0), env, st, fuel);
    if fv.Ok? && |es| > 0 {
      var (args, st2) := EvalList(d, es[1..], env, st1, fuel);
      EvalListEvolves(d, es[1..], env, st1, fuel);
      EvolvesTrans(st, st1, st2);
      if args.Ok? {
        ApplyEvolves(d, fv.value, args.value, st2, fuel);
        EvolvesTrans(st, st2, Apply(d, fv.value, args.value, st2, fuel).1);
      }
    }
  }

  lemma {:induction false} EvalListEvolves(d: Dialect, es: seq<Expr>, env: EnvRef, st: Store, fuel: nat)
    ensures Evolves(st, EvalList(d, es, env, st, fuel).1)
    decreases fuel, 1, |es|
  {
    if |es| > 0 {
      var (v, st1) := Eval(d, es[0], env, st, fuel);
      EvalEvolves(d, es[0], env, st, fuel);
      if v.Ok? {
        EvalListEvolves(d, es[1..], env, st1, fuel);
        EvolvesTrans(st, st1, EvalList(d, es[1..], env, st1, fuel).1);
      }
    }
  }

  lemma {:induction false} ApplyEvolves(d: Dialect, fv: Value, args: seq<Value>, st: Store, fuel: nat)
    ensures Evolves(st, Apply(d, fv, args, st, fuel).1)
    decreases fuel, 1
  {
    if fv.Closure? && fv.params.List? {
      var (ne, st1) := ExtendEnv(st, fv.params.items, args, fv.env);
      ExtendsGrows(st, st1);
      EvalEvolves(d, fv.body, ne, st1, fuel);
      EvolvesTrans(st, st1, Eval(d, fv.body, ne, st1, fuel).1);
    }
  }
}
