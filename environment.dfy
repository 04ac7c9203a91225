/** The two-level environment of the engine, with its sharing made explicit.

    Ruby keeps frames as Hash objects and environments as Array objects of
    frames, innermost first; closures and calls hold these objects by
    reference, and several arrays may hold the same frame.  Here the heap of
    these objects is a `Store`: frame number `f` is the Hash object `f`, and
    environment number `e` is the Array object `e`.  Two closures share an
    environment exactly when they hold the same `EnvRef`, and two
    environments share a frame exactly when both arrays list the same
    `FrameId`; updating an entry of `frames` or `envs` in place is therefore
    seen by every holder, as in Ruby. */
module Environment {
  import opened Wrappers
  import opened Syntax
  import opened Values

  type FrameId = nat

  /** One frame: a Ruby Hash from names to values. */
  type Frame = map<Expr, Value>

  /** The heap of frames and environment arrays. */
  datatype Store = Store(frames: seq<Frame>, envs: seq<seq<FrameId>>)

  /** The frame a number names (an unallocated number names no bindings). */
  function FrameAt(st: Store, fid: FrameId): Frame
  {
    if fid < |st.frames| then st.frames[fid] else map[]
  }

  /** The frames of the environment array a reference names, innermost first. */
  function EnvFrames(st: Store, env: EnvRef): seq<FrameId>
  {
    if env < |st.envs| then st.envs[env] else []
  }

  /** Every environment array lists only allocated frames. */
  predicate WellFormed(st: Store)
  {
    forall e, i :: 0 <= e < |st.envs| && 0 <= i < |st.envs[e]| ==> st.envs[e][i] < |st.frames|
  }

  predicate IsSuffix(a: seq<FrameId>, b: seq<FrameId>)
  {
    |a| <= |b| && b[|b| - |a|..] == a
  }

  /** How the store may change during evaluation: nothing is freed, no
      binding disappears from a frame, and an environment array only gains
      frames at its front. */
  predicate Grows(st: Store, st': Store)
  {
    && |st.frames| <= |st'.frames|
    && |st.envs| <= |st'.envs|
    && (forall fid :: 0 <= fid < |st.frames| ==> st.frames[fid].Keys <= st'.frames[fid].Keys)
    && (forall e :: 0 <= e < |st.envs| ==> IsSuffix(st.envs[e], st'.envs[e]))
  }

  /** How the store changes when objects are only allocated: every existing
      frame and array is left exactly as it was. */
  predicate Extends(st: Store, st': Store)
  {
    && |st.frames| <= |st'.frames|
    && |st.envs| <= |st'.envs|
    && st'.frames[..|st.frames|] == st.frames
    && st'.envs[..|st.envs|] == st.envs
  }

  lemma SuffixTrans(a: seq<FrameId>, b: seq<FrameId>, c: seq<FrameId>)
    requires IsSuffix(a, b) && IsSuffix(b, c)
    ensures IsSuffix(a, c)
  {
    assert c[|c| - |a|..] == c[|c| - |b|..][|b| - |a|..];
  }

  lemma GrowsTrans(a: Store, b: Store, c: Store)
    requires Grows(a, b) && Grows(b, c)
    ensures Grows(a, c)
  {
    forall e | 0 <= e < |a.envs| ensures IsSuffix(a.envs[e], c.envs[e]) {
      SuffixTrans(a.envs[e], b.envs[e], c.envs[e]);
    }
  }

  lemma ExtendsTrans(a: Store, b: Store, c: Store)
    requires Extends(a, b) && Extends(b, c)
    ensures Extends(a, c)
  {
    assert c.frames[..|a.frames|] == c.frames[..|b.frames|][..|a.frames|];
    assert c.envs[..|a.envs|] == c.envs[..|b.envs|][..|a.envs|];
  }

  lemma ExtendsGrows(st: Store, st': Store)
    requires Extends(st, st')
    ensures Grows(st, st')
  {
    forall fid | 0 <= fid < |st.frames| ensures st'.frames[fid] == st.frames[fid] {
      assert st'.frames[fid] == st'.frames[..|st.frames|][fid];
    }
    forall e | 0 <= e < |st.envs| ensures st'.envs[e] == st.envs[e] {
      assert st'.envs[e] == st'.envs[..|st.envs|][e];
    }
  }

  // ----- building a frame: `parameters.zip(args)` -----

  /** The argument paired with the i-th parameter: Ruby's `zip` pads with nil. */
  function ArgAt(args: seq<Value>, i: nat): Value
  {
    if i < |args| then args[i] else Value.Nil
  }

  /** `m` after storing each parameter with its argument, in order: the loop
      of `extend_env` (from an empty hash) and of `set_extend_env!` (into an
      existing frame). */
  function Bind(m: Frame, ps: seq<Expr>, args: seq<Value>): Frame
    decreases |ps|
  {
    if |ps| == 0 then m
    else Bind(m, ps[..|ps| - 1], args)[ps[|ps| - 1] := ArgAt(args, |ps| - 1)]
  }

  /** The last position a name takes in a parameter list. */
  function LastIndex(ps: seq<Expr>, k: Expr): (r: nat)
    requires k in ps
    ensures r < |ps| && ps[r] == k
    ensures forall j :: r < j < |ps| ==> ps[j] != k
  {
    if ps[|ps| - 1] == k then |ps| - 1
    else
      assert k in ps[..|ps| - 1] by {
        var i :| 0 <= i < |ps| && ps[i] == k;
        assert ps[..|ps| - 1][i] == k;
      }
      LastIndex(ps[..|ps| - 1], k)
  }

  /** Positional pairing: a parameter is bound to the argument at its (last)
      position, or to nil when the arguments run out; surplus arguments bind
      nothing; names that are not parameters keep their old binding. */
  lemma {:induction false} BindLookup(m: Frame, ps: seq<Expr>, args: seq<Value>, k: Expr)
    ensures k in Bind(m, ps, args) <==> k in m || k in ps
    ensures k in ps ==> Bind(m, ps, args)[k] == ArgAt(args, LastIndex(ps, k))
    ensures k !in ps && k in m ==> Bind(m, ps, args)[k] == m[k]
    decreases |ps|
  {
    if |ps| > 0 {
      var init := ps[..|ps| - 1];
      BindLookup(m, init, args, k);
      assert ps == init + [ps[|ps| - 1]];
      if k in ps && k != ps[|ps| - 1] {
        assert k in init;
      }
    }
  }

  /** With distinct parameters, the fresh frame `extend_env` builds binds
      exactly the parameters, the i-th one to the i-th argument or to nil. */
  lemma ZipFrame(ps: seq<Expr>, args: seq<Value>)
    requires forall i, j :: 0 <= i < j < |ps| ==> ps[i] != ps[j]
    ensures Bind(map[], ps, args).Keys == set p | p in ps
    ensures forall i :: 0 <= i < |ps| ==> Bind(map[], ps, args)[ps[i]] == ArgAt(args, i)
  {
    forall k ensures k in Bind(map[], ps, args) <==> k in ps {
      BindLookup(map[], ps, args, k);
    }
    forall i | 0 <= i < |ps| ensures Bind(map[], ps, args)[ps[i]] == ArgAt(args, i) {
      BindLookup(map[], ps, args, ps[i]);
      assert LastIndex(ps, ps[i]) == i;
    }
  }

  /** The frame `eval_letrec` builds first: every name bound to `:dummy`. */
  function Placeholders(ps: seq<Expr>): Frame
  {
    map p | p in ps :: Value.Sym("dummy")
  }

  // ----- lookup -----

  /** `env.find { |alist| alist.key?(var) }`, as a position in the array. */
  function FindFrame(key: Expr, ids: seq<FrameId>, st: Store): (r: Option<nat>)
    ensures r.Some? ==> r.value < |ids| && key in FrameAt(st, ids[r.value])
    ensures r.Some? ==> forall j :: 0 <= j < r.value ==> key !in FrameAt(st, ids[j])
    ensures r.None? ==> forall j :: 0 <= j < |ids| ==> key !in FrameAt(st, ids[j])
  {
    if |ids| == 0 then None
    else if key in FrameAt(st, ids[0]) then Some(0)
    else
      match FindFrame(key, ids[1..], st)
      case Some(i) => Some(i + 1)
      case None => None
  }

  /** Position i of the environment array is the innermost frame binding key. */
  predicate BindsFirst(st: Store, env: EnvRef, key: Expr, i: nat)
  {
    var ids := EnvFrames(st, env);
    i < |ids| && key in FrameAt(st, ids[i]) &&
    forall j :: 0 <= j < i ==> key !in FrameAt(st, ids[j])
  }

  /** `lookup_var_ref`: the frame that binds the name, innermost first. */
  function LookupVarRef(key: Expr, env: EnvRef, st: Store): (r: Option<FrameId>)
    ensures r.Some? <==> exists i :: BindsFirst(st, env, key, i)
    ensures forall i: nat | BindsFirst(st, env, key, i) :: r == Some(EnvFrames(st, env)[i])
  {
    match FindFrame(key, EnvFrames(st, env), st)
    case Some(i) => assert BindsFirst(st, env, key, i); Some(EnvFrames(st, env)[i])
    case None => None
  }

  /** `lookup_var`: the value from the innermost frame that binds the name,
      or None where Ruby raises "couldn't find value to variables". */
  function LookupVar(key: Expr, env: EnvRef, st: Store): (r: Option<Value>)
    ensures r.Some? <==> exists i :: BindsFirst(st, env, key, i)
    ensures forall i: nat | BindsFirst(st, env, key, i) ::
              r == Some(FrameAt(st, EnvFrames(st, env)[i])[key])
  {
    match LookupVarRef(key, env, st)
    case Some(fid) => Some(FrameAt(st, fid)[key])
    case None => None
  }

  /** Where a name is found depends only on which frames bind that name. */
  lemma {:induction false} FindFrameSameKeys(key: Expr, ids: seq<FrameId>, st: Store, st': Store)
    requires forall i :: 0 <= i < |ids| ==> (key in FrameAt(st, ids[i]) <==> key in FrameAt(st', ids[i]))
    ensures FindFrame(key, ids, st) == FindFrame(key, ids, st')
  {
    if |ids| > 0 {
      FindFrameSameKeys(key, ids[1..], st, st');
    }
  }

  // ----- the operations that change the store -----

  /** `[h] + env`: a fresh frame and a fresh array that lists it in front of
      the frames of env.  The old array and all old frames stay as they were
      and are shared with the new array. */
  function ExtendEnvFrame(st: Store, h: Frame, env: EnvRef): (r: (EnvRef, Store))
    ensures Extends(st, r.1)
    ensures r.0 == |st.envs| && |r.1.envs| == |st.envs| + 1 && |r.1.frames| == |st.frames| + 1
    ensures EnvFrames(r.1, r.0) == [|st.frames|] + EnvFrames(st, env)
    ensures FrameAt(r.1, |st.frames|) == h
    ensures WellFormed(st) ==> WellFormed(r.1)
  {
    (|st.envs|, Store(st.frames + [h], st.envs + [[|st.frames|] + EnvFrames(st, env)]))
  }

  /** `extend_env(parameters, args, env)`. */
  function ExtendEnv(st: Store, ps: seq<Expr>, args: seq<Value>, env: EnvRef): (EnvRef, Store)
  {
    ExtendEnvFrame(st, Bind(map[], ps, args), env)
  }

  /** `env.unshift(h)` (`extend_env!`): the same array now starts with a
      fresh frame; no other array changes. */
  function UnshiftFrame(st: Store, h: Frame, env: EnvRef): (r: Store)
    ensures Grows(st, r)
    ensures WellFormed(st) ==> WellFormed(r)
    ensures r.frames == st.frames + [h]
    ensures forall e :: e != env ==> EnvFrames(r, e) == EnvFrames(st, e)
    ensures env < |st.envs| ==> EnvFrames(r, env) == [|st.frames|] + EnvFrames(st, env)
  {
    if env < |st.envs| then
      var ids := [|st.frames|] + st.envs[env];
      assert ids[1..] == st.envs[env];
      Store(st.frames + [h], st.envs[env := ids])
    else Store(st.frames + [h], st.envs)
  }

  /** `var_ref[var] = val`: overwrite an entry of an existing frame. */
  function WriteFrame(st: Store, fid: FrameId, k: Expr, v: Value): (r: Store)
    ensures Grows(st, r)
    ensures WellFormed(st) ==> WellFormed(r)
    ensures r.envs == st.envs && |r.frames| == |st.frames|
    ensures forall f :: f != fid ==> FrameAt(r, f) == FrameAt(st, f)
    ensures fid < |st.frames| ==> FrameAt(r, fid) == FrameAt(st, fid)[k := v]
  {
    if fid < |st.frames| then Store(st.frames[fid := st.frames[fid][k := v]], st.envs)
    else st
  }

  /** `set_extend_env!`: store each name with its value in `ext_env[0]`, the
      frame at the front of the array at that moment. */
  function SetExtendEnv(st: Store, ps: seq<Expr>, vals: seq<Value>, env: EnvRef): (r: Store)
    ensures Grows(st, r)
    ensures WellFormed(st) ==> WellFormed(r)
    ensures r.envs == st.envs && |r.frames| == |st.frames|
  {
    var ids := EnvFrames(st, env);
    if |ids| == 0 || ids[0] >= |st.frames| then st
    else
      BindLookupKeys(st.frames[ids[0]], ps, vals);
      Store(st.frames[ids[0] := Bind(st.frames[ids[0]], ps, vals)], st.envs)
  }

  lemma BindLookupKeys(m: Frame, ps: seq<Expr>, args: seq<Value>)
    ensures m.Keys <= Bind(m, ps, args).Keys
  {
    forall k | k in m ensures k in Bind(m, ps, args) {
      BindLookup(m, ps, args, k);
    }
  }

  // ----- what each operation does to lookups -----

  /** Allocation changes no lookup through an existing environment. */
  lemma ExtendsLookup(st: Store, st': Store, env: EnvRef, key: Expr)
    requires WellFormed(st) && Extends(st, st') && env < |st.envs|
    ensures LookupVar(key, env, st') == LookupVar(key, env, st)
    ensures LookupVarRef(key, env, st') == LookupVarRef(key, env, st)
  {
    assert st'.envs[env] == st'.envs[..|st.envs|][env];
    var ids := EnvFrames(st, env);
    forall i | 0 <= i < |ids| ensures FrameAt(st, ids[i]) == FrameAt(st', ids[i]) {
      assert st'.frames[ids[i]] == st'.frames[..|st.frames|][ids[i]];
    }
    FindFrameSameKeys(key, ids, st, st');
  }

  /** Shadowing: through the extended environment a name resolves to the new
      frame's binding when it has one, and as before otherwise. */
  lemma LookupAfterExtend(st: Store, h: Frame, env: EnvRef, key: Expr)
    requires WellFormed(st)
    ensures var (ne, st') := ExtendEnvFrame(st, h, env);
      LookupVar(key, ne, st') == if key in h then Some(h[key]) else LookupVar(key, env, st)
  {
    var (ne, st') := ExtendEnvFrame(st, h, env);
    var ids := EnvFrames(st, env);
    assert EnvFrames(st', ne) == [|st.frames|] + ids;
    if key !in h {
      forall i | 0 <= i < |ids| ensures FrameAt(st, ids[i]) == FrameAt(st', ids[i]) {
        assert ids[i] < |st.frames|;
        assert st'.frames[ids[i]] == st.frames[ids[i]];
      }
      FindFrameSameKeys(key, ids, st, st');
      assert ([|st.frames|] + ids)[1..] == ids;
    }
  }

  /** `extend_env` binds the parameters positionally in front of the captured
      environment; all other names resolve as they did. */
  lemma LookupAfterExtendEnv(st: Store, ps: seq<Expr>, args: seq<Value>, env: EnvRef, key: Expr)
    requires WellFormed(st)
    ensures var (ne, st') := ExtendEnv(st, ps, args, env);
      LookupVar(key, ne, st') ==
        if key in ps then Some(ArgAt(args, LastIndex(ps, key))) else LookupVar(key, env, st)
  {
    LookupAfterExtend(st, Bind(map[], ps, args), env, key);
    BindLookup(map[], ps, args, key);
  }

  /** An in-place overwrite of an existing entry is seen through exactly those
      environments whose innermost binding of the name is in that frame;
      every other lookup is unchanged. */
  lemma LookupAfterWrite(st: Store, fid: FrameId, k: Expr, v: Value, env: EnvRef, key: Expr)
    requires fid < |st.frames| && k in st.frames[fid]
    ensures LookupVar(key, env, WriteFrame(st, fid, k, v)) ==
      if key == k && LookupVarRef(k, env, st) == Some(fid) then Some(v) else LookupVar(key, env, st)
  {
    var st' := WriteFrame(st, fid, k, v);
    var ids := EnvFrames(st, env);
    assert EnvFrames(st', env) == ids;
    forall i | 0 <= i < |ids| ensures FrameAt(st, ids[i]).Keys == FrameAt(st', ids[i]).Keys {
    }
    FindFrameSameKeys(key, ids, st, st');
  }

  /** After `extend_env!` the same environment array resolves the new name to
      its value, and every other name as before. */
  lemma LookupAfterUnshift(st: Store, k: Expr, v: Value, env: EnvRef, key: Expr)
    requires WellFormed(st) && env < |st.envs|
    ensures LookupVar(key, env, UnshiftFrame(st, map[k := v], env)) ==
      if key == k then Some(v) else LookupVar(key, env, st)
  {
    var st' := UnshiftFrame(st, map[k := v], env);
    var ids := EnvFrames(st, env);
    if key != k {
      assert EnvFrames(st', env) == [|st.frames|] + ids;
      forall i | 0 <= i < |ids| ensures FrameAt(st, ids[i]) == FrameAt(st', ids[i]) {
        assert ids[i] < |st.frames|;
      }
      FindFrameSameKeys(key, ids, st, st');
      assert EnvFrames(st', env)[1..] == ids;
    } else {
      assert BindsFirst(st', env, key, 0);
    }
  }

  /** `extend_env!` touches no other environment array, not even one that
      `extend_env` copied from the same array earlier. */
  lemma UnshiftLeavesOthers(st: Store, h: Frame, env: EnvRef, other: EnvRef, key: Expr)
    requires WellFormed(st) && other != env && other < |st.envs|
    ensures LookupVar(key, other, UnshiftFrame(st, h, env)) == LookupVar(key, other, st)
  {
    var st' := UnshiftFrame(st, h, env);
    var ids := EnvFrames(st, other);
    assert EnvFrames(st', other) == ids;
    forall i | 0 <= i < |ids| ensures FrameAt(st, ids[i]) == FrameAt(st', ids[i]) {
      assert ids[i] < |st.frames|;
    }
    FindFrameSameKeys(key, ids, st, st');
  }

  /** After the letrec fix-up, every name resolves through the environment to
      the value the fix-up stored for its last occurrence. */
  lemma LookupAfterFixup(st: Store, ps: seq<Expr>, vals: seq<Value>, env: EnvRef, key: Expr)
    requires key in ps
    requires |EnvFrames(st, env)| > 0 && EnvFrames(st, env)[0] < |st.frames|
    ensures LookupVar(key, env, SetExtendEnv(st, ps, vals, env)) == Some(ArgAt(vals, LastIndex(ps, key)))
  {
    var st' := SetExtendEnv(st, ps, vals, env);
    var fid := EnvFrames(st, env)[0];
    BindLookup(st.frames[fid], ps, vals, key);
    assert BindsFirst(st', env, key, 0);
  }

  /** The fix-up changes no lookup of a name the letrec does not bind,
      through any environment array, including the arrays that share the
      fixed-up frame. */
  lemma FixupLeavesOthers(st: Store, ps: seq<Expr>, vals: seq<Value>, env: EnvRef, other: EnvRef, key: Expr)
    requires key !in ps
    ensures LookupVar(key, other, SetExtendEnv(st, ps, vals, env)) == LookupVar(key, other, st)
  {
    var st' := SetExtendEnv(st, ps, vals, env);
    var ids := EnvFrames(st, other);
    assert EnvFrames(st', other) == ids;
    var eids := EnvFrames(st, env);
    if |eids| > 0 && eids[0] < |st.frames| {
      var fid := eids[0];
      BindLookup(st.frames[fid], ps, vals, key);
      forall i | 0 <= i < |ids|
        ensures (key in FrameAt(st, ids[i]) <==> key in FrameAt(st', ids[i]))
        ensures key in FrameAt(st, ids[i]) ==> FrameAt(st', ids[i])[key] == FrameAt(st, ids[i])[key]
      {
      }
      FindFrameSameKeys(key, ids, st, st');
    }
  }
}
