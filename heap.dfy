/** The environment operations as the source performs them: loops that
    build hashes entry by entry and statements that update a hash or an
    array in place.  A `Heap` object holds the frames and arrays; each method
    is proved to leave exactly the store that the corresponding operation of
    module Environment describes, so every property proved about those
    operations holds of these methods. */
module Heap {
  import opened Wrappers
  import opened Syntax
  import opened Values
  import opened Environment
  import opened Primitives

  /** `alist = parameters.zip(args); h = Hash.new; alist.each { |k, v| h[k] = v }`:
      the hash `extend_env` and `extend_env!` build.  It binds exactly the
      parameters; each one to the argument at its last position, or to nil
      when the arguments run out. */
  method ZipIntoHash(ps: seq<Expr>, args: seq<Value>) returns (h: Frame)
    ensures h == Bind(map[], ps, args)
    ensures forall k :: k in h <==> k in ps
    ensures forall k | k in ps :: h[k] == ArgAt(args, LastIndex(ps, k))
  {
    h := map[];
    var i := 0;
    while i < |ps|
      invariant 0 <= i <= |ps|
      invariant h == Bind(map[], ps[..i], args)
    {
      assert ps[..i + 1][..i] == ps[..i];
      h := h[ps[i] := ArgAt(args, i)];
      i := i + 1;
    }
    assert ps[..|ps|] == ps;
    forall k ensures (k in h <==> k in ps) && (k in ps ==> h[k] == ArgAt(args, LastIndex(ps, k))) {
      BindLookup(map[], ps, args, k);
    }
  }

  /** `parameters.each { |parameter| tmp_env[parameter] = :dummy }`: the
      placeholder frame of `eval_letrec`. */
  method PlaceholderFrame(ps: seq<Expr>) returns (h: Frame)
    ensures h == Placeholders(ps)
    ensures forall k :: k in h <==> k in ps
  {
    h := map[];
    var i := 0;
    while i < |ps|
      invariant 0 <= i <= |ps|
      invariant h == map p | p in ps[..i] :: Value.Sym("dummy")
    {
      assert ps[..i + 1] == ps[..i] + [ps[i]];
      h := h[ps[i] := Value.Sym("dummy")];
      i := i + 1;
    }
    assert ps[..|ps|] == ps;
  }

  /** The frames and environment arrays in the interpreter's memory. */
  class Heap {
    var frames: seq<Frame>
    var envs: seq<seq<FrameId>>

    /** The heap as a value. */
    function State(): Store
      reads this
    {
      Store(frames, envs)
    }

    /** `$global_env`: one array of the three primitive frames. */
    constructor Global()
      ensures State() == GlobalStore()
    {
      frames := [ListFrame(), PrimFrame(), BoolFrame()];
      envs := [[0, 1, 2]];
    }

    /** `lookup_var_ref`: scan the array innermost first for a frame that
        binds the name. */
    method FindRef(key: Expr, env: EnvRef) returns (r: Option<FrameId>)
      ensures r == LookupVarRef(key, env, State())
      ensures r.Some? ==> key in FrameAt(State(), r.value)
    {
      var ids := EnvFrames(State(), env);
      var i := 0;
      while i < |ids|
        invariant 0 <= i <= |ids|
        invariant forall j :: 0 <= j < i ==> key !in FrameAt(State(), ids[j])
      {
        if key in FrameAt(State(), ids[i]) {
          assert BindsFirst(State(), env, key, i);
          return Some(ids[i]);
        }
        i := i + 1;
      }
      return None;
    }

    /** `lookup_var`: the value in that frame, or None where Ruby raises. */
    method Lookup(key: Expr, env: EnvRef) returns (r: Option<Value>)
      ensures r == LookupVar(key, env, State())
    {
      var ref := FindRef(key, env);
      if ref.Some? {
        r := Some(FrameAt(State(), ref.value)[key]);
      } else {
        r := None;
      }
    }

    /** `extend_env`: `[h] + env` is a fresh array listing the fresh frame
        in front of the frames env lists now; env itself is untouched. */
    method ExtendEnv(ps: seq<Expr>, args: seq<Value>, env: EnvRef) returns (ne: EnvRef)
      modifies this
      ensures (ne, State()) == Environment.ExtendEnv(old(State()), ps, args, env)
    {
      var h := ZipIntoHash(ps, args);
      var ids := EnvFrames(State(), env);
      ne := |envs|;
      envs := envs + [[|frames|] + ids];
      frames := frames + [h];
    }

    /** `extend_env!`: `env.unshift(h)` puts the fresh frame at the front of
        the very same array. */
    method ExtendEnvBang(ps: seq<Expr>, args: seq<Value>, env: EnvRef)
      modifies this
      ensures State() == UnshiftFrame(old(State()), Bind(map[], ps, args), env)
    {
      var h := ZipIntoHash(ps, args);
      if env < |envs| {
        envs := envs[env := [|frames|] + envs[env]];
      }
      frames := frames + [h];
    }

    /** `set_extend_env!`: `ext_env[0][parameter] = arg_val` for each pair,
        in order, into the frame at the front of the array. */
    method SetExtendEnvBang(ps: seq<Expr>, vals: seq<Value>, ext: EnvRef)
      modifies this
      ensures State() == SetExtendEnv(old(State()), ps, vals, ext)
    {
      var ids := EnvFrames(State(), ext);
      if |ids| == 0 || ids[0] >= |frames| {
        return;
      }
      var f := ids[0];
      var i := 0;
      while i < |ps|
        invariant 0 <= i <= |ps|
        invariant envs == old(envs)
        invariant frames == old(frames)[f := Bind(old(frames)[f], ps[..i], vals)]
      {
        assert ps[..i + 1][..i] == ps[..i];
        frames := frames[f := frames[f][ps[i] := ArgAt(vals, i)]];
        i := i + 1;
      }
      assert ps[..|ps|] == ps;
    }

    /** `var_ref[var] = val` in `eval_define`: overwrite the entry of a frame
        found by `lookup_var_ref`. */
    method DefineWrite(fid: FrameId, k: Expr, v: Value)
      modifies this
      ensures State() == WriteFrame(old(State()), fid, k, v)
    {
      if fid < |frames| {
        frames := frames[fid := frames[fid][k := v]];
      }
    }
  }
}
