/** The three `for ... range` loops of `internal/ssh/base.go`, written as
    loops with early returns, and proved to compute exactly what the
    recursive interpreter in `Engine` computes. */
module Loops {
  import opened Outcomes
  import opened Engine
  import ActionLaws
  import CheckLaws

  /** `ApplyList`: apply each action in order; return the first error. */
  method RunList(env: Env, actions: seq<Action>, ctx: Context, w: World) returns (world: World, err: Option<Error>)
    ensures Run(world, err) == ApplyList(env, actions, ctx, w)
  {
    world := w;
    for i := 0 to |actions|
      invariant ApplyList(env, actions[..i], ctx, w) == Run(world, None)
    {
      ActionLaws.ApplyListSnoc(env, actions[..i], actions[i], ctx, w);
      assert actions[..i + 1] == actions[..i] + [actions[i]];
      var r := Apply(env, actions[i], ctx, world);
      if r.err.Some? {
        ActionLaws.ApplyListStopsAtFirstError(env, actions, i, ctx, w);
        return r.world, r.err;
      }
      world := r.world;
    }
    assert actions[..|actions|] == actions;
    return world, None;
  }

  /** `CheckAnd`: `(false, err)` at the first error, `(false, nil)` at the
      first `false`, `(true, nil)` after the last check. */
  method RunAnd(env: Env, checks: seq<Check>, ctx: Context, w: World) returns (world: World, pass: bool, err: Option<Error>)
    ensures Verdict(world, pass, err) == EvalAnd(env, checks, ctx, w)
  {
    world := w;
    for i := 0 to |checks|
      invariant EvalAnd(env, checks[..i], ctx, w) == Verdict(world, true, None)
    {
      CheckLaws.EvalAndSnoc(env, checks[..i], checks[i], ctx, w);
      assert checks[..i + 1] == checks[..i] + [checks[i]];
      var r := Eval(env, checks[i], ctx, world);
      if r.err.Some? {
        CheckLaws.AndShortCircuits(env, checks, i, ctx, w);
        return r.world, false, r.err;
      }
      if !r.pass {
        CheckLaws.AndShortCircuits(env, checks, i, ctx, w);
        return r.world, false, None;
      }
      world := r.world;
    }
    assert checks[..|checks|] == checks;
    return world, true, None;
  }

  /** `CheckOr`: `(false, err)` at the first error, `(true, nil)` at the
      first `true`, `(false, nil)` after the last check. */
  method RunOr(env: Env, checks: seq<Check>, ctx: Context, w: World) returns (world: World, pass: bool, err: Option<Error>)
    ensures Verdict(world, pass, err) == EvalOr(env, checks, ctx, w)
  {
    world := w;
    for i := 0 to |checks|
      invariant EvalOr(env, checks[..i], ctx, w) == Verdict(world, false, None)
    {
      CheckLaws.EvalOrSnoc(env, checks[..i], checks[i], ctx, w);
      assert checks[..i + 1] == checks[..i] + [checks[i]];
      var r := Eval(env, checks[i], ctx, world);
      if r.err.Some? {
        CheckLaws.OrShortCircuits(env, checks, i, ctx, w);
        return r.world, false, r.err;
      }
      if r.pass {
        CheckLaws.OrShortCircuits(env, checks, i, ctx, w);
        return r.world, true, None;
      }
      world := r.world;
    }
    assert checks[..|checks|] == checks;
    return world, false, None;
  }
}
