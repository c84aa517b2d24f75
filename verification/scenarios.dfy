/** Small end-to-end plans built from the combinators, with the exact output
    and result each one produces. */
module Scenarios {
  import opened Outcomes
  import opened Engine

  /** Leaf check `id` always answers `b` without error and writes nothing. */
  ghost predicate Constant(env: Env, id: LeafId, b: bool, ctx: Context)
  {
    forall x :: env.chk(id, ctx, x) == ChkOut([], b, None)
  }

  /** `ApplyIf(CheckAnd(alwaysTrue, alwaysTrue), Message(m))` writes exactly
      `m`, succeeds, and invokes both checks in order. */
  lemma GuardedMessageRuns(env: Env, yes: LeafId, m: string, ctx: Context, w: World)
    requires Constant(env, yes, true, ctx)
    ensures var r := Apply(env, If(And([LeafC(yes), LeafC(yes)]), Message(m)), ctx, w);
      && r.err == None
      && r.world.out == w.out + [m]
      && r.world.trace == w.trace + [Call(CheckLeaf, yes, ctx), Call(CheckLeaf, yes, ctx)]
  {
    var cs := [LeafC(yes), LeafC(yes)];
    var w1 := World(w.trace + [Call(CheckLeaf, yes, ctx)], w.out);
    var w2 := World(w1.trace + [Call(CheckLeaf, yes, ctx)], w.out);
    assert env.chk(yes, ctx, w) == ChkOut([], true, None);
    assert env.chk(yes, ctx, w1) == ChkOut([], true, None);
    assert Eval(env, cs[0], ctx, w) == Verdict(w1, true, None);
    assert cs[1..] == [LeafC(yes)];
    assert EvalAnd(env, cs, ctx, w) == EvalAnd(env, [LeafC(yes)], ctx, w1);
    assert Eval(env, LeafC(yes), ctx, w1) == Verdict(w2, true, None);
    assert EvalAnd(env, [LeafC(yes)], ctx, w1) == EvalAnd(env, [], ctx, w2);
    assert Eval(env, And(cs), ctx, w) == Verdict(w2, true, None);
  }

  /** `ApplyIf(CheckOr(alwaysFalse, alwaysFalse), Message(m))` writes
      nothing and succeeds, after invoking both checks in order. */
  lemma GuardedMessageSkipped(env: Env, no: LeafId, m: string, ctx: Context, w: World)
    requires Constant(env, no, false, ctx)
    ensures var r := Apply(env, If(Or([LeafC(no), LeafC(no)]), Message(m)), ctx, w);
      && r.err == None
      && r.world.out == w.out
      && r.world.trace == w.trace + [Call(CheckLeaf, no, ctx), Call(CheckLeaf, no, ctx)]
  {
    var cs := [LeafC(no), LeafC(no)];
    var w1 := World(w.trace + [Call(CheckLeaf, no, ctx)], w.out);
    var w2 := World(w1.trace + [Call(CheckLeaf, no, ctx)], w.out);
    assert env.chk(no, ctx, w) == ChkOut([], false, None);
    assert env.chk(no, ctx, w1) == ChkOut([], false, None);
    assert Eval(env, cs[0], ctx, w) == Verdict(w1, false, None);
    assert cs[1..] == [LeafC(no)];
    assert EvalOr(env, cs, ctx, w) == EvalOr(env, [LeafC(no)], ctx, w1);
    assert Eval(env, LeafC(no), ctx, w1) == Verdict(w2, false, None);
    assert EvalOr(env, [LeafC(no)], ctx, w1) == EvalOr(env, [], ctx, w2);
    assert Eval(env, Or(cs), ctx, w) == Verdict(w2, false, None);
  }

  /** `CheckAnd(alwaysFalse, c)` never invokes `c`: only the first leaf is
      in the trace. */
  lemma AndSkipsAfterFalse(env: Env, no: LeafId, c: Check, ctx: Context, w: World)
    requires Constant(env, no, false, ctx)
    ensures Eval(env, And([LeafC(no), c]), ctx, w) ==
      Verdict(World(w.trace + [Call(CheckLeaf, no, ctx)], w.out), false, None)
  {
    var w1 := World(w.trace + [Call(CheckLeaf, no, ctx)], w.out);
    assert env.chk(no, ctx, w) == ChkOut([], false, None);
    assert Eval(env, LeafC(no), ctx, w) == Verdict(w1, false, None);
    assert [LeafC(no), c][0] == LeafC(no);
  }
}
