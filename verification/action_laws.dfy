/** Laws of the action combinators: sequencing, conditionals, best effort. */
module ActionLaws {
  import opened Outcomes
  import opened Engine

  /** The world and result of running `actions[..i]`, the part of the list
      that comes before `actions[i]`. */
  function Before(env: Env, actions: seq<Action>, i: nat, ctx: Context, w: World): Run
    requires i <= |actions|
  {
    ApplyList(env, actions[..i], ctx, w)
  }

  /** What `actions[i]` does when its turn comes. */
  function Step(env: Env, actions: seq<Action>, i: nat, ctx: Context, w: World): Run
    requires i < |actions|
  {
    Apply(env, actions[i], ctx, Before(env, actions, i, ctx, w).world)
  }

  /** Running a concatenation is running the first part, then, unless it
      failed, the second part from where the first left off. */
  lemma {:induction false} ApplyListAppend(env: Env, xs: seq<Action>, ys: seq<Action>, ctx: Context, w: World)
    ensures ApplyList(env, xs + ys, ctx, w) ==
      var r := ApplyList(env, xs, ctx, w);
      if r.err.Some? then r else ApplyList(env, ys, ctx, r.world)
    decreases |xs|
  {
    if |xs| == 0 {
      assert xs + ys == ys;
    } else {
      assert (xs + ys)[0] == xs[0];
      assert (xs + ys)[1..] == xs[1..] + ys;
      var h := Apply(env, xs[0], ctx, w);
      if h.err.None? {
        ApplyListAppend(env, xs[1..], ys, ctx, h.world);
      }
    }
  }

  /** A one-element list is its element. */
  lemma ApplyListSingleton(env: Env, a: Action, ctx: Context, w: World)
    ensures ApplyList(env, [a], ctx, w) == Apply(env, a, ctx, w)
  {
    assert [a][1..] == [];
  }

  /** Extending a list by one action: the new action runs only if the list
      before it succeeded. */
  lemma ApplyListSnoc(env: Env, xs: seq<Action>, a: Action, ctx: Context, w: World)
    ensures ApplyList(env, xs + [a], ctx, w) ==
      var r := ApplyList(env, xs, ctx, w);
      if r.err.Some? then r else Apply(env, a, ctx, r.world)
  {
    ApplyListAppend(env, xs, [a], ctx, w);
    ApplyListSingleton(env, a, ctx, ApplyList(env, xs, ctx, w).world);
  }

  /** `ApplyList` on the empty list succeeds without touching the world. */
  lemma ApplyListEmpty(env: Env, ctx: Context, w: World)
    ensures ApplyList(env, [], ctx, w) == Run(w, None)
  {
  }

  /** Fail-fast: if every action before `actions[i]` succeeded and
      `actions[i]` fails, the whole list returns exactly that error and the
      world `actions[i]` left behind, so no later action is ever invoked. */
  lemma ApplyListStopsAtFirstError(env: Env, actions: seq<Action>, i: nat, ctx: Context, w: World)
    requires i < |actions|
    requires Before(env, actions, i, ctx, w).err.None?
    requires Step(env, actions, i, ctx, w).err.Some?
    ensures ApplyList(env, actions, ctx, w) == Step(env, actions, i, ctx, w)
  {
    assert actions == actions[..i] + [actions[i]] + actions[i + 1..];
    ApplyListAppend(env, actions[..i] + [actions[i]], actions[i + 1..], ctx, w);
    ApplyListSnoc(env, actions[..i], actions[i], ctx, w);
  }

  /** `ApplyList` succeeds exactly when every action, run in list order from
      the world its predecessors left, succeeds. */
  lemma {:induction false} ApplyListSucceedsIffEveryStep(env: Env, actions: seq<Action>, ctx: Context, w: World)
    ensures ApplyList(env, actions, ctx, w).err.None? <==>
      forall i | 0 <= i < |actions| :: Step(env, actions, i, ctx, w).err.None?
    decreases |actions|
  {
    if |actions| > 0 {
      var n := |actions| - 1;
      var xs := actions[..n];
      assert actions == xs + [actions[n]];
      ApplyListSnoc(env, xs, actions[n], ctx, w);
      ApplyListSucceedsIffEveryStep(env, xs, ctx, w);
      forall i | 0 <= i < n
        ensures Step(env, actions, i, ctx, w) == Step(env, xs, i, ctx, w)
      {
        assert actions[..i] == xs[..i];
      }
      assert actions[..n] == xs;
      assert Step(env, actions, n, ctx, w) == Apply(env, actions[n], ctx, ApplyList(env, xs, ctx, w).world);
      if ApplyList(env, xs, ctx, w).err.Some? {
        var j :| 0 <= j < n && Step(env, xs, j, ctx, w).err.Some?;
        assert Step(env, actions, j, ctx, w).err.Some?;
      }
    }
  }

  /** When `ApplyList` fails, there is an action that failed after all its
      predecessors succeeded, and the list's outcome is exactly that
      action's outcome: same error, same world, nothing after it ran. */
  lemma {:induction false} ApplyListFailsAtSomeStep(env: Env, actions: seq<Action>, ctx: Context, w: World)
    requires ApplyList(env, actions, ctx, w).err.Some?
    ensures exists i | 0 <= i < |actions| ::
      && Before(env, actions, i, ctx, w).err.None?
      && ApplyList(env, actions, ctx, w) == Step(env, actions, i, ctx, w)
    decreases |actions|
  {
    var n := |actions| - 1;
    var xs := actions[..n];
    assert actions == xs + [actions[n]];
    ApplyListSnoc(env, xs, actions[n], ctx, w);
    if ApplyList(env, xs, ctx, w).err.Some? {
      ApplyListFailsAtSomeStep(env, xs, ctx, w);
      var i :| 0 <= i < |xs| && Before(env, xs, i, ctx, w).err.None?
        && ApplyList(env, xs, ctx, w) == Step(env, xs, i, ctx, w);
      assert actions[..i] == xs[..i];
      assert Step(env, actions, i, ctx, w) == Step(env, xs, i, ctx, w);
    } else {
      assert actions[..n] == xs;
      assert ApplyList(env, actions, ctx, w) == Step(env, actions, n, ctx, w);
    }
  }

  /** Nesting `ApplyComposed` inside a list is the same as splicing its
      actions into the list: same trace, same output, same result. */
  lemma ComposedFlattens(env: Env, xs: seq<Action>, ys: seq<Action>, zs: seq<Action>, ctx: Context, w: World)
    ensures Apply(env, Composed(xs + [Composed(ys)] + zs), ctx, w) ==
            Apply(env, Composed(xs + ys + zs), ctx, w)
  {
    ApplyListAppend(env, xs + [Composed(ys)], zs, ctx, w);
    ApplyListSnoc(env, xs, Composed(ys), ctx, w);
    ApplyListAppend(env, xs + ys, zs, ctx, w);
    ApplyListAppend(env, xs, ys, ctx, w);
  }

  /** `ApplyList([Message(m1), Fatal(f), Message(m2)])` writes `m1` and then
      "ERROR: f", never writes `m2`, and fails with the error "ERROR: f". */
  lemma FatalStopsTheList(env: Env, m1: string, f: string, m2: string, ctx: Context, w: World)
    ensures ApplyList(env, [Message(m1), Fatal(f), Message(m2)], ctx, w) ==
      Run(World(w.trace, w.out + [m1, "ERROR: " + f]), Some(Error("ERROR: " + f)))
  {
    var w1 := World(w.trace, w.out + [m1]);
    assert [Message(m1), Fatal(f), Message(m2)][1..] == [Fatal(f), Message(m2)];
    assert ApplyList(env, [Message(m1), Fatal(f), Message(m2)], ctx, w) ==
      ApplyList(env, [Fatal(f), Message(m2)], ctx, w1);
    assert w1.out + ["ERROR: " + f] == w.out + [m1, "ERROR: " + f];
  }

  /** A `Fatal` anywhere in a list aborts it: once the actions before it
      succeed, its line is the last output and its error is the result. */
  lemma FatalAborts(env: Env, pre: seq<Action>, f: string, post: seq<Action>, ctx: Context, w: World)
    requires ApplyList(env, pre, ctx, w).err.None?
    ensures var p := ApplyList(env, pre, ctx, w).world;
      ApplyList(env, pre + [Fatal(f)] + post, ctx, w) ==
      Run(World(p.trace, p.out + ["ERROR: " + f]), Some(Error("ERROR: " + f)))
  {
    ApplyListAppend(env, pre + [Fatal(f)], post, ctx, w);
    ApplyListSnoc(env, pre, Fatal(f), ctx, w);
  }

  /** An `ApplyFunc` leaf that fails aborts the list: once the actions
      before it succeed, the leaf's lines are the last output and its error,
      unchanged, is the list's result. */
  lemma LeafErrorAbortsList(env: Env, pre: seq<Action>, id: LeafId, post: seq<Action>, ctx: Context, w: World)
    requires ApplyList(env, pre, ctx, w).err.None?
    requires env.act(id, ctx, ApplyList(env, pre, ctx, w).world).err.Some?
    ensures var p := ApplyList(env, pre, ctx, w).world;
      var o := env.act(id, ctx, p);
      ApplyList(env, pre + [Leaf(id)] + post, ctx, w) ==
      Run(World(p.trace + [Call(ActionLeaf, id, ctx)], p.out + o.lines), o.err)
  {
    ApplyListAppend(env, pre + [Leaf(id)], post, ctx, w);
    ApplyListSnoc(env, pre, Leaf(id), ctx, w);
  }

  /** An error from the condition of `ApplyIf` is returned unchanged, even
      when the checker also answered `true`; the body never runs. */
  lemma IfLeafErrorWins(env: Env, id: LeafId, a: Action, ctx: Context, w: World)
    requires env.chk(id, ctx, w).err.Some?
    ensures var o := env.chk(id, ctx, w);
      Apply(env, If(LeafC(id), a), ctx, w) ==
      Run(World(w.trace + [Call(CheckLeaf, id, ctx)], w.out + o.lines), o.err)
  {
  }

  /** `ApplyIf(c, a)` is `ApplyIfElse(c, a, EmptyAction())`. */
  lemma IfIsIfElseEmpty(env: Env, c: Check, a: Action, ctx: Context, w: World)
    ensures Apply(env, If(c, a), ctx, w) == Apply(env, IfElse(c, a, Empty), ctx, w)
  {
  }

  /** The condition of `ApplyIfElse` is evaluated once: on error neither
      branch runs and the error is returned; otherwise exactly one branch
      runs, from the world the condition left, and its result is returned. */
  lemma IfElseRunsOneBranch(env: Env, c: Check, t: Action, f: Action, ctx: Context, w: World)
    ensures var v := Eval(env, c, ctx, w);
      var r := Apply(env, IfElse(c, t, f), ctx, w);
      && (v.err.Some? ==> r == Run(v.world, v.err))
      && (v.err.None? && v.pass ==> r == Apply(env, t, ctx, v.world))
      && (v.err.None? && !v.pass ==> r == Apply(env, f, ctx, v.world))
  {
  }

  /** Negating the condition of `ApplyIfElse` swaps its branches. */
  lemma IfElseNegatedSwaps(env: Env, c: Check, t: Action, f: Action, ctx: Context, w: World)
    ensures Apply(env, IfElse(Not(c), f, t), ctx, w) == Apply(env, IfElse(c, t, f), ctx, w)
  {
  }

  /** `ApplyTry(a)` never fails, and leaves exactly the trace and output
      that `a` leaves. */
  lemma TrySwallowsError(env: Env, a: Action, ctx: Context, w: World)
    ensures Apply(env, Try(a), ctx, w) == Run(Apply(env, a, ctx, w).world, None)
  {
  }

  /** A failure inside `ApplyTry` does not abort the surrounding list: the
      rest of the list runs from the world the failed action left. */
  lemma TryDoesNotAbortList(env: Env, pre: seq<Action>, a: Action, post: seq<Action>, ctx: Context, w: World)
    requires ApplyList(env, pre, ctx, w).err.None?
    ensures var p := ApplyList(env, pre, ctx, w).world;
      ApplyList(env, pre + [Try(a)] + post, ctx, w) ==
      ApplyList(env, post, ctx, Apply(env, a, ctx, p).world)
  {
    ApplyListAppend(env, pre + [Try(a)], post, ctx, w);
    ApplyListSnoc(env, pre, Try(a), ctx, w);
  }

  /** Actions built only from `EmptyAction`, `Message`, `ApplyTry` and
      composition of those cannot fail. */
  predicate CannotFail(a: Action)
  {
    match a
    case Empty => true
    case Message(_) => true
    case Try(_) => true
    case Composed(actions) => forall i | 0 <= i < |actions| :: CannotFail(actions[i])
    case _ => false
  }

  lemma {:induction false} CannotFailSucceeds(env: Env, a: Action, ctx: Context, w: World)
    requires CannotFail(a)
    ensures Apply(env, a, ctx, w).err.None?
    decreases a
  {
    if a.Composed? {
      CannotFailListSucceeds(env, a.actions, ctx, w);
    }
  }

  lemma {:induction false} CannotFailListSucceeds(env: Env, actions: seq<Action>, ctx: Context, w: World)
    requires forall i | 0 <= i < |actions| :: CannotFail(actions[i])
    ensures ApplyList(env, actions, ctx, w).err.None?
    decreases actions
  {
    if |actions| > 0 {
      CannotFailSucceeds(env, actions[0], ctx, w);
      var h := Apply(env, actions[0], ctx, w);
      CannotFailListSucceeds(env, actions[1..], ctx, h.world);
    }
  }
}
