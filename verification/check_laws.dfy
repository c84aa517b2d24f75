/** Laws of the check combinators: left-to-right short-circuit evaluation,
    error propagation, and agreement with boolean logic. */
module CheckLaws {
  import opened Outcomes
  import opened Engine

  /** What `CheckAnd(checks[..i]...)` answers: the checks before `checks[i]`. */
  function AndBefore(env: Env, checks: seq<Check>, i: nat, ctx: Context, w: World): Verdict
    requires i <= |checks|
  {
    EvalAnd(env, checks[..i], ctx, w)
  }

  /** What `checks[i]` answers when `CheckAnd` reaches it. */
  function AndStep(env: Env, checks: seq<Check>, i: nat, ctx: Context, w: World): Verdict
    requires i < |checks|
  {
    Eval(env, checks[i], ctx, AndBefore(env, checks, i, ctx, w).world)
  }

  /** What `CheckOr(checks[..i]...)` answers: the checks before `checks[i]`. */
  function OrBefore(env: Env, checks: seq<Check>, i: nat, ctx: Context, w: World): Verdict
    requires i <= |checks|
  {
    EvalOr(env, checks[..i], ctx, w)
  }

  /** What `checks[i]` answers when `CheckOr` reaches it. */
  function OrStep(env: Env, checks: seq<Check>, i: nat, ctx: Context, w: World): Verdict
    requires i < |checks|
  {
    Eval(env, checks[i], ctx, OrBefore(env, checks, i, ctx, w).world)
  }

  /** A check answered `true` without error. */
  predicate Passed(v: Verdict)
  {
    v.pass && v.err.None?
  }

  /** A check answered `false` without error. */
  predicate Refuted(v: Verdict)
  {
    !v.pass && v.err.None?
  }

  /** `CheckAnd` over a concatenation: the second part is evaluated only if
      the first part answered `true`. */
  lemma {:induction false} EvalAndAppend(env: Env, xs: seq<Check>, ys: seq<Check>, ctx: Context, w: World)
    ensures EvalAnd(env, xs + ys, ctx, w) ==
      var r := EvalAnd(env, xs, ctx, w);
      if r.pass then EvalAnd(env, ys, ctx, r.world) else r
    decreases |xs|
  {
    if |xs| == 0 {
      assert xs + ys == ys;
    } else {
      assert (xs + ys)[0] == xs[0];
      assert (xs + ys)[1..] == xs[1..] + ys;
      var h := Eval(env, xs[0], ctx, w);
      if h.err.None? && h.pass {
        EvalAndAppend(env, xs[1..], ys, ctx, h.world);
      }
    }
  }

  /** `CheckOr` over a concatenation: the second part is evaluated only if
      the first part answered `false` without error. */
  lemma {:induction false} EvalOrAppend(env: Env, xs: seq<Check>, ys: seq<Check>, ctx: Context, w: World)
    ensures EvalOr(env, xs + ys, ctx, w) ==
      var r := EvalOr(env, xs, ctx, w);
      if Refuted(r) then EvalOr(env, ys, ctx, r.world) else r
    decreases |xs|
  {
    if |xs| == 0 {
      assert xs + ys == ys;
    } else {
      assert (xs + ys)[0] == xs[0];
      assert (xs + ys)[1..] == xs[1..] + ys;
      var h := Eval(env, xs[0], ctx, w);
      if Refuted(h) {
        EvalOrAppend(env, xs[1..], ys, ctx, h.world);
      }
    }
  }

  lemma EvalAndSnoc(env: Env, xs: seq<Check>, c: Check, ctx: Context, w: World)
    ensures EvalAnd(env, xs + [c], ctx, w) ==
      var r := EvalAnd(env, xs, ctx, w);
      if !r.pass then r
      else
        var h := Eval(env, c, ctx, r.world);
        if h.err.Some? then Verdict(h.world, false, h.err) else h
  {
    EvalAndAppend(env, xs, [c], ctx, w);
    assert [c][1..] == [];
  }

  lemma EvalOrSnoc(env: Env, xs: seq<Check>, c: Check, ctx: Context, w: World)
    ensures EvalOr(env, xs + [c], ctx, w) ==
      var r := EvalOr(env, xs, ctx, w);
      if !Refuted(r) then r
      else
        var h := Eval(env, c, ctx, r.world);
        if h.err.Some? then Verdict(h.world, false, h.err) else h
  {
    EvalOrAppend(env, xs, [c], ctx, w);
    assert [c][1..] == [];
  }

  /** `CheckAnd()` with no checks is `(true, nil)`; `CheckOr()` is
      `(false, nil)`; neither touches the world. */
  lemma EmptyChecks(env: Env, ctx: Context, w: World)
    ensures EvalAnd(env, [], ctx, w) == Verdict(w, true, None)
    ensures EvalOr(env, [], ctx, w) == Verdict(w, false, None)
  {
  }

  /** Short circuit of `CheckAnd`: once every check before `checks[i]`
      answered `true`, a `false` or an error from `checks[i]` is the answer
      (`(false, nil)` or `(false, err)`), and no later check is invoked. */
  lemma AndShortCircuits(env: Env, checks: seq<Check>, i: nat, ctx: Context, w: World)
    requires i < |checks|
    requires AndBefore(env, checks, i, ctx, w).pass
    requires !Passed(AndStep(env, checks, i, ctx, w))
    ensures var s := AndStep(env, checks, i, ctx, w);
      EvalAnd(env, checks, ctx, w) == Verdict(s.world, false, s.err)
  {
    assert checks == checks[..i] + [checks[i]] + checks[i + 1..];
    EvalAndAppend(env, checks[..i] + [checks[i]], checks[i + 1..], ctx, w);
    EvalAndSnoc(env, checks[..i], checks[i], ctx, w);
  }

  /** Short circuit of `CheckOr`: once every check before `checks[i]`
      answered `false`, a `true` from `checks[i]` makes the answer
      `(true, nil)` and an error makes it `(false, err)`; no later check is
      invoked. */
  lemma OrShortCircuits(env: Env, checks: seq<Check>, i: nat, ctx: Context, w: World)
    requires i < |checks|
    requires Refuted(OrBefore(env, checks, i, ctx, w))
    requires !Refuted(OrStep(env, checks, i, ctx, w))
    ensures var s := OrStep(env, checks, i, ctx, w);
      EvalOr(env, checks, ctx, w) == Verdict(s.world, s.err.None?, s.err)
  {
    assert checks == checks[..i] + [checks[i]] + checks[i + 1..];
    EvalOrAppend(env, checks[..i] + [checks[i]], checks[i + 1..], ctx, w);
    EvalOrSnoc(env, checks[..i], checks[i], ctx, w);
  }

  /** `CheckAnd` answers `true` exactly when every check, evaluated in list
      order, answered `true` without error. */
  lemma {:induction false} AndTrueIffEveryStepPassed(env: Env, checks: seq<Check>, ctx: Context, w: World)
    ensures EvalAnd(env, checks, ctx, w).pass <==>
      forall i | 0 <= i < |checks| :: Passed(AndStep(env, checks, i, ctx, w))
    decreases |checks|
  {
    if |checks| > 0 {
      var n := |checks| - 1;
      var xs := checks[..n];
      assert checks == xs + [checks[n]];
      EvalAndSnoc(env, xs, checks[n], ctx, w);
      AndTrueIffEveryStepPassed(env, xs, ctx, w);
      forall i | 0 <= i < n
        ensures AndStep(env, checks, i, ctx, w) == AndStep(env, xs, i, ctx, w)
      {
        assert checks[..i] == xs[..i];
      }
      assert checks[..n] == xs;
      assert AndStep(env, checks, n, ctx, w) == Eval(env, checks[n], ctx, EvalAnd(env, xs, ctx, w).world);
      if !EvalAnd(env, xs, ctx, w).pass {
        var j :| 0 <= j < n && !Passed(AndStep(env, xs, j, ctx, w));
        assert !Passed(AndStep(env, checks, j, ctx, w));
      }
    }
  }

  /** `CheckOr` answers `(false, nil)` exactly when every check, evaluated
      in list order, answered `false` without error. */
  lemma {:induction false} OrFalseIffEveryStepRefuted(env: Env, checks: seq<Check>, ctx: Context, w: World)
    ensures Refuted(EvalOr(env, checks, ctx, w)) <==>
      forall i | 0 <= i < |checks| :: Refuted(OrStep(env, checks, i, ctx, w))
    decreases |checks|
  {
    if |checks| > 0 {
      var n := |checks| - 1;
      var xs := checks[..n];
      assert checks == xs + [checks[n]];
      EvalOrSnoc(env, xs, checks[n], ctx, w);
      OrFalseIffEveryStepRefuted(env, xs, ctx, w);
      forall i | 0 <= i < n
        ensures OrStep(env, checks, i, ctx, w) == OrStep(env, xs, i, ctx, w)
      {
        assert checks[..i] == xs[..i];
      }
      assert checks[..n] == xs;
      assert OrStep(env, checks, n, ctx, w) == Eval(env, checks[n], ctx, EvalOr(env, xs, ctx, w).world);
      if !Refuted(EvalOr(env, xs, ctx, w)) {
        var j :| 0 <= j < n && !Refuted(OrStep(env, xs, j, ctx, w));
        assert !Refuted(OrStep(env, checks, j, ctx, w));
      }
    }
  }

  /** `CheckNot(c)` negates only an error-free answer: on error it answers
      `(false, err)`; either way it leaves the world `c` leaves. */
  lemma NotNegatesOnlySuccess(env: Env, c: Check, ctx: Context, w: World)
    ensures Eval(env, Not(c), ctx, w) == NegateVerdict(Eval(env, c, ctx, w))
    ensures var v := Eval(env, c, ctx, w);
      var n := Eval(env, Not(c), ctx, w);
      && n.world == v.world && n.err == v.err
      && (v.err.Some? ==> !n.pass)
      && (v.err.None? ==> n.pass == !v.pass)
  {
  }

  /** A leaf check's error decides `CheckAnd` even when the leaf also
      answered `true`: the answer is `(false, err)`, the leaf's lines are
      written, and no later check is invoked. */
  lemma AndLeafErrorWins(env: Env, id: LeafId, rest: seq<Check>, ctx: Context, w: World)
    requires env.chk(id, ctx, w).err.Some?
    ensures var o := env.chk(id, ctx, w);
      Eval(env, And([LeafC(id)] + rest), ctx, w) ==
      Verdict(World(w.trace + [Call(CheckLeaf, id, ctx)], w.out + o.lines), false, o.err)
  {
    var cs := [LeafC(id)] + rest;
    assert cs[0] == LeafC(id);
    var h := Eval(env, cs[0], ctx, w);
    assert h == CallCheck(env, id, ctx, w);
    assert EvalAnd(env, cs, ctx, w) == Verdict(h.world, false, h.err);
  }

  /** `CheckNot(CheckNot(c))` agrees with `c` on world and error always, and
      on the boolean whenever `c` did not fail. */
  lemma DoubleNegation(env: Env, c: Check, ctx: Context, w: World)
    ensures var v := Eval(env, c, ctx, w);
      var nn := Eval(env, Not(Not(c)), ctx, w);
      && nn.world == v.world && nn.err == v.err
      && (v.err.None? ==> nn.pass == v.pass)
  {
  }

  /** Each check of a list wrapped in `CheckNot`. */
  function Negated(checks: seq<Check>): (r: seq<Check>)
    ensures |r| == |checks|
    ensures forall i | 0 <= i < |r| :: r[i] == Not(checks[i])
  {
    seq(|checks|, i requires 0 <= i < |checks| => Not(checks[i]))
  }

  lemma {:induction false} NegatedAndIsOrOfNegated(env: Env, checks: seq<Check>, ctx: Context, w: World)
    ensures NegateVerdict(EvalAnd(env, checks, ctx, w)) == EvalOr(env, Negated(checks), ctx, w)
    decreases |checks|
  {
    if |checks| > 0 {
      var h := Eval(env, checks[0], ctx, w);
      assert Negated(checks)[1..] == Negated(checks[1..]);
      if h.err.None? && h.pass {
        NegatedAndIsOrOfNegated(env, checks[1..], ctx, h.world);
      }
    }
  }

  lemma {:induction false} NegatedOrIsAndOfNegated(env: Env, checks: seq<Check>, ctx: Context, w: World)
    ensures NegateVerdict(EvalOr(env, checks, ctx, w)) == EvalAnd(env, Negated(checks), ctx, w)
    decreases |checks|
  {
    if |checks| > 0 {
      var h := Eval(env, checks[0], ctx, w);
      assert Negated(checks)[1..] == Negated(checks[1..]);
      if Refuted(h) {
        NegatedOrIsAndOfNegated(env, checks[1..], ctx, h.world);
      }
    }
  }

  /** De Morgan, down to the trace: `CheckNot(CheckAnd(cs...))` invokes the
      same checks in the same order, writes the same output and answers the
      same as `CheckOr` over the negated checks; dually for `CheckOr`. */
  lemma DeMorgan(env: Env, checks: seq<Check>, ctx: Context, w: World)
    ensures Eval(env, Not(And(checks)), ctx, w) == Eval(env, Or(Negated(checks)), ctx, w)
    ensures Eval(env, Not(Or(checks)), ctx, w) == Eval(env, And(Negated(checks)), ctx, w)
  {
    NegatedAndIsOrOfNegated(env, checks, ctx, w);
    NegatedOrIsAndOfNegated(env, checks, ctx, w);
  }

  /** No leaf check ever returns an error, whatever it answers and however
      its answer depends on what ran before. */
  ghost predicate LeavesNeverFail(env: Env)
  {
    forall id, ctx, w :: env.chk(id, ctx, w).err.None?
  }

  /** Combinators only pass errors on and never create one: if no leaf check
      fails, no check tree fails, even when the leaves' answers change from
      one call to the next. */
  lemma {:induction false} EvalNeverFails(env: Env, c: Check, ctx: Context, w: World)
    requires LeavesNeverFail(env)
    ensures Eval(env, c, ctx, w).err.None?
    decreases c
  {
    match c
    case LeafC(id) =>
    case And(cs) => EvalAndNeverFails(env, cs, ctx, w);
    case Or(cs) => EvalOrNeverFails(env, cs, ctx, w);
    case Not(inner) => EvalNeverFails(env, inner, ctx, w);
  }

  lemma {:induction false} EvalAndNeverFails(env: Env, checks: seq<Check>, ctx: Context, w: World)
    requires LeavesNeverFail(env)
    ensures EvalAnd(env, checks, ctx, w).err.None?
    decreases checks
  {
    if |checks| > 0 {
      EvalNeverFails(env, checks[0], ctx, w);
      EvalAndNeverFails(env, checks[1..], ctx, Eval(env, checks[0], ctx, w).world);
    }
  }

  lemma {:induction false} EvalOrNeverFails(env: Env, checks: seq<Check>, ctx: Context, w: World)
    requires LeavesNeverFail(env)
    ensures EvalOr(env, checks, ctx, w).err.None?
    decreases checks
  {
    if |checks| > 0 {
      EvalNeverFails(env, checks[0], ctx, w);
      EvalOrNeverFails(env, checks[1..], ctx, Eval(env, checks[0], ctx, w).world);
    }
  }

  /** The boolean meaning of a check tree when every leaf `id` means `val(id)`:
      `CheckAnd` is conjunction, `CheckOr` disjunction, `CheckNot` negation. */
  predicate Holds(c: Check, val: LeafId -> bool)
  {
    match c
    case LeafC(id) => val(id)
    case And(cs) => forall i | 0 <= i < |cs| :: Holds(cs[i], val)
    case Or(cs) => exists i | 0 <= i < |cs| :: Holds(cs[i], val)
    case Not(inner) => !Holds(inner, val)
  }

  /** Every leaf check answers `val(id)` without error, whatever the world. */
  ghost predicate Reliable(env: Env, val: LeafId -> bool)
  {
    forall id, ctx, w :: env.chk(id, ctx, w).err.None? && env.chk(id, ctx, w).pass == val(id)
  }

  /** When no leaf check fails, evaluation never fails and computes the
      boolean meaning of the tree: short-circuiting changes which leaves run,
      never the answer. */
  lemma {:induction false} EvalComputesHolds(env: Env, val: LeafId -> bool, c: Check, ctx: Context, w: World)
    requires Reliable(env, val)
    ensures Eval(env, c, ctx, w).err.None?
    ensures Eval(env, c, ctx, w).pass == Holds(c, val)
    decreases c
  {
    match c
    case LeafC(id) =>
    case And(cs) => EvalAndComputesAll(env, val, cs, ctx, w);
    case Or(cs) => EvalOrComputesAny(env, val, cs, ctx, w);
    case Not(inner) => EvalComputesHolds(env, val, inner, ctx, w);
  }

  lemma {:induction false} EvalAndComputesAll(env: Env, val: LeafId -> bool, checks: seq<Check>, ctx: Context, w: World)
    requires Reliable(env, val)
    ensures EvalAnd(env, checks, ctx, w).err.None?
    ensures EvalAnd(env, checks, ctx, w).pass <==> forall i | 0 <= i < |checks| :: Holds(checks[i], val)
    decreases checks
  {
    if |checks| > 0 {
      EvalComputesHolds(env, val, checks[0], ctx, w);
      var h := Eval(env, checks[0], ctx, w);
      EvalAndComputesAll(env, val, checks[1..], ctx, h.world);
      if h.pass {
        forall i | 0 <= i < |checks| && i != 0
          ensures checks[i] == checks[1..][i - 1]
        {
        }
      }
    }
  }

  lemma {:induction false} EvalOrComputesAny(env: Env, val: LeafId -> bool, checks: seq<Check>, ctx: Context, w: World)
    requires Reliable(env, val)
    ensures EvalOr(env, checks, ctx, w).err.None?
    ensures EvalOr(env, checks, ctx, w).pass <==> exists i | 0 <= i < |checks| :: Holds(checks[i], val)
    decreases checks
  {
    if |checks| > 0 {
      EvalComputesHolds(env, val, checks[0], ctx, w);
      var h := Eval(env, checks[0], ctx, w);
      EvalOrComputesAny(env, val, checks[1..], ctx, h.world);
      if !h.pass {
        if exists i | 0 <= i < |checks| :: Holds(checks[i], val) {
          var i :| 0 <= i < |checks| && Holds(checks[i], val);
          assert checks[1..][i - 1] == checks[i];
        }
      }
    }
  }
}
