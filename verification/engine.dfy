/** The action/check combinator engine of `internal/ssh/base.go`.

    A provisioning step is a tree of actions; conditional actions consult a
    tree of boolean checks. Caller-supplied closures (`ApplyFunc`,
    `CheckerFunc`) are the leaves `Leaf(id)` and `LeafC(id)`; what a leaf does
    when it is invoked is given by an oracle `Env`, which may depend on
    everything that happened before (the remote side is stateful).

    Running a tree threads a `World`: the trace of leaf invocations, each with
    the context it received, and the lines written to the output sink so far.
 */
module Engine {
  import opened Outcomes

  /** Identity of a caller-supplied closure. */
  type LeafId = nat

  /** The communicator handle: opaque, never inspected by the engine. */
  datatype Session = Session(handle: nat)

  /** The execution context every `Apply`/`Check` receives: the
      communicator and the `useSudo` flag. The output sink is the `out`
      field of the `World`. */
  datatype Context = Context(session: Session, useSudo: bool)

  datatype Kind = ActionLeaf | CheckLeaf

  /** One invocation of a caller-supplied closure, with the context it got. */
  datatype Call = Call(kind: Kind, id: LeafId, ctx: Context)

  /** Everything observable so far: leaf invocations in order, and the
      lines written to the output sink in order. */
  datatype World = World(trace: seq<Call>, out: seq<string>)

  /** What an `ApplyFunc` leaf does: the lines it writes and its error. */
  datatype ActOut = ActOut(lines: seq<string>, err: Option<Error>)

  /** What a `CheckerFunc` leaf does: the lines it writes and its
      `(bool, error)` pair. Go lets a checker return `true` with an error. */
  datatype ChkOut = ChkOut(lines: seq<string>, pass: bool, err: Option<Error>)

  /** The behaviour of every caller-supplied closure, as a function of the
      leaf, the context it is handed and the world it runs in. */
  datatype Env = Env(act: (LeafId, Context, World) -> ActOut,
                     chk: (LeafId, Context, World) -> ChkOut)

  /** `Checker` trees: `CheckerFunc` leaves, `CheckAnd`, `CheckOr`, `CheckNot`. */
  datatype Check =
    | LeafC(id: LeafId)
    | And(checks: seq<Check>)
    | Or(checks: seq<Check>)
    | Not(inner: Check)

  /** `Applyer` trees: `EmptyAction`, `Message`, `Fatal`, `ApplyFunc` leaves,
      `ApplyComposed`, `ApplyIf`, `ApplyIfElse`, `ApplyTry`. */
  datatype Action =
    | Empty
    | Message(msg: string)
    | Fatal(msg: string)
    | Leaf(id: LeafId)
    | Composed(actions: seq<Action>)
    | If(cond: Check, body: Action)
    | IfElse(cond: Check, ifTrue: Action, ifFalse: Action)
    | Try(attempt: Action)

  /** Outcome of applying an action: the world afterwards and its error. */
  datatype Run = Run(world: World, err: Option<Error>)

  /** Outcome of a check: the world afterwards and its `(bool, error)`. */
  datatype Verdict = Verdict(world: World, pass: bool, err: Option<Error>)

  /** `Fatal` formats both its output line and its error as "ERROR: %s". */
  const ErrorPrefix: string := "ERROR: "

  function FatalText(msg: string): (t: string)
    ensures |t| == |ErrorPrefix| + |msg|
    ensures t[..|ErrorPrefix|] == ErrorPrefix && t[|ErrorPrefix|..] == msg
  {
    ErrorPrefix + msg
  }

  /** `w'` only adds to `w`: the trace and the output are extended, never
      rewritten, and every leaf invoked in between received `ctx`. */
  predicate Extends(w: World, w': World, ctx: Context)
  {
    && w.trace <= w'.trace
    && w.out <= w'.out
    && forall i | |w.trace| <= i < |w'.trace| :: w'.trace[i].ctx == ctx
  }

  /** Invokes the closure behind `LeafC(id)` (`CheckerFunc.Check`). */
  function CallCheck(env: Env, id: LeafId, ctx: Context, w: World): (r: Verdict)
    ensures Extends(w, r.world, ctx)
    ensures r.world.trace == w.trace + [Call(CheckLeaf, id, ctx)]
    ensures var o := env.chk(id, ctx, w);
      r.world.out == w.out + o.lines && r.pass == o.pass && r.err == o.err
  {
    var o := env.chk(id, ctx, w);
    Verdict(World(w.trace + [Call(CheckLeaf, id, ctx)], w.out + o.lines), o.pass, o.err)
  }

  /** Invokes the closure behind `Leaf(id)` (`ApplyFunc.Apply`). */
  function CallAction(env: Env, id: LeafId, ctx: Context, w: World): (r: Run)
    ensures Extends(w, r.world, ctx)
    ensures r.world.trace == w.trace + [Call(ActionLeaf, id, ctx)]
    ensures var o := env.act(id, ctx, w);
      r.world.out == w.out + o.lines && r.err == o.err
  {
    var o := env.act(id, ctx, w);
    Run(World(w.trace + [Call(ActionLeaf, id, ctx)], w.out + o.lines), o.err)
  }

  /** What `CheckNot` makes of its operand's verdict: an error is passed
      on with `false`, never negated; an answer without error is negated. */
  function NegateVerdict(v: Verdict): (r: Verdict)
    ensures r.world == v.world && r.err == v.err
    ensures r.err.Some? ==> !r.pass
    ensures r.err.None? ==> r.pass == !v.pass
  {
    if v.err.Some? then Verdict(v.world, false, v.err) else Verdict(v.world, !v.pass, None)
  }

  /** `Checker.Check` on a check tree. Only leaves may report `true`
      together with an error; every combinator answers `false` on error. */
  function Eval(env: Env, c: Check, ctx: Context, w: World): (r: Verdict)
    decreases c
    ensures Extends(w, r.world, ctx)
    ensures !c.LeafC? && r.err.Some? ==> !r.pass
  {
    match c
    case LeafC(id) => CallCheck(env, id, ctx, w)
    case And(cs) => EvalAnd(env, cs, ctx, w)
    case Or(cs) => EvalOr(env, cs, ctx, w)
    case Not(inner) => NegateVerdict(Eval(env, inner, ctx, w))
  }

  /** `CheckAnd(cs...)`: left to right, stop at the first error or `false`. */
  function EvalAnd(env: Env, cs: seq<Check>, ctx: Context, w: World): (r: Verdict)
    decreases cs
    ensures Extends(w, r.world, ctx)
    ensures r.err.Some? ==> !r.pass
  {
    if |cs| == 0 then Verdict(w, true, None)
    else
      var h := Eval(env, cs[0], ctx, w);
      if h.err.Some? then Verdict(h.world, false, h.err)
      else if !h.pass then Verdict(h.world, false, None)
      else EvalAnd(env, cs[1..], ctx, h.world)
  }

  /** `CheckOr(cs...)`: left to right, stop at the first error or `true`. */
  function EvalOr(env: Env, cs: seq<Check>, ctx: Context, w: World): (r: Verdict)
    decreases cs
    ensures Extends(w, r.world, ctx)
    ensures r.err.Some? ==> !r.pass
  {
    if |cs| == 0 then Verdict(w, false, None)
    else
      var h := Eval(env, cs[0], ctx, w);
      if h.err.Some? then Verdict(h.world, false, h.err)
      else if h.pass then Verdict(h.world, true, None)
      else EvalOr(env, cs[1..], ctx, h.world)
  }

  /** `Applyer.Apply` on an action tree. */
  function Apply(env: Env, a: Action, ctx: Context, w: World): (r: Run)
    decreases a
    ensures Extends(w, r.world, ctx)
  {
    match a
    case Empty => Run(w, None)
    case Message(msg) => Run(w.(out := w.out + [msg]), None)
    case Fatal(msg) => Run(w.(out := w.out + [FatalText(msg)]), Some(Error(FatalText(msg))))
    case Leaf(id) => CallAction(env, id, ctx, w)
    case Composed(actions) => ApplyList(env, actions, ctx, w)
    case If(cond, body) =>
      var v := Eval(env, cond, ctx, w);
      if v.err.Some? then Run(v.world, v.err)
      else if v.pass then Apply(env, body, ctx, v.world)
      else Run(v.world, None)
    case IfElse(cond, ifTrue, ifFalse) =>
      var v := Eval(env, cond, ctx, w);
      if v.err.Some? then Run(v.world, v.err)
      else if v.pass then Apply(env, ifTrue, ctx, v.world)
      else Apply(env, ifFalse, ctx, v.world)
    case Try(attempt) => Run(Apply(env, attempt, ctx, w).world, None)
  }

  /** `ApplyList(actions, ...)`: in list order, return the first error. */
  function ApplyList(env: Env, actions: seq<Action>, ctx: Context, w: World): (r: Run)
    decreases actions
    ensures Extends(w, r.world, ctx)
  {
    if |actions| == 0 then Run(w, None)
    else
      var h := Apply(env, actions[0], ctx, w);
      if h.err.Some? then h
      else ApplyList(env, actions[1..], ctx, h.world)
  }
}
