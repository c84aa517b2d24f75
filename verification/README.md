# Action/check combinator engine, modelled in Dafny

This project models the control-flow layer of a Terraform kubeadm provisioner.
A provisioning step is a tree of actions (`Applyer`). Conditional actions
consult a tree of boolean checks (`Checker`). The model covers:

- the leaf actions `EmptyAction`, `Message` and `Fatal`;
- sequencing with `ApplyList` and `ApplyComposed`;
- the conditionals `ApplyIf` and `ApplyIfElse`;
- best-effort execution with `ApplyTry`;
- the short-circuit checks `CheckAnd`, `CheckOr` and `CheckNot`.

Each caller-supplied closure (`ApplyFunc`, `CheckerFunc`) becomes a leaf
node, `Leaf(id)` or `LeafC(id)`. An oracle `Env` decides what a leaf does
when it is invoked:

- an action leaf returns the lines it writes and an optional error;
- a check leaf returns the lines it writes, a bool and an optional error.

The oracle may depend on everything that happened before, because the remote
side is stateful. Like Go, a check leaf may answer `true` together with an
error.

The interpreter threads a `World` through each run. It holds the trace of
leaf invocations, each with the context it was handed, and the lines written
to the output sink. Each run returns the new world and the error, or for
checks the `(bool, error)` pair.

Files:

- `outcomes.dfy` (module `Outcomes`): `Option` and the `Error` value.
- `engine.dfy` (module `Engine`): the data model and the recursive interpreter.
- `action_laws.dfy` (module `ActionLaws`): laws of sequencing, conditionals and `ApplyTry`.
- `check_laws.dfy` (module `CheckLaws`): short-circuit laws, De Morgan, double negation, and agreement with boolean logic.
- `loops.dfy` (module `Loops`): the source's three `for … range` loops, written as loops with early returns, each proved equal to the recursive definition.
- `scenarios.dfy` (module `Scenarios`): small end-to-end plans with their exact output.

Two facts about the code shape the model:

- `Fatal`'s error text is exactly the line it writes, `"ERROR: " + msg` (internal/ssh/base.go:45-46).
- Nothing in the code stops a check closure from writing output. So a check leaf may write lines, and its answer may depend on what ran before.

## Model

| member | source | states |
|---|---|---|
| Engine.FatalText | internal/ssh/base.go:42-48 | the text `Fatal` writes and fails with is the prefix "ERROR: " followed by the message unchanged |
| Engine.CallAction | internal/ssh/base.go:15-25 | invoking an `ApplyFunc` leaf appends exactly one trace entry, that leaf with the caller's context; the lines written and the error returned are exactly the closure's |
| Engine.CallCheck | internal/ssh/base.go:74-80 | invoking a `CheckerFunc` leaf appends exactly one trace entry, that leaf with the caller's context; the lines, the bool and the error are exactly the closure's, including `(true, err)` |
| Engine.NegateVerdict | internal/ssh/base.go:156-160 | `CheckNot`'s step: same world and error, `false` on error, otherwise the negated answer |
| Engine.Apply | internal/ssh/base.go:27-119 | every action tree only appends to the trace and output, and every leaf it invokes gets the same communicator and `useSudo` it was given |
| Engine.ApplyList | internal/ssh/base.go:51-58 | running a list only appends to the trace and output, and passes the caller's context to every leaf |
| Engine.Eval | internal/ssh/base.go:154-162 | a combinator check that returns an error always answers false (`CheckNot` never negates an error); context is threaded unchanged |
| Engine.EvalAnd | internal/ssh/base.go:122-135 | `CheckAnd` answers false whenever it returns an error; context is threaded unchanged |
| Engine.EvalOr | internal/ssh/base.go:138-151 | `CheckOr` answers false whenever it returns an error; context is threaded unchanged |
| ActionLaws.ApplyListAppend | internal/ssh/base.go:51-58 | running `xs + ys` equals running `xs`, then `ys` from where `xs` stopped, unless `xs` failed |
| ActionLaws.ApplyListEmpty | internal/ssh/base.go:57 | an empty list returns nil and changes nothing |
| ActionLaws.ApplyListStopsAtFirstError | internal/ssh/base.go:52-55 | if every action before `i` succeeded and action `i` fails, the list returns that error unchanged and the world action `i` left, so no later action is invoked |
| ActionLaws.ApplyListSucceedsIffEveryStep | internal/ssh/base.go:51-58 | the list returns nil exactly when every action, run in order from its predecessors' world, returned nil |
| ActionLaws.ApplyListFailsAtSomeStep | internal/ssh/base.go:52-55 | a failing list has a first failing action whose outcome is exactly the list's outcome |
| ActionLaws.ComposedFlattens | internal/ssh/base.go:61-65 | an `ApplyComposed` nested in a list behaves like its actions spliced into the list: same trace, output and result |
| ActionLaws.FatalStopsTheList | internal/ssh/base.go:42-58 | `[Message(m1), Fatal(f), Message(m2)]` outputs `m1` and "ERROR: f", never outputs `m2`, and fails with "ERROR: f" |
| ActionLaws.FatalAborts | internal/ssh/base.go:42-48 | after a successful prefix, a `Fatal` writes its line last and its error is the list's result, whatever follows |
| ActionLaws.LeafErrorAbortsList | internal/ssh/base.go:52-55 | a failing `ApplyFunc` leaf after a successful prefix ends the list: its lines are the last output and its error, unchanged, is the result |
| ActionLaws.IfLeafErrorWins | internal/ssh/base.go:85-88 | a checker error in `ApplyIf`'s condition is returned unchanged even when the checker also answered true; the body never runs |
| ActionLaws.IfIsIfElseEmpty | internal/ssh/base.go:83-95 | `ApplyIf(c, a)` is `ApplyIfElse(c, a, EmptyAction())` in trace, output and result |
| ActionLaws.IfElseRunsOneBranch | internal/ssh/base.go:98-110 | the condition is evaluated once; on its error neither branch runs and the error is returned; otherwise only the chosen branch runs and its result is returned |
| ActionLaws.IfElseNegatedSwaps | internal/ssh/base.go:98-110 | `ApplyIfElse(CheckNot(c), f, t)` equals `ApplyIfElse(c, t, f)` |
| ActionLaws.TrySwallowsError | internal/ssh/base.go:114-119 | `ApplyTry(a)` returns nil and leaves exactly `a`'s trace and output |
| ActionLaws.TryDoesNotAbortList | internal/ssh/base.go:114-119 | a failing action under `ApplyTry` does not stop the enclosing list: the rest runs from where it left off |
| ActionLaws.CannotFailSucceeds | internal/ssh/base.go:27-40 | trees built only from `EmptyAction`, `Message`, `ApplyTry` and composition of those never return an error |
| ActionLaws.CannotFailListSucceeds | internal/ssh/base.go:51-58 | a list of actions that cannot fail returns nil |
| CheckLaws.EvalAndAppend | internal/ssh/base.go:122-135 | `CheckAnd` over `xs + ys` evaluates `ys` only if `xs` answered true, starting from where `xs` stopped |
| CheckLaws.EvalOrAppend | internal/ssh/base.go:138-151 | `CheckOr` over `xs + ys` evaluates `ys` only if `xs` answered false without error |
| CheckLaws.EmptyChecks | internal/ssh/base.go:122-151 | `CheckAnd()` is `(true, nil)` and `CheckOr()` is `(false, nil)`, and neither changes anything |
| CheckLaws.AndShortCircuits | internal/ssh/base.go:124-131 | after an all-true prefix, a false or error from check `i` is `CheckAnd`'s answer (`(false, nil)` / `(false, err)`), and no later check runs |
| CheckLaws.OrShortCircuits | internal/ssh/base.go:140-147 | after an all-false prefix, check `i` answering true gives `(true, nil)` and an error gives `(false, err)`; no later check runs |
| CheckLaws.AndTrueIffEveryStepPassed | internal/ssh/base.go:122-135 | `CheckAnd` answers true exactly when every check, evaluated in order, answered true without error |
| CheckLaws.OrFalseIffEveryStepRefuted | internal/ssh/base.go:138-151 | `CheckOr` answers `(false, nil)` exactly when every check, evaluated in order, answered false without error |
| CheckLaws.NotNegatesOnlySuccess | internal/ssh/base.go:154-162 | `CheckNot(c)` keeps `c`'s world and error, answers false on error and `!b` otherwise |
| CheckLaws.AndLeafErrorWins | internal/ssh/base.go:125-128 | a checker error decides `CheckAnd` as `(false, err)` even when the checker also answered true, and no later check runs |
| CheckLaws.DoubleNegation | internal/ssh/base.go:154-162 | `CheckNot(CheckNot(c))` agrees with `c` on world and error, and on the bool whenever `c` did not fail |
| CheckLaws.NegatedAndIsOrOfNegated | internal/ssh/base.go:122-162 | negating `CheckAnd`'s verdict equals `CheckOr` over the negated checks |
| CheckLaws.NegatedOrIsAndOfNegated | internal/ssh/base.go:122-162 | negating `CheckOr`'s verdict equals `CheckAnd` over the negated checks |
| CheckLaws.DeMorgan | internal/ssh/base.go:122-162 | `CheckNot(CheckAnd(cs))` equals `CheckOr` of the negated checks, down to trace and output, and dually |
| CheckLaws.EvalNeverFails | internal/ssh/base.go:122-162 | when no leaf check ever errors, even if its answers change from call to call, no check tree errors: `CheckAnd`, `CheckOr` and `CheckNot` only pass errors on |
| CheckLaws.EvalComputesHolds | internal/ssh/base.go:122-162 | when every leaf check answers a fixed `val(id)` without error, whatever ran before and whatever context it gets, a check tree never errors and answers its boolean meaning: And is conjunction, Or disjunction, Not negation |
| CheckLaws.EvalAndComputesAll | internal/ssh/base.go:122-135 | when every leaf check answers a fixed `val(id)` without error in every world and context, `CheckAnd` answers true exactly when every check holds |
| CheckLaws.EvalOrComputesAny | internal/ssh/base.go:138-151 | when every leaf check answers a fixed `val(id)` without error in every world and context, `CheckOr` answers true exactly when some check holds |
| Loops.RunList | internal/ssh/base.go:51-58 | the `for … range` loop with early return computes exactly the recursive `ApplyList` |
| Loops.RunAnd | internal/ssh/base.go:122-135 | the `CheckAnd` loop computes exactly the recursive `CheckAnd` |
| Loops.RunOr | internal/ssh/base.go:138-151 | the `CheckOr` loop computes exactly the recursive `CheckOr` |
| Scenarios.GuardedMessageRuns | internal/ssh/base.go:83-95 | `ApplyIf(CheckAnd(alwaysTrue, alwaysTrue), Message(m))` writes exactly `m`, succeeds, and invokes both checks |
| Scenarios.GuardedMessageSkipped | internal/ssh/base.go:83-95 | `ApplyIf(CheckOr(alwaysFalse, alwaysFalse), Message(m))` writes nothing and succeeds |
| Scenarios.AndSkipsAfterFalse | internal/ssh/base.go:124-131 | `CheckAnd(alwaysFalse, c)` answers `(false, nil)` and never invokes `c` |

## Left out

- `OutputFunc` (internal/ssh/base.go:166-168) is a one-line adapter with no behaviour. The output sink is modelled as the appended `out` sequence of the `World`.
- The real implementations of the communicator and of the `terraform.UIOutput` sink are left out. The communicator is an opaque `Session` handle that is passed unchanged, and the sink is the `out` sequence. Remote command execution is I/O and lies behind the leaf oracle.
- `useSudo` is never inspected by the combinators. It is only carried in the `Context`, and the model proves that every leaf receives the caller's context (`Extends`).
- `ApplyComposed`, `CheckAnd` and `CheckOr` keep the variadic slice they were given (internal/ssh/base.go:61-63, 122-124, 138-140). So a caller that later assigns to an element of that slice changes what the combinator runs. The model's `Composed`, `And` and `Or` nodes fix their children when the node is built, so this aliasing is not modelled.
- `fmt.Sprintf`/`fmt.Errorf` formatting: an error is modelled by its text only.
- The leaf oracle is total. A closure that panics or never returns is not modelled, and neither is a nil `Applyer`/`Checker` anywhere in a tree, which would panic in Go.
- pkg/provisioner/action_init.go is kubeadm-specific plumbing built on a different action API, and is not part of this model.
