# stackbt behavior tree core, modelled in Dafny

This project models the core of the `behavior_tree` crate. That core is the
step contract every behavior tree node follows, and the serial branch
composition built on it.

A node is stepped with one input. Stepping consumes the node and gives back
one of two things:

- a nonterminal value together with a continuation node;
- a terminal value, with no node at all.

A serial branch node runs one variant of a closed family of subnodes at a
time. After each subnode step it asks a decider what to do next:

- keep stepping the same variant (`Step`);
- drop the subnode and build a fresh node of another variant (`Trans`);
- end the whole composite (`Exit`).

The homogeneous serial node is the same machine with a static decider. That
decider sees only the selector and the subnode's value, and the composite
echoes the subnode's own value.

Files and modules:

- `behavior_tree_node.dfy` (module `BehaviorTreeNode`): `Statepoint`, `NodeResult`, the `Try`
  conversions to and from `Result`, and the step contract. A node type is a value type together with
  a total step function (`Stepper`). `Drive` chains steps the way a caller does, and shows that
  nothing is stepped after a terminal result.
- `serial_node.dfy` (module `SerialNode`): the `EnumNode` and `SerialDecider` traits as records of
  total functions. It also holds the shape generated by `enum_node!`, as the tagged union `Tagged`
  with per-variant parts `VariantFamily`, plus the decisions, `NontermReturn` and `SerialBranchNode`.
- `homogeneous_serial_node.dfy` (module `HomogeneousSerialNode`): `NodeEnumeration`, its decisions,
  its static decider and `HomogeneousSerialNode`.
- `switcharound.dfy` (module `SerialSwitcharound`): the switcharound test of the serial node as a
  concrete machine. It includes the five-step trace and a proof that this machine never ends.

Traits cannot be used here, so every Rust trait becomes a datatype of functions that is passed
explicitly:

- `EnumNode` becomes `SerialNode.EnumNode`;
- `SerialDecider` becomes `SerialNode.SerialDecider`;
- `NodeEnumeration` becomes `HomogeneousSerialNode.NodeEnumeration`;
- the inner node's `BehaviorTreeNode::step` becomes a `Stepper` argument.

The Rust traits state no laws. The lemmas that need the natural ones take them as a `requires`:

- `EnumNodeLaws`: `discriminant_of(new(d)) == d`, and a nonterminal step keeps the variant;
- `NodeEnumerationLaws`: `discriminant(new(e)) == e` and `inner_val(from_existing(n)) == n`.

`GeneratedEnumNode` proves that the shape `enum_node!` generates satisfies `EnumNodeLaws`.

`EnumNode` in `serial_node.rs` has only `new` and `discriminant_of`. Attaching and detaching a node
exists only in the homogeneous node's `NodeEnumeration`, as `from_existing` and `inner_val`.

## Model

| member | source | states |
|---|---|---|
| BehaviorTreeNode.StatepointIntoResult | behavior_tree/src/behavior_tree_node.rs:21-26 | the result is `Ok` exactly for a nonterminal statepoint, carrying its value; a terminal becomes `Err` with its value |
| BehaviorTreeNode.StatepointFromOk | behavior_tree/src/behavior_tree_node.rs:32-34 | builds `Nonterminal(n)`, and converting it back gives `Ok(n)` |
| BehaviorTreeNode.StatepointFromError | behavior_tree/src/behavior_tree_node.rs:28-30 | builds `Terminal(t)`, and converting it back gives `Err(t)` |
| BehaviorTreeNode.StatepointRoundTrip | behavior_tree/src/behavior_tree_node.rs:21-34 | rebuilding a statepoint from its `Result` with `from_ok`/`from_error` gives the same statepoint |
| BehaviorTreeNode.NodeResultIntoResult | behavior_tree/src/behavior_tree_node.rs:56-61 | `Ok((r, n))` exactly for a nonterminal result with value `r` and continuation `n`; `Err(t)` for a terminal one |
| BehaviorTreeNode.NodeResultFromOk | behavior_tree/src/behavior_tree_node.rs:67-69 | builds `Nonterminal(r, n)` from the pair, which converts back to `Ok((r, n))` |
| BehaviorTreeNode.NodeResultFromError | behavior_tree/src/behavior_tree_node.rs:63-65 | builds `Terminal(t)`, which converts back to `Err(t)` |
| BehaviorTreeNode.NodeResultRoundTrip | behavior_tree/src/behavior_tree_node.rs:56-69 | converting back after `into_result` is the identity |
| BehaviorTreeNode.Continuation | behavior_tree/src/behavior_tree_node.rs:37-49 | a result hands back a node to step again exactly when it is nonterminal; a terminal result carries none |
| BehaviorTreeNode.Report | behavior_tree/src/behavior_tree_node.rs:44-49 | the statepoint a step reached: nonterminal exactly when the result is, with the same value |
| BehaviorTreeNode.Drive | behavior_tree/src/behavior_tree_node.rs:72-87 | chained steps, each on the previous continuation: at most one report per input, only the last may be terminal, and the drive stops early only on a terminal report |
| BehaviorTreeNode.DriveSplit | behavior_tree/src/behavior_tree_node.rs:37-49 | driving over `a + b` equals driving over `a` and then over `b` from the continuation reached; if `a` ends in a terminal, `b` is never stepped |
| BehaviorTreeNode.DriveStopsOnlyAtTerminal | behavior_tree/src/behavior_tree_node.rs:37-49 | no continuation is left after a drive exactly when its last report is terminal |
| SerialNode.GeneratedNew | behavior_tree/src/serial_node.rs:81-89 | the generated `new(d)` builds variant `d` with that variant's initial node, so `discriminant_of` reports `d` |
| SerialNode.GeneratedDiscriminantOf | behavior_tree/src/serial_node.rs:91-95 | the generated `discriminant_of` gives the tag that, with the payload, makes up the node |
| SerialNode.GeneratedStep | behavior_tree/src/serial_node.rs:61-75 | the generated `step` is nonterminal exactly when the variant's own step is; the continuation stays in the same variant and holds the variant's continuation; values pass through unchanged |
| SerialNode.GeneratedEnumNode | behavior_tree/src/serial_node.rs:56-96 | the generated `BehaviorTreeNode` and `EnumNode` impls satisfy the laws `discriminant_of(new(d)) == d` and "a nonterminal step keeps the discriminant" |
| SerialNode.NewBranch | behavior_tree/src/serial_node.rs:178-184 | a new serial branch node holds a freshly built node of the variant and the given decider |
| SerialNode.NewBranchSelector | behavior_tree/src/serial_node.rs:178-184 | under the enumerated-node laws, the new node's discriminant is the variant asked for |
| SerialNode.FromExisting | behavior_tree/src/serial_node.rs:187-192 | stores the given node as it is, with the given decider |
| SerialNode.DefaultBranch | behavior_tree/src/serial_node.rs:195-204 | the default node holds the default decider and, under the enumerated-node laws, runs the first variant |
| SerialNode.BranchStep | behavior_tree/src/serial_node.rs:216-242 | reports the pre-step discriminant; keeps the decider in the continuation; reports a subnode nonterminal or terminal as the subnode ended; ends exactly on `Exit`, with its value; a `Trans` to `e` discards the subnode and runs a fresh `new(e)`; otherwise the subnode's own continuation is kept |
| SerialNode.BranchStepper | behavior_tree/src/serial_node.rs:206-214 | the serial branch node is itself a behavior tree node, stepped by `BranchStep`, whose nonterminal results report the pre-step discriminant |
| SerialNode.NontermStepResumes | behavior_tree/src/serial_node.rs:219-224 | on `Step(j)` the result is `Nonterminal(NontermReturn::Nonterminal(d, j), from_existing(decider, n))` |
| SerialNode.NontermTransStartsFresh | behavior_tree/src/serial_node.rs:225-228 | on a nonterminal `Trans(e, j)` the result is `Nonterminal(NontermReturn::Nonterminal(d, j), new(decider, e))` |
| SerialNode.TermTransStartsFresh | behavior_tree/src/serial_node.rs:232-237 | on a terminal `Trans(e, j)` the result is still nonterminal: `Nonterminal(NontermReturn::Terminal(d, j), new(decider, e))` |
| SerialNode.ExitEnds | behavior_tree/src/serial_node.rs:229-238 | `Exit(x)` from either entry point gives `Terminal(x)`, with no continuation |
| SerialNode.ContinuationVariant | behavior_tree/src/serial_node.rs:216-242 | under the enumerated-node laws, the continuation runs the same variant after `Step` and the target variant after `Trans` |
| SerialNode.NeverExitsRunsForever | behavior_tree/src/serial_node.rs:229-238 | a composite whose decider never chooses `Exit` gives a nonterminal result for every input, however many |
| HomogeneousSerialNode.New | behavior_tree/src/homogeneous_serial_node.rs:57-62 | holds the enumeration's fresh node for the variant |
| HomogeneousSerialNode.FromExistingNode | behavior_tree/src/homogeneous_serial_node.rs:64-69 | holds the enumeration's `from_existing` of the given node |
| HomogeneousSerialNode.DefaultNode | behavior_tree/src/homogeneous_serial_node.rs:72-81 | under the enumeration laws, the default node reports the enumerator's default value |
| HomogeneousSerialNode.HomogeneousStep | behavior_tree/src/homogeneous_serial_node.rs:93-119 | reports the discriminant captured before the inner step; echoes the inner node's own nonterminal or terminal value; ends exactly on `Exit`, with its value; `Trans(e)` continues with a fresh `new(e)`; `Step` continues with `from_existing_node` of the inner continuation |
| HomogeneousSerialNode.HomogeneousStepper | behavior_tree/src/homogeneous_serial_node.rs:83-92 | the homogeneous serial node is itself a behavior tree node, stepped by `HomogeneousStep`, whose nonterminal results report the pre-step enumerator |
| HomogeneousSerialNode.DecisionIgnoresInput | behavior_tree/src/homogeneous_serial_node.rs:38-41 | the decider never sees the input: two inputs on which the inner node steps alike give the same composite result |
| HomogeneousSerialNode.ContinuationUnderLaws | behavior_tree/src/homogeneous_serial_node.rs:93-119 | under the enumeration laws, the continuation holds the inner continuation after `Step` and reports the target after `Trans` |
| SerialSwitcharound.PredicateWaitStep | behavior_tree/src/serial_node.rs:258-271 | a predicate-wait leaf is nonterminal exactly when its predicate is, stays unchanged, and passes the predicate's value through |
| SerialSwitcharound.PositivePredicate | behavior_tree/src/serial_node.rs:258-264 | nonterminal exactly on a non-negative input; reports the input itself |
| SerialSwitcharound.NegativePredicate | behavior_tree/src/serial_node.rs:265-271 | nonterminal exactly when Positive is; reports the negated input |
| SerialSwitcharound.MultiMachineInit | behavior_tree/src/serial_node.rs:257-272 | each variant's initial node waits exactly on non-negative inputs; Positive reports the input, Negative its negation |
| SerialSwitcharound.MultiMachine | behavior_tree/src/serial_node.rs:252-273 | the `MultiMachine` enum obeys the enumerated-node laws; a fresh variant stays unchanged on a non-negative input and ends on a negative one, with the value as above |
| SerialSwitcharound.Flip | behavior_tree/src/serial_node.rs:293-296 | the variant switched to is always the other one |
| SerialSwitcharound.SwitcharoundDecider | behavior_tree/src/serial_node.rs:284-297 | always `Step(o)` on a nonterminal; on a terminal, `Trans(Negative, o)` from Positive and `Trans(Positive, o)` from Negative |
| SerialSwitcharound.SwitcharoundNeverExits | behavior_tree/src/serial_node.rs:277-298 | the switcharound decider never chooses `Exit` |
| SerialSwitcharound.SwitcharoundTrace | behavior_tree/src/serial_node.rs:300-389 | starting at Positive, inputs 5, -5, 5, -5, 5 give Nonterminal(Positive, 5), Terminal(Positive, -5), Nonterminal(Negative, -5), Terminal(Negative, 5), Nonterminal(Positive, 5), each as a composite nonterminal |
| SerialSwitcharound.SwitcharoundRunsForever | behavior_tree/src/serial_node.rs:252-389 | from any state and for any inputs, every composite result of the switcharound machine is nonterminal |

## Left out

- The `std::ops::Try` integration and its feature gates: only the three conversion functions of each `Try` impl are modelled, as ordinary functions.
- The `enum_node!` macro mechanism (existential types, closure-built variant bodies, `num_derive`). It is replaced by the shape it generates: `SerialNode.Tagged` with the per-variant parts in `SerialNode.VariantFamily`. All variants share one payload type, which may itself be a sum type.
- `FromPrimitive::from_u64(0).unwrap()` in the serial node's `Default`: the variant numbered 0 is passed in as `first`. The numeric conversion is not modelled.
- `PredicateWait` lives in `base_nodes`, which is not part of this model. It is modelled as a leaf that applies its predicate to each input, stays unchanged on a nonterminal, and ends on a terminal.
- `i64` in the switcharound test is modelled as an unbounded `int`. The overflow of `-i64::MIN` in the Negative variant is not modelled; the test never reaches it.
- SwitcharoundRunsForever: holds "for any inputs" only over unbounded integers; for the `i64` program it describes runs whose inputs never include `i64::MIN` while the Negative variant is active, since `-*input` (serial_node.rs:267-269) would overflow there.
- Rust ownership and moves, `PhantomData`, and the `Copy`/`Clone`/`Debug`/`PartialEq` derives. Consumption is modelled structurally: a terminal result holds no node.
- The trait bounds tying the decider's associated types to the enumerated node's types become shared type parameters.
- The totality of deciders is Dafny's total function types, not a separate property.
- The homogeneous node's decider is a type with static functions in Rust; here it is a value passed to every step.
