/**
  The serial branch node: a closed family of subnode variants run one at a
  time, with a decider that, after every subnode step, keeps stepping the
  same variant, switches to a freshly built variant, or exits the whole
  composite.

  The `EnumNode` and `SerialDecider` traits become records of total
  functions; the shape that the `enum_node!` macro generates is the tagged
  union `Tagged` with the functions `GeneratedNew`, `GeneratedStep` and
  `GeneratedEnumNode`.
 */
module SerialNode {
  import opened BehaviorTreeNode

  // ---------------------------------------------------------------------
  // Enumerated nodes

  /**
    An enumerated node type `S` with discriminant type `E`: its step, the
    constructor of a fresh node for a discriminant, and the discriminant
    of a live node.
   */
  datatype EnumNode<!S, !E, !I, N, T> = EnumNode(
    step: Stepper<S, I, N, T>,
    newNode: E -> S,
    discriminantOf: S -> E)

  /**
    What every enumerated node must uphold: a node built for `d` reports
    `d`, and a nonterminal step stays in the variant it started in.
   */
  ghost predicate EnumNodeLaws<S(!new), E(!new), I(!new), N, T>(en: EnumNode<S, E, I, N, T>)
  {
    && (forall d :: en.discriminantOf(en.newNode(d)) == d)
    && (forall s, i :: en.step(s, i).Nonterminal? ==>
          en.discriminantOf(en.step(s, i).next) == en.discriminantOf(s))
  }

  /** The enum that `enum_node!` generates: one variant tag with that variant's node. */
  datatype Tagged<E, P> = Tagged(variant: E, payload: P)

  /**
    The per-variant parts that are written into the macro: the body that
    builds each variant's initial node, and each variant's own step.
   */
  datatype VariantFamily<!E, !P, !I, N, T> = VariantFamily(
    init: E -> P,
    stepVariant: (E, P, I) -> NodeResult<N, T, P>)

  /** The generated `new`: the variant `d` holding the node its body builds. */
  function GeneratedNew<E, P, I, N, T>(fam: VariantFamily<E, P, I, N, T>, d: E): (s: Tagged<E, P>)
    ensures GeneratedDiscriminantOf(s) == d
    ensures s.payload == fam.init(d)
  {
    Tagged(d, fam.init(d))
  }

  /** The generated `discriminant_of`: the tag of the variant. */
  function GeneratedDiscriminantOf<E, P>(s: Tagged<E, P>): (d: E)
    ensures s == Tagged(d, s.payload)
  {
    match s
    case Tagged(d, _) => d
  }

  /**
    The generated `step`: step the node inside the current variant and
    wrap a continuation back into that same variant.
   */
  function GeneratedStep<E, P, I, N, T>(fam: VariantFamily<E, P, I, N, T>, s: Tagged<E, P>, input: I)
    : (r: NodeResult<N, T, Tagged<E, P>>)
    ensures r.Nonterminal? <==> fam.stepVariant(s.variant, s.payload, input).Nonterminal?
    ensures r.Nonterminal? ==>
              && GeneratedDiscriminantOf(r.next) == GeneratedDiscriminantOf(s)
              && r.value == fam.stepVariant(s.variant, s.payload, input).value
              && r.next.payload == fam.stepVariant(s.variant, s.payload, input).next
    ensures r.Terminal? ==> r.term == fam.stepVariant(s.variant, s.payload, input).term
  {
    match s
    case Tagged(d, val) =>
      match fam.stepVariant(d, val, input)
      case Nonterminal(v, o) => NodeResult.Nonterminal(v, Tagged(d, o))
      case Terminal(v) => NodeResult.Terminal(v)
  }

  /** The generated `BehaviorTreeNode` and `EnumNode` impls; they obey the enumerated-node laws. */
  function GeneratedEnumNode<E(!new), P(!new), I(!new), N, T>(fam: VariantFamily<E, P, I, N, T>): (en: EnumNode<Tagged<E, P>, E, I, N, T>)
    ensures EnumNodeLaws(en)
    ensures forall d :: en.newNode(d) == GeneratedNew(fam, d)
    ensures forall s, i :: en.step(s, i) == GeneratedStep(fam, s, i)
  {
    EnumNode((s, i) => GeneratedStep(fam, s, i), d => GeneratedNew(fam, d), s => GeneratedDiscriminantOf(s))
  }

  // ---------------------------------------------------------------------
  // Decisions

  /** What the decider may choose when the subnode stays nonterminal. */
  datatype NontermDecision<E, T, X> = Step(out: T) | Trans(target: E, out: T) | Exit(exit: X)

  /** What the decider may choose when the subnode is terminal: it cannot be stepped again. */
  datatype TermDecision<E, T, X> = Trans(target: E, out: T) | Exit(exit: X)

  /** The composite's nonterminal value: the selector that ran, with what the subnode reached. */
  datatype NontermReturn<E, N, T> = Nonterminal(selector: E, nonterm: N) | Terminal(selector: E, term: T)

  /** The `SerialDecider` trait: decisions after a nonterminal and after a terminal subnode step. */
  datatype SerialDecider<!D, !E, !I, !N, !T, X> = SerialDecider(
    onNonterminal: (D, I, E, N) -> NontermDecision<E, N, X>,
    onTerminal: (D, I, E, T) -> TermDecision<E, T, X>)

  // ---------------------------------------------------------------------
  // The serial branch node

  datatype SerialBranchNode<S, D> = SerialBranchNode(node: S, decider: D)

  /** A serial branch node running a fresh node of `variant`. */
  function NewBranch<S, E, I, N, T, D>(en: EnumNode<S, E, I, N, T>, decider: D, variant: E): (b: SerialBranchNode<S, D>)
    ensures b.decider == decider && b.node == en.newNode(variant)
  {
    SerialBranchNode(en.newNode(variant), decider)
  }

  /** Under the enumerated-node laws a new serial branch node runs the variant asked for. */
  lemma NewBranchSelector<S(!new), E(!new), I(!new), N, T, D>(en: EnumNode<S, E, I, N, T>, decider: D, variant: E)
    requires EnumNodeLaws(en)
    ensures en.discriminantOf(NewBranch(en, decider, variant).node) == variant
  {
  }

  /** A serial branch node around an existing enumerated node, kept as it is. */
  function FromExisting<S, D>(decider: D, existing: S): (b: SerialBranchNode<S, D>)
    ensures b.decider == decider && b.node == existing
  {
    SerialBranchNode(existing, decider)
  }

  /** `Default`: the default decider running the variant numbered 0, passed as `first`. */
  function DefaultBranch<S(!new), E(!new), I(!new), N, T, D>(en: EnumNode<S, E, I, N, T>, defaultDecider: D, first: E)
    : (b: SerialBranchNode<S, D>)
    ensures b.decider == defaultDecider
    ensures EnumNodeLaws(en) ==> en.discriminantOf(b.node) == first
  {
    NewBranch(en, defaultDecider, first)
  }

  /** The variant a step switches to: the target of a `Trans` decision; none on `Step` or `Exit`. */
  function Target<S, E, I, N, T, D, X>(en: EnumNode<S, E, I, N, T>, dec: SerialDecider<D, E, I, N, T, X>,
                                      b: SerialBranchNode<S, D>, input: I): Option<E>
  {
    var d := en.discriminantOf(b.node);
    match en.step(b.node, input)
    case Nonterminal(i, _) =>
      (match dec.onNonterminal(b.decider, input, d, i)
       case Trans(e, _) => Some(e)
       case _ => None)
    case Terminal(i) =>
      (match dec.onTerminal(b.decider, input, d, i)
       case Trans(e, _) => Some(e)
       case Exit(_) => None)
  }

  /** The exit value, when the decider chooses `Exit`. */
  function Exited<S, E, I, N, T, D, X>(en: EnumNode<S, E, I, N, T>, dec: SerialDecider<D, E, I, N, T, X>,
                                      b: SerialBranchNode<S, D>, input: I): Option<X>
  {
    var d := en.discriminantOf(b.node);
    match en.step(b.node, input)
    case Nonterminal(i, _) =>
      (match dec.onNonterminal(b.decider, input, d, i)
       case Exit(x) => Some(x)
       case _ => None)
    case Terminal(i) =>
      (match dec.onTerminal(b.decider, input, d, i)
       case Exit(x) => Some(x)
       case Trans(_, _) => None)
  }

  /**
    One step of the composite: note the discriminant, step the subnode,
    ask the decider, and build the composite's own result.
   */
  function BranchStep<S, E, I, N, T, D, X>(en: EnumNode<S, E, I, N, T>, dec: SerialDecider<D, E, I, N, T, X>,
                                          b: SerialBranchNode<S, D>, input: I)
    : (r: NodeResult<NontermReturn<E, N, T>, X, SerialBranchNode<S, D>>)
    // the selector reported is the one the subnode had before this step
    ensures r.Nonterminal? ==> r.value.selector == en.discriminantOf(b.node)
    // the decider is carried unchanged into the continuation
    ensures r.Nonterminal? ==> r.next.decider == b.decider
    // the composite says whether the subnode stayed nonterminal
    ensures r.Nonterminal? ==> (r.value.Nonterminal? <==> en.step(b.node, input).Nonterminal?)
    // the composite ends exactly when the decider exits, with the decider's value
    ensures r.Terminal? <==> Exited(en, dec, b, input).Some?
    ensures r.Terminal? ==> r.term == Exited(en, dec, b, input).value
    // a transition discards the subnode and starts the target variant afresh
    ensures Target(en, dec, b, input).Some? ==> r.Nonterminal? && r.next.node == en.newNode(Target(en, dec, b, input).value)
    // otherwise a surviving composite resumes the subnode's own continuation
    ensures r.Nonterminal? && Target(en, dec, b, input).None? ==>
              en.step(b.node, input).Nonterminal? && r.next.node == en.step(b.node, input).next
  {
    var discriminant := en.discriminantOf(b.node);
    match en.step(b.node, input)
    case Nonterminal(i, n) =>
      (match dec.onNonterminal(b.decider, input, discriminant, i)
       case Step(j) => NodeResult.Nonterminal(NontermReturn.Nonterminal(discriminant, j), FromExisting(b.decider, n))
       case Trans(e, j) => NodeResult.Nonterminal(NontermReturn.Nonterminal(discriminant, j), NewBranch(en, b.decider, e))
       case Exit(x) => NodeResult.Terminal(x))
    case Terminal(i) =>
      (match dec.onTerminal(b.decider, input, discriminant, i)
       case Trans(e, j) => NodeResult.Nonterminal(NontermReturn.Terminal(discriminant, j), NewBranch(en, b.decider, e))
       case Exit(x) => NodeResult.Terminal(x))
  }

  /** The composite is itself a behavior tree node. */
  function BranchStepper<S(!new), E, I(!new), N, T, D(!new), X>(en: EnumNode<S, E, I, N, T>, dec: SerialDecider<D, E, I, N, T, X>)
    : (st: Stepper<SerialBranchNode<S, D>, I, NontermReturn<E, N, T>, X>)
    ensures forall b, input :: st(b, input) == BranchStep(en, dec, b, input)
    ensures forall b, input :: st(b, input).Nonterminal? ==> st(b, input).value.selector == en.discriminantOf(b.node)
  {
    (b, input) => BranchStep(en, dec, b, input)
  }

  // ---------------------------------------------------------------------
  // The four cases of a step

  /** `Step(j)` after a nonterminal subnode: report `j`, keep the subnode's continuation. */
  lemma NontermStepResumes<S, E, I, N, T, D, X>(en: EnumNode<S, E, I, N, T>, dec: SerialDecider<D, E, I, N, T, X>,
                                               b: SerialBranchNode<S, D>, input: I)
    requires en.step(b.node, input).Nonterminal?
    requires dec.onNonterminal(b.decider, input, en.discriminantOf(b.node), en.step(b.node, input).value).Step?
    ensures var j := dec.onNonterminal(b.decider, input, en.discriminantOf(b.node), en.step(b.node, input).value).out;
            BranchStep(en, dec, b, input)
              == NodeResult.Nonterminal(NontermReturn.Nonterminal(en.discriminantOf(b.node), j),
                                        FromExisting(b.decider, en.step(b.node, input).next))
  {
  }

  /** `Trans(e, j)` after a nonterminal subnode: report `j`, drop the subnode, start `e` afresh. */
  lemma NontermTransStartsFresh<S, E, I, N, T, D, X>(en: EnumNode<S, E, I, N, T>, dec: SerialDecider<D, E, I, N, T, X>,
                                                    b: SerialBranchNode<S, D>, input: I)
    requires en.step(b.node, input).Nonterminal?
    requires dec.onNonterminal(b.decider, input, en.discriminantOf(b.node), en.step(b.node, input).value).Trans?
    ensures var dn := dec.onNonterminal(b.decider, input, en.discriminantOf(b.node), en.step(b.node, input).value);
            BranchStep(en, dec, b, input)
              == NodeResult.Nonterminal(NontermReturn.Nonterminal(en.discriminantOf(b.node), dn.out),
                                        NewBranch(en, b.decider, dn.target))
  {
  }

  /** `Trans(e, j)` after a terminal subnode: the composite goes on, reporting the subnode's end. */
  lemma TermTransStartsFresh<S, E, I, N, T, D, X>(en: EnumNode<S, E, I, N, T>, dec: SerialDecider<D, E, I, N, T, X>,
                                                 b: SerialBranchNode<S, D>, input: I)
    requires en.step(b.node, input).Terminal?
    requires dec.onTerminal(b.decider, input, en.discriminantOf(b.node), en.step(b.node, input).term).Trans?
    ensures var dt := dec.onTerminal(b.decider, input, en.discriminantOf(b.node), en.step(b.node, input).term);
            BranchStep(en, dec, b, input)
              == NodeResult.Nonterminal(NontermReturn.Terminal(en.discriminantOf(b.node), dt.out),
                                        NewBranch(en, b.decider, dt.target))
  {
  }

  /** `Exit(x)` from either entry point ends the composite with `x` and no continuation. */
  lemma ExitEnds<S, E, I, N, T, D, X>(en: EnumNode<S, E, I, N, T>, dec: SerialDecider<D, E, I, N, T, X>,
                                     b: SerialBranchNode<S, D>, input: I, x: X)
    requires Exited(en, dec, b, input) == Some(x)
    ensures BranchStep(en, dec, b, input) == NodeResult.Terminal(x)
    ensures Continuation(BranchStep(en, dec, b, input)).None?
  {
  }

  /**
    Under the enumerated-node laws the composite's continuation runs the
    variant the decider asked for: the same one on `Step`, the target on
    `Trans`.
   */
  lemma ContinuationVariant<S(!new), E(!new), I(!new), N, T, D, X>(en: EnumNode<S, E, I, N, T>, dec: SerialDecider<D, E, I, N, T, X>,
                                                b: SerialBranchNode<S, D>, input: I)
    requires EnumNodeLaws(en)
    ensures BranchStep(en, dec, b, input).Nonterminal? ==>
              en.discriminantOf(BranchStep(en, dec, b, input).next.node)
                == match Target(en, dec, b, input)
                   case Some(e) => e
                   case None => en.discriminantOf(b.node)
  {
  }

  // ---------------------------------------------------------------------
  // Deciders that never exit

  ghost predicate NeverExits<D(!new), E(!new), I(!new), N(!new), T(!new), X>(dec: SerialDecider<D, E, I, N, T, X>)
  {
    && (forall d, i, e, n :: !dec.onNonterminal(d, i, e, n).Exit?)
    && (forall d, i, e, t :: !dec.onTerminal(d, i, e, t).Exit?)
  }

  /** A composite whose decider never exits reports a nonterminal value for every input. */
  lemma {:induction false} NeverExitsRunsForever<S(!new), E(!new), I(!new), N(!new), T(!new), D(!new), X>(en: EnumNode<S, E, I, N, T>,
                                                                     dec: SerialDecider<D, E, I, N, T, X>,
                                                                     b: SerialBranchNode<S, D>, inputs: seq<I>)
    requires NeverExits(dec)
    ensures |Drive(BranchStepper(en, dec), b, inputs)| == |inputs|
    ensures forall k :: 0 <= k < |inputs| ==> Drive(BranchStepper(en, dec), b, inputs)[k].Nonterminal?
    decreases |inputs|
  {
    if inputs != [] {
      var r := BranchStep(en, dec, b, inputs[0]);
      assert r.Nonterminal?;
      assert BranchStepper(en, dec)(b, inputs[0]) == r;
      NeverExitsRunsForever(en, dec, r.next, inputs[1..]);
    }
  }
}
