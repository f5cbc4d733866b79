/**
  The homogeneous serial node: the serial branch state machine over an
  enumeration of nodes that all share one node type `M`, driven by a
  static decider that sees only the selector and the subnode's value, not
  the input. On `Step` and `Trans` the composite reports the subnode's
  own value rather than one chosen by the decider.
 */
module HomogeneousSerialNode {
  import opened BehaviorTreeNode

  /**
    The `NodeEnumeration` trait over node type `M` with enumerator `E`:
    build a fresh node for an enumerator, attach an existing node, report
    the enumerator, and take the inner node out.
   */
  datatype NodeEnumeration<!S, !E, !M> = NodeEnumeration(
    newNode: E -> S,
    fromExisting: M -> S,
    discriminant: S -> E,
    innerVal: S -> M)

  /**
    What an enumeration is expected to uphold: a node built for `e`
    reports `e`, and attaching a node and taking it out again gives that
    node back.
   */
  ghost predicate NodeEnumerationLaws<S(!new), E(!new), M(!new)>(en: NodeEnumeration<S, E, M>)
  {
    && (forall e :: en.discriminant(en.newNode(e)) == e)
    && (forall m :: en.innerVal(en.fromExisting(m)) == m)
  }

  datatype NontermDecision<E, X> = Step | Trans(target: E) | Exit(exit: X)

  datatype TermDecision<E, X> = Trans(target: E) | Exit(exit: X)

  datatype NontermReturn<E, N, T> = Nonterminal(selector: E, nonterm: N) | Terminal(selector: E, term: T)

  /** The static `SerialDecider`: it is given the selector and the subnode's value only. */
  datatype SerialDecider<!E, !N, !T, X> = SerialDecider(
    onNonterminal: (E, N) -> NontermDecision<E, X>,
    onTerminal: (E, T) -> TermDecision<E, X>)

  datatype HomogeneousSerialNode<S> = HomogeneousSerialNode(node: S)

  function New<S, E, M>(en: NodeEnumeration<S, E, M>, variant: E): (h: HomogeneousSerialNode<S>)
    ensures h.node == en.newNode(variant)
  {
    HomogeneousSerialNode(en.newNode(variant))
  }

  function FromExistingNode<S, E, M>(en: NodeEnumeration<S, E, M>, existing: M): (h: HomogeneousSerialNode<S>)
    ensures h.node == en.fromExisting(existing)
  {
    HomogeneousSerialNode(en.fromExisting(existing))
  }

  /** `Default`: a fresh node for the enumerator's default value, passed as `dflt`. */
  function DefaultNode<S(!new), E(!new), M(!new)>(en: NodeEnumeration<S, E, M>, dflt: E): (h: HomogeneousSerialNode<S>)
    ensures NodeEnumerationLaws(en) ==> en.discriminant(h.node) == dflt
  {
    New(en, dflt)
  }

  /** The enumerator a step switches to: the target of a `Trans` decision; none on `Step` or `Exit`. */
  function Target<S, E, M, I, N, T, X>(en: NodeEnumeration<S, E, M>, inner: Stepper<M, I, N, T>,
                                      dec: SerialDecider<E, N, T, X>, h: HomogeneousSerialNode<S>, input: I): Option<E>
  {
    var d := en.discriminant(h.node);
    match inner(en.innerVal(h.node), input)
    case Nonterminal(i, _) =>
      (match dec.onNonterminal(d, i)
       case Trans(e) => Some(e)
       case _ => None)
    case Terminal(i) =>
      (match dec.onTerminal(d, i)
       case Trans(e) => Some(e)
       case Exit(_) => None)
  }

  /** The exit value, when the decider chooses `Exit`. */
  function Exited<S, E, M, I, N, T, X>(en: NodeEnumeration<S, E, M>, inner: Stepper<M, I, N, T>,
                                      dec: SerialDecider<E, N, T, X>, h: HomogeneousSerialNode<S>, input: I): Option<X>
  {
    var d := en.discriminant(h.node);
    match inner(en.innerVal(h.node), input)
    case Nonterminal(i, _) =>
      (match dec.onNonterminal(d, i)
       case Exit(x) => Some(x)
       case _ => None)
    case Terminal(i) =>
      (match dec.onTerminal(d, i)
       case Exit(x) => Some(x)
       case Trans(_) => None)
  }

  /**
    One step: note the enumerator, take the inner node out and step it,
    ask the static decider, and build the composite's own result.
   */
  function HomogeneousStep<S, E, M, I, N, T, X>(en: NodeEnumeration<S, E, M>, inner: Stepper<M, I, N, T>,
                                               dec: SerialDecider<E, N, T, X>, h: HomogeneousSerialNode<S>, input: I)
    : (r: NodeResult<NontermReturn<E, N, T>, X, HomogeneousSerialNode<S>>)
    // the selector reported is the enumerator captured before the inner step
    ensures r.Nonterminal? ==> r.value.selector == en.discriminant(h.node)
    // the subnode's own value is echoed, nonterminal or terminal as it was
    ensures r.Nonterminal? ==> (r.value.Nonterminal? <==> inner(en.innerVal(h.node), input).Nonterminal?)
    ensures r.Nonterminal? && r.value.Nonterminal? ==>
              inner(en.innerVal(h.node), input).Nonterminal? && r.value.nonterm == inner(en.innerVal(h.node), input).value
    ensures r.Nonterminal? && r.value.Terminal? ==>
              inner(en.innerVal(h.node), input).Terminal? && r.value.term == inner(en.innerVal(h.node), input).term
    // the composite ends exactly when the decider exits, with the decider's value
    ensures r.Terminal? <==> Exited(en, inner, dec, h, input).Some?
    ensures r.Terminal? ==> r.term == Exited(en, inner, dec, h, input).value
    // a transition starts the target afresh
    ensures Target(en, inner, dec, h, input).Some? ==> r.Nonterminal? && r.next == New(en, Target(en, inner, dec, h, input).value)
    // otherwise a surviving composite wraps the inner node's continuation
    ensures r.Nonterminal? && Target(en, inner, dec, h, input).None? ==>
              inner(en.innerVal(h.node), input).Nonterminal?
              && r.next == FromExistingNode(en, inner(en.innerVal(h.node), input).next)
  {
    var discriminant := en.discriminant(h.node);
    match inner(en.innerVal(h.node), input)
    case Nonterminal(i, n) =>
      (match dec.onNonterminal(discriminant, i)
       case Step => NodeResult.Nonterminal(NontermReturn.Nonterminal(discriminant, i), FromExistingNode(en, n))
       case Trans(e) => NodeResult.Nonterminal(NontermReturn.Nonterminal(discriminant, i), New(en, e))
       case Exit(x) => NodeResult.Terminal(x))
    case Terminal(i) =>
      (match dec.onTerminal(discriminant, i)
       case Trans(e) => NodeResult.Nonterminal(NontermReturn.Terminal(discriminant, i), New(en, e))
       case Exit(x) => NodeResult.Terminal(x))
  }

  /** The composite is itself a behavior tree node. */
  function HomogeneousStepper<S(!new), E, M, I(!new), N, T, X>(en: NodeEnumeration<S, E, M>, inner: Stepper<M, I, N, T>,
                                                              dec: SerialDecider<E, N, T, X>)
    : (st: Stepper<HomogeneousSerialNode<S>, I, NontermReturn<E, N, T>, X>)
    ensures forall h, input :: st(h, input) == HomogeneousStep(en, inner, dec, h, input)
    ensures forall h, input :: st(h, input).Nonterminal? ==> st(h, input).value.selector == en.discriminant(h.node)
  {
    (h, input) => HomogeneousStep(en, inner, dec, h, input)
  }

  /**
    The input reaches the decision only through the inner node: two
    inputs on which the inner node steps alike give the same composite
    result.
   */
  lemma DecisionIgnoresInput<S, E, M, I, N, T, X>(en: NodeEnumeration<S, E, M>, inner: Stepper<M, I, N, T>,
                                                 dec: SerialDecider<E, N, T, X>, h: HomogeneousSerialNode<S>,
                                                 input1: I, input2: I)
    requires inner(en.innerVal(h.node), input1) == inner(en.innerVal(h.node), input2)
    ensures HomogeneousStep(en, inner, dec, h, input1) == HomogeneousStep(en, inner, dec, h, input2)
  {
  }

  /**
    Under the enumeration laws the continuation of a surviving composite
    holds the inner node's own continuation after `Step`, and reports the
    target enumerator after `Trans`.
   */
  lemma ContinuationUnderLaws<S(!new), E(!new), M(!new), I, N, T, X>(en: NodeEnumeration<S, E, M>,
                                                                   inner: Stepper<M, I, N, T>,
                                                                   dec: SerialDecider<E, N, T, X>,
                                                                   h: HomogeneousSerialNode<S>, input: I)
    requires NodeEnumerationLaws(en)
    ensures var r := HomogeneousStep(en, inner, dec, h, input);
            r.Nonterminal? ==>
              match Target(en, inner, dec, h, input)
              case Some(e) => en.discriminant(r.next.node) == e
              case None => en.innerVal(r.next.node) == inner(en.innerVal(h.node), input).next
  {
  }
}
