/**
  The switcharound scenario of the serial branch node's tests: two
  variants, Positive and Negative, each a predicate-wait leaf, and a
  decider that keeps stepping on a nonterminal and flips the variant on a
  terminal, carrying the subnode's value forward.
 */
module SerialSwitcharound {
  import opened BehaviorTreeNode
  import opened SerialNode

  /**
    A leaf that applies its predicate to every input: it stays as it is on
    a nonterminal statepoint and ends on a terminal one.
   */
  datatype PredicateWait = PredicateWait(pred: int -> Statepoint<int, int>)

  function PredicateWaitStep(p: PredicateWait, input: int): (r: NodeResult<int, int, PredicateWait>)
    ensures r.Nonterminal? <==> p.pred(input).Nonterminal?
    ensures r.Nonterminal? ==> r.value == p.pred(input).nonterm && r.next == p
    ensures r.Terminal? ==> r.term == p.pred(input).term
  {
    match p.pred(input)
    case Nonterminal(n) => NodeResult.Nonterminal(n, p)
    case Terminal(t) => NodeResult.Terminal(t)
  }

  datatype PosNegEnum = Positive | Negative

  /** Positive: nonterminal with the input when it is not negative, terminal with it otherwise. */
  function PositivePredicate(input: int): (s: Statepoint<int, int>)
    ensures s.Nonterminal? <==> input >= 0
    ensures (s.Nonterminal? && s.nonterm == input) || (s.Terminal? && s.term == input)
  {
    if input >= 0 then Statepoint.Nonterminal(input) else Statepoint.Terminal(input)
  }

  /** Negative: as Positive, but reporting the negated input. */
  function NegativePredicate(input: int): (s: Statepoint<int, int>)
    ensures s.Nonterminal? <==> PositivePredicate(input).Nonterminal?
    ensures (s.Nonterminal? && s.nonterm == -input) || (s.Terminal? && s.term == -input)
  {
    if input >= 0 then Statepoint.Nonterminal(-input) else Statepoint.Terminal(-input)
  }

  /** The initial node of each variant: both wait on non-negative inputs; Negative reports them negated. */
  function MultiMachineInit(e: PosNegEnum): (p: PredicateWait)
    ensures forall input :: p.pred(input).Nonterminal? <==> input >= 0
    ensures forall input :: p.pred(input).Nonterminal? ==> p.pred(input).nonterm == if e == Positive then input else -input
    ensures forall input :: p.pred(input).Terminal? ==> p.pred(input).term == if e == Positive then input else -input
  {
    match e
    case Positive => PredicateWait(PositivePredicate)
    case Negative => PredicateWait(NegativePredicate)
  }

  /** The `MultiMachine` enum: the generated shape over the two variants. */
  function MultiMachine(): (en: EnumNode<Tagged<PosNegEnum, PredicateWait>, PosNegEnum, int, int, int>)
    ensures EnumNodeLaws(en)
    // a fresh variant waits, unchanged, on a non-negative input, and ends on a negative one
    ensures forall d, input :: input >= 0 ==>
              en.step(en.newNode(d), input) == NodeResult.Nonterminal(if d == Positive then input else -input, en.newNode(d))
    ensures forall d, input :: input < 0 ==>
              en.step(en.newNode(d), input) == NodeResult.Terminal(if d == Positive then input else -input)
  {
    GeneratedEnumNode(VariantFamily(MultiMachineInit, (e, p, input) => PredicateWaitStep(p, input)))
  }

  datatype Switcharound = Switcharound

  /** The other variant: with two variants, differing from `e` fixes the result. */
  function Flip(e: PosNegEnum): (f: PosNegEnum)
    ensures f != e
  {
    match e
    case Positive => Negative
    case Negative => Positive
  }

  /** Always step on a nonterminal; on a terminal switch to the other variant, passing the value on. */
  function SwitcharoundDecider(): (dec: SerialDecider<Switcharound, PosNegEnum, int, int, int, ()>)
    ensures forall sw, input, state, o :: dec.onNonterminal(sw, input, state, o) == NontermDecision.Step(o)
    ensures forall sw, input, o :: dec.onTerminal(sw, input, Positive, o) == TermDecision.Trans(Negative, o)
    ensures forall sw, input, o :: dec.onTerminal(sw, input, Negative, o) == TermDecision.Trans(Positive, o)
  {
    SerialDecider((_, _, _, o) => NontermDecision.Step(o),
                  (_, _, state, o) => TermDecision.Trans(Flip(state), o))
  }

  type Machine = SerialBranchNode<Tagged<PosNegEnum, PredicateWait>, Switcharound>

  function SwitcharoundStepper(): Stepper<Machine, int, NontermReturn<PosNegEnum, int, int>, ()>
  {
    BranchStepper(MultiMachine(), SwitcharoundDecider())
  }

  /** Starting at Positive, the inputs 5, -5, 5, -5, 5 give the five reports of the test. */
  lemma SwitcharoundTrace()
    ensures Drive(SwitcharoundStepper(), NewBranch(MultiMachine(), Switcharound, Positive), [5, -5, 5, -5, 5])
            == [Statepoint.Nonterminal(NontermReturn.Nonterminal(Positive, 5)),
                Statepoint.Nonterminal(NontermReturn.Terminal(Positive, -5)),
                Statepoint.Nonterminal(NontermReturn.Nonterminal(Negative, -5)),
                Statepoint.Nonterminal(NontermReturn.Terminal(Negative, 5)),
                Statepoint.Nonterminal(NontermReturn.Nonterminal(Positive, 5))]
  {
  }

  /** The switcharound decider never chooses `Exit`. */
  lemma SwitcharoundNeverExits()
    ensures NeverExits(SwitcharoundDecider())
  {
  }

  /** Whatever the inputs, every composite result of the switcharound machine is nonterminal. */
  lemma SwitcharoundRunsForever(start: Machine, inputs: seq<int>)
    ensures |Drive(SwitcharoundStepper(), start, inputs)| == |inputs|
    ensures forall k :: 0 <= k < |inputs| ==> Drive(SwitcharoundStepper(), start, inputs)[k].Nonterminal?
  {
    SwitcharoundNeverExits();
    NeverExitsRunsForever(MultiMachine(), SwitcharoundDecider(), start, inputs);
  }
}
