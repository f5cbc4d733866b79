/**
  The step contract shared by every behavior tree node, and the two
  tagged unions it is built from.

  A node is any value together with a total step function
  `(node, input) -> NodeResult`; stepping consumes the node, and only a
  nonterminal result hands back a continuation that can be stepped again.
 */
module BehaviorTreeNode {

  /** Rust's `Result`, the target of the `Try` conversions. */
  datatype Result<R, E> = Ok(ok: R) | Err(err: E)

  datatype Option<T> = None | Some(value: T)

  /** A bare nonterminal-or-terminal tag. */
  datatype Statepoint<N, T> = Nonterminal(nonterm: N) | Terminal(term: T)

  /**
    The result of one step: a nonterminal value together with the node's
    continuation, or a terminal value with no node at all.
   */
  datatype NodeResult<R, T, N> = Nonterminal(value: R, next: N) | Terminal(term: T)

  /** A step function: the one operation of the `BehaviorTreeNode` trait. */
  type Stepper<!N, !I, R, T> = (N, I) -> NodeResult<R, T, N>

  // ---------------------------------------------------------------------
  // Conversions of Statepoint to and from Result

  function StatepointFromOk<N, T>(nonterm: N): (s: Statepoint<N, T>)
    ensures s.Nonterminal? && s.nonterm == nonterm
    ensures StatepointIntoResult(s) == Ok(nonterm)
  {
    Statepoint.Nonterminal(nonterm)
  }

  function StatepointFromError<N, T>(term: T): (s: Statepoint<N, T>)
    ensures s.Terminal? && s.term == term
    ensures StatepointIntoResult(s) == Err(term)
  {
    Statepoint.Terminal(term)
  }

  /** Nonterminal states become `Ok`, terminal states `Err`. */
  function StatepointIntoResult<N, T>(s: Statepoint<N, T>): (r: Result<N, T>)
    ensures r.Ok? <==> s.Nonterminal?
    ensures r.Ok? ==> r.ok == s.nonterm
    ensures r.Err? ==> r.err == s.term
  {
    match s
    case Nonterminal(n) => Ok(n)
    case Terminal(t) => Err(t)
  }

  /** Rebuilding a statepoint from its `Result` gives the statepoint back. */
  lemma StatepointRoundTrip<N, T>(s: Statepoint<N, T>)
    ensures match StatepointIntoResult(s)
            case Ok(n) => StatepointFromOk(n) == s
            case Err(t) => StatepointFromError(t) == s
  {
  }

  // ---------------------------------------------------------------------
  // Conversions of NodeResult to and from Result

  function NodeResultFromOk<R, T, N>(nonterm: (R, N)): (r: NodeResult<R, T, N>)
    ensures r.Nonterminal? && r.value == nonterm.0 && r.next == nonterm.1
    ensures NodeResultIntoResult(r) == Ok(nonterm)
  {
    NodeResult.Nonterminal(nonterm.0, nonterm.1)
  }

  function NodeResultFromError<R, T, N>(term: T): (r: NodeResult<R, T, N>)
    ensures r.Terminal? && r.term == term
    ensures NodeResultIntoResult(r) == Err(term)
  {
    NodeResult.Terminal(term)
  }

  /** A nonterminal becomes `Ok` of the pair (value, continuation), a terminal `Err`. */
  function NodeResultIntoResult<R, T, N>(r: NodeResult<R, T, N>): (res: Result<(R, N), T>)
    ensures res.Ok? <==> r.Nonterminal?
    ensures res.Ok? ==> res.ok == (r.value, r.next)
    ensures res.Err? ==> res.err == r.term
  {
    match r
    case Nonterminal(v, n) => Ok((v, n))
    case Terminal(t) => Err(t)
  }

  /** Converting back after `NodeResultIntoResult` is the identity. */
  lemma NodeResultRoundTrip<R, T, N>(r: NodeResult<R, T, N>)
    ensures match NodeResultIntoResult(r)
            case Ok(p) => NodeResultFromOk(p) == r
            case Err(t) => NodeResultFromError(t) == r
  {
  }

  // ---------------------------------------------------------------------
  // Consumption

  /**
    The node a result hands back for the next step, if any. A terminal
    result carries no node, so nothing can be stepped after it.
   */
  function Continuation<R, T, N>(r: NodeResult<R, T, N>): (c: Option<N>)
    ensures c.None? <==> r.Terminal?
    ensures c.Some? ==> r == NodeResult.Nonterminal(r.value, c.value)
  {
    match r
    case Nonterminal(_, n) => Some(n)
    case Terminal(_) => None
  }

  /** What a step reports once its continuation is set aside. */
  function Report<R, T, N>(r: NodeResult<R, T, N>): (s: Statepoint<R, T>)
    ensures s.Nonterminal? <==> r.Nonterminal?
    ensures s.Nonterminal? ==> s.nonterm == r.value
    ensures s.Terminal? ==> s.term == r.term
  {
    match r
    case Nonterminal(v, _) => Statepoint.Nonterminal(v)
    case Terminal(t) => Statepoint.Terminal(t)
  }

  /**
    A caller driving a node: each input steps the continuation of the
    previous step, and the drive stops at the first terminal result,
    because no node is left to step. The result lists what each step
    reported.
   */
  function Drive<N, I, R, T>(step: Stepper<N, I, R, T>, node: N, inputs: seq<I>): (reports: seq<Statepoint<R, T>>)
    ensures |reports| <= |inputs|
    ensures forall k :: 0 <= k < |reports| - 1 ==> reports[k].Nonterminal?
    ensures |reports| < |inputs| ==> 0 < |reports| && reports[|reports| - 1].Terminal?
    ensures 0 < |inputs| ==> 0 < |reports| && reports[0] == Report(step(node, inputs[0]))
    decreases |inputs|
  {
    if inputs == [] then []
    else
      match step(node, inputs[0])
      case Nonterminal(v, next) => [Statepoint.Nonterminal(v)] + Drive(step, next, inputs[1..])
      case Terminal(t) => [Statepoint.Terminal(t)]
  }

  /** The continuation left after driving over all inputs, or None once a terminal result ended the drive. */
  function DriveTo<N, I, R, T>(step: Stepper<N, I, R, T>, node: N, inputs: seq<I>): (last: Option<N>)
    ensures last.None? ==> 0 < |inputs|
    decreases |inputs|
  {
    if inputs == [] then Some(node)
    else
      match step(node, inputs[0])
      case Nonterminal(_, next) => DriveTo(step, next, inputs[1..])
      case Terminal(_) => None
  }

  /**
    Driving over `a + b` steps through `a` first; unless a terminal
    result ended the drive inside `a`, it then continues over `b` from
    the continuation reached after `a`.
   */
  lemma {:induction false} DriveSplit<N, I, R, T>(step: Stepper<N, I, R, T>, node: N, a: seq<I>, b: seq<I>)
    ensures DriveTo(step, node, a).Some? ==>
              Drive(step, node, a + b) == Drive(step, node, a) + Drive(step, DriveTo(step, node, a).value, b)
    ensures DriveTo(step, node, a).None? ==> Drive(step, node, a + b) == Drive(step, node, a)
    decreases |a|
  {
    if a != [] {
      assert (a + b)[0] == a[0];
      assert (a + b)[1..] == a[1..] + b;
      match step(node, a[0])
      case Nonterminal(v, next) =>
        DriveSplit(step, next, a[1..], b);
        if DriveTo(step, next, a[1..]).Some? {
          var head := [Statepoint.Nonterminal(v)];
          assert head + (Drive(step, next, a[1..]) + Drive(step, DriveTo(step, next, a[1..]).value, b))
              == (head + Drive(step, next, a[1..])) + Drive(step, DriveTo(step, next, a[1..]).value, b);
        }
      case Terminal(_) =>
    } else {
      assert a + b == b;
    }
  }

  /** A drive ends early exactly when its last report is terminal. */
  lemma {:induction false} DriveStopsOnlyAtTerminal<N, I, R, T>(step: Stepper<N, I, R, T>, node: N, inputs: seq<I>)
    ensures DriveTo(step, node, inputs).None? <==>
              (0 < |Drive(step, node, inputs)| && Drive(step, node, inputs)[|Drive(step, node, inputs)| - 1].Terminal?)
    decreases |inputs|
  {
    if inputs != [] {
      match step(node, inputs[0])
      case Nonterminal(_, next) => DriveStopsOnlyAtTerminal(step, next, inputs[1..]);
      case Terminal(_) =>
    }
  }
}
