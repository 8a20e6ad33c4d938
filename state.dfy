/**
 The state machine of the click counter: the two pieces of component state
 (`count` and `error`), the two click transitions, runs of clicks from the
 mounted state, and the invariant every reachable state satisfies.
 */
module CounterMachine {

  /** The component state: the displayed count and the error flag. */
  datatype CounterState = CounterState(count: int, error: bool)

  /** The two user actions: a click on the increment or on the decrement button. */
  datatype Click = IncrementClick | DecrementClick

  /** The state the component mounts with: count 0, no error. */
  const Initial: CounterState := CounterState(0, false)

  /** The invariant of every reachable state. */
  predicate Inv(s: CounterState)
  {
    s.count >= 0 && (s.error ==> s.count == 0)
  }

  /** The increment handler: clear the error if it is set, then add one. */
  function Increment(s: CounterState): (r: CounterState)
    ensures !r.error && r.count > s.count
  {
    var cleared := if s.error then s.(error := false) else s;
    cleared.(count := s.count + 1)
  }

  /**
   The decrement handler: subtract one when the count is positive, otherwise
   raise the error and keep the count. It never clears the error.
   */
  function Decrement(s: CounterState): (r: CounterState)
    ensures s.count >= 0 ==> r.count >= 0
    ensures s.error ==> r.error
  {
    if s.count > 0 then s.(count := s.count - 1) else s.(error := true)
  }

  /** One click, dispatched to its handler. */
  function Step(s: CounterState, c: Click): CounterState
  {
    match c
    case IncrementClick => Increment(s)
    case DecrementClick => Decrement(s)
  }

  /** The state after the clicks `cs`, in order, starting from `s`. */
  function Run(s: CounterState, cs: seq<Click>): CounterState
    decreases |cs|
  {
    if cs == [] then s else Run(Step(s, cs[0]), cs[1..])
  }

  /** A state some sequence of clicks reaches from the mounted state. */
  ghost predicate Reachable(s: CounterState)
  {
    exists cs :: Run(Initial, cs) == s
  }

  /** `n` clicks on the increment button. */
  function Increments(n: nat): (cs: seq<Click>)
    ensures |cs| == n
    ensures forall i :: 0 <= i < n ==> cs[i] == IncrementClick
  {
    if n == 0 then [] else [IncrementClick] + Increments(n - 1)
  }

  /** How many clicks of kind `c` the sequence `cs` holds. */
  function Occurrences(cs: seq<Click>, c: Click): (k: nat)
    ensures k <= |cs|
  {
    if cs == [] then 0 else (if cs[0] == c then 1 else 0) + Occurrences(cs[1..], c)
  }

  /**
   A decrement handler that would also clear the error on a successful
   decrement; it is not what the component does, and serves to show that the
   difference cannot be observed.
   */
  function ClearingDecrement(s: CounterState): (r: CounterState)
    ensures s.count > 0 ==> !r.error
  {
    if s.count > 0 then CounterState(s.count - 1, false) else s.(error := true)
  }

  /** Both handlers keep the invariant. */
  lemma StepKeepsInv(s: CounterState, c: Click)
    requires Inv(s)
    ensures Inv(Step(s, c))
  {
  }

  /** Any run of clicks from a state satisfying the invariant keeps it. */
  lemma {:induction false} RunKeepsInv(s: CounterState, cs: seq<Click>)
    requires Inv(s)
    ensures Inv(Run(s, cs))
    decreases |cs|
  {
    if cs != [] {
      StepKeepsInv(s, cs[0]);
      RunKeepsInv(Step(s, cs[0]), cs[1..]);
    }
  }

  /** `n` increments add `n` to the count, and clear the error when `n > 0`. */
  lemma {:induction false} RunIncrements(s: CounterState, n: nat)
    ensures Run(s, Increments(n)) == (if n == 0 then s else CounterState(s.count + n, false))
    decreases n
  {
    if n > 0 {
      var cs := Increments(n);
      assert cs[0] == IncrementClick && cs[1..] == Increments(n - 1);
      RunIncrements(Increment(s), n - 1);
    }
  }

  /** After `n` increments from the mounted state the count is `n` and there is no error. */
  lemma IncrementsFromInitial(n: nat)
    ensures Run(Initial, Increments(n)) == CounterState(n, false)
  {
    RunIncrements(Initial, n);
  }

  /** The reachable states are exactly those satisfying the invariant. */
  lemma ReachableIffInv(s: CounterState)
    ensures Reachable(s) <==> Inv(s)
  {
    if Reachable(s) {
      var cs :| Run(Initial, cs) == s;
      RunKeepsInv(Initial, cs);
    }
    if Inv(s) {
      if s.error {
        assert Run(Initial, [DecrementClick]) == s;
      } else {
        IncrementsFromInitial(s.count);
      }
    }
  }

  /** In every reachable state the count is non-negative. */
  lemma ReachableCountNonNegative(s: CounterState)
    requires Reachable(s)
    ensures s.count >= 0
  {
    ReachableIffInv(s);
  }

  /** In every reachable state an error means the count is zero. */
  lemma ReachableErrorMeansZero(s: CounterState)
    requires Reachable(s)
    ensures s.error ==> s.count == 0
  {
    ReachableIffInv(s);
  }

  /** A click from a reachable state leads to a reachable state. */
  lemma StepKeepsReachable(s: CounterState, c: Click)
    requires Reachable(s)
    ensures Reachable(Step(s, c))
  {
    ReachableIffInv(s);
    StepKeepsInv(s, c);
    ReachableIffInv(Step(s, c));
  }

  /**
   From a reachable state, a click leaves the error raised exactly when it is
   a decrement at count zero.
   */
  lemma ErrorIffRejectedDecrement(s: CounterState, c: Click)
    requires Reachable(s)
    ensures Step(s, c).error <==> (c == DecrementClick && s.count == 0)
  {
    ReachableIffInv(s);
  }

  /**
   That a successful decrement keeps the error flag cannot be observed: from
   every reachable state the decrement handler agrees with one that clears it.
   */
  lemma DecrementAgreesWithClearing(s: CounterState)
    requires Reachable(s)
    ensures Decrement(s) == ClearingDecrement(s)
  {
    ReachableIffInv(s);
  }

  /**
   The count after a run lies between the start count plus the increments
   minus the decrements, and the start count plus the increments.
   */
  lemma {:induction false} RunCountBounds(s: CounterState, cs: seq<Click>)
    ensures Run(s, cs).count <= s.count + Occurrences(cs, IncrementClick)
    ensures Run(s, cs).count >= s.count + Occurrences(cs, IncrementClick) - Occurrences(cs, DecrementClick)
    decreases |cs|
  {
    if cs != [] {
      RunCountBounds(Step(s, cs[0]), cs[1..]);
    }
  }

  /** The count never exceeds the number of increment clicks since mounting. */
  lemma CountAtMostIncrements(cs: seq<Click>)
    ensures 0 <= Run(Initial, cs).count <= Occurrences(cs, IncrementClick)
  {
    RunCountBounds(Initial, cs);
    RunKeepsInv(Initial, cs);
  }
}
