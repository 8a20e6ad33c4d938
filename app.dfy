/**
 The `App` component as a stateful object: the two state cells it owns and
 the two click handlers that update them, plus the scenarios its test suite
 walks through, each run against a freshly mounted component.
 */
module App {
  import opened CounterMachine
  import opened CounterView

  /** One mounted instance of the component. */
  class Counter {
    var count: int
    var error: bool

    /** The component state as a value. */
    function Snapshot(): CounterState
      reads this
    {
      CounterState(count, error)
    }

    /** The invariant of the component's state. */
    predicate Valid()
      reads this
    {
      Inv(Snapshot())
    }

    /** Mounting: count 0, no error. */
    constructor ()
      ensures count == 0 && !error
      ensures Snapshot() == Initial && Valid()
    {
      count := 0;
      error := false;
    }

    /** The increment button's click handler. */
    method Increment()
      modifies this
      ensures count == old(count) + 1 && !error
      ensures Snapshot() == Step(old(Snapshot()), IncrementClick)
      ensures old(Valid()) ==> Valid() && Render(Snapshot()).decrementButton
    {
      if error {
        error := false;
      }
      count := count + 1;
    }

    /** The decrement button's click handler. */
    method Decrement()
      modifies this
      ensures old(count) > 0 ==> count == old(count) - 1 && error == old(error)
      ensures old(count) <= 0 ==> count == old(count) && error
      ensures Snapshot() == Step(old(Snapshot()), DecrementClick)
      ensures old(Valid()) ==> Valid() && Render(Snapshot()).decrementButton
    {
      if count > 0 {
        count := count - 1;
      } else {
        error := true;
      }
    }
  }

  /** A fresh mount shows 0, hides the alert and renders the decrement button. */
  method ScenarioMounted() returns (v: View)
    ensures v.count == 0
    ensures HasClass(v.alertClass, "hidden")
    ensures v.decrementButton
  {
    var c := new Counter();
    v := Render(c.Snapshot());
    AlertHiddenIffNoError(c.Snapshot());
  }

  /** One increment from mount shows 1. */
  method ScenarioIncrement() returns (v: View)
    ensures v.count == 1
    ensures HasClass(v.alertClass, "hidden")
  {
    var c := new Counter();
    c.Increment();
    v := Render(c.Snapshot());
    AlertHiddenIffNoError(c.Snapshot());
  }

  /** An increment then a decrement from mount shows 0 again. */
  method ScenarioIncrementDecrement() returns (v: View)
    ensures v.count == 0
    ensures HasClass(v.alertClass, "hidden")
  {
    var c := new Counter();
    c.Increment();
    c.Decrement();
    v := Render(c.Snapshot());
    AlertHiddenIffNoError(c.Snapshot());
  }

  /** A decrement at mount keeps 0 and shows the alert. */
  method ScenarioDecrementAtZero() returns (v: View)
    ensures v.count == 0
    ensures !HasClass(v.alertClass, "hidden")
  {
    var c := new Counter();
    c.Decrement();
    v := Render(c.Snapshot());
    AlertHiddenIffNoError(c.Snapshot());
  }

  /** After the rejected decrement, an increment hides the alert again and shows 1. */
  method ScenarioDecrementThenIncrement() returns (v: View)
    ensures v.count == 1
    ensures HasClass(v.alertClass, "hidden")
  {
    var c := new Counter();
    c.Decrement();
    c.Increment();
    v := Render(c.Snapshot());
    AlertHiddenIffNoError(c.Snapshot());
  }

  /** Increment, increment, decrement from mount shows 1 with the alert hidden. */
  method ScenarioIncrementTwiceDecrement() returns (v: View)
    ensures v.count == 1
    ensures HasClass(v.alertClass, "hidden")
  {
    var c := new Counter();
    c.Increment();
    c.Increment();
    c.Decrement();
    v := Render(c.Snapshot());
    AlertHiddenIffNoError(c.Snapshot());
  }
}
