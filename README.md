# Click counter — a Dafny model

The click-counter app is one React component, `App`. It holds two pieces of
state: `count`, which starts at 0, and `error`, which starts at false. It
renders these four things:

- a display span that shows `count`;
- an alert line whose class attribute is `"error "` followed by `"hidden"`
  unless `error` is set;
- an increment button;
- a decrement button, rendered while `count >= 0`.

The increment handler clears `error` and adds one to `count`. The decrement
handler subtracts one when `count > 0`. Otherwise it sets `error` and leaves
`count` alone. It never clears `error`.

The model has three modules:

- `CounterMachine` (`state.dfy`) is the state machine on values. It defines
  the state `CounterState`, the two handlers as functions, runs of clicks from
  the mounted state, and reachability. It proves that the reachable states
  are exactly those with `count >= 0 && (error ==> count == 0)`. From that it
  derives the consequences listed in the table below.
- `CounterView` (`view.dfy`) is the render. It builds the alert's class
  string as the template literal does, and splits it into a class list. It
  proves that the list contains `hidden` exactly when `error` is false, and
  that the decrement button is always rendered.
- `App` (`app.dfy`) is the component as an object. The class `Counter` has
  the two state cells as fields and the two handlers as methods that update
  them. Each method is tied to the matching `CounterMachine` transition and
  keeps the invariant, so the decrement button stays rendered. Five scenario
  methods replay the click sequences of the tests at
  `click-counter/src/App.test.js:30-34`, `54-63`, `73-83`, `95-113` and
  `114-120` on a freshly mounted `Counter` and state what the render then
  shows. A sixth, `ScenarioIncrementTwiceDecrement`, is an extra scenario on
  the handlers that no test covers.

A successful decrement does not clear `error`
(`click-counter/src/App.js:38-39`). `DecrementAgreesWithClearing` proves that
from every reachable state this handler equals one that would clear it, so the
difference cannot be observed.

## Model

| member | source | states |
|---|---|---|
| CounterMachine.Increment | click-counter/src/App.js:24-29 | After an increment the error is cleared and the count is strictly larger than before, whatever the previous error was |
| CounterMachine.Decrement | click-counter/src/App.js:37-43 | A decrement never makes a non-negative count negative, and never clears a raised error |
| CounterMachine.StepKeepsInv | click-counter/src/App.js:24-43 | Both click handlers preserve `count >= 0 && (error ==> count == 0)` |
| CounterMachine.RunKeepsInv | click-counter/src/App.js:24-43 | Any sequence of clicks from a state satisfying the invariant ends in a state satisfying it |
| CounterMachine.RunIncrements | click-counter/src/App.js:24-29 | `n` increments from any state add exactly `n` to the count and, when `n > 0`, leave the error cleared |
| CounterMachine.IncrementsFromInitial | click-counter/src/App.js:6-7 | After `n` increments from the mounted state (count 0, no error) the count is `n` and there is no error |
| CounterMachine.ReachableIffInv | click-counter/src/App.js:6-43 | A state is reachable from mount by some sequence of clicks if and only if `count >= 0` and `error` implies `count == 0` (both directions) |
| CounterMachine.ReachableCountNonNegative | click-counter/src/App.js:38-42 | The count is non-negative in every reachable state |
| CounterMachine.ReachableErrorMeansZero | click-counter/src/App.js:37-43 | In every reachable state a raised error implies the count is zero |
| CounterMachine.StepKeepsReachable | click-counter/src/App.js:24-43 | A click from a reachable state leads to a reachable state |
| CounterMachine.ErrorIffRejectedDecrement | click-counter/src/App.js:37-43 | From a reachable state, a click leaves the error raised exactly when it is a decrement at count zero; an increment always clears it |
| CounterMachine.DecrementAgreesWithClearing | click-counter/src/App.js:37-43 | From every reachable state the decrement handler equals a variant that also clears the error on success, so the handler's not clearing it is unobservable |
| CounterMachine.RunCountBounds | click-counter/src/App.js:24-43 | After any run, the count is between the start count plus the increments minus the decrements and the start count plus the increments |
| CounterMachine.CountAtMostIncrements | click-counter/src/App.js:24-43 | From mount, the count is never negative and never exceeds the number of increment clicks |
| CounterView.AlertClassName | click-counter/src/App.js:16 | The alert's class attribute always starts with `"error "`, the class `error` followed by a separating space |
| CounterView.Render | click-counter/src/App.js:13 | The display span shows the state's count |
| CounterView.AlertClassList | click-counter/src/App.js:16 | The alert's class list is `["error"]` when the error is set and `["error", "hidden"]` otherwise |
| CounterView.AlertHiddenIffNoError | click-counter/src/App.js:16 | The alert lists the class `hidden` if and only if the error is false, and always lists `error` |
| CounterView.DecrementButtonAlwaysRendered | click-counter/src/App.js:33 | The decrement button's guard `count >= 0` holds in every reachable state, so the button is always rendered |
| App.Counter.constructor | click-counter/src/App.js:6-7 | A mounted component has count 0, no error, and satisfies the invariant |
| App.Counter.Increment | click-counter/src/App.js:24-29 | The increment handler clears the error and adds one to the count; it matches `CounterMachine.Increment`, keeps the invariant, and from a valid state leaves the decrement button rendered |
| App.Counter.Decrement | click-counter/src/App.js:37-43 | With a positive count the decrement handler subtracts one and leaves the error as it was. Otherwise it keeps the count and raises the error. It matches `CounterMachine.Decrement`, keeps the invariant, and from a valid state leaves the decrement button rendered |
| App.ScenarioMounted | click-counter/src/App.test.js:30-34 | A fresh mount shows 0, the alert has the `hidden` class (also App.test.js:87-92) and the decrement button is rendered (also App.test.js:67-71) |
| App.ScenarioIncrement | click-counter/src/App.test.js:54-63 | One increment from mount shows 1 with the alert hidden |
| App.ScenarioIncrementDecrement | click-counter/src/App.test.js:73-83 | An increment then a decrement from mount shows 0 with the alert hidden |
| App.ScenarioDecrementAtZero | click-counter/src/App.test.js:95-113 | A decrement at mount keeps the display at 0 and removes the `hidden` class from the alert |
| App.ScenarioDecrementThenIncrement | click-counter/src/App.test.js:114-120 | An increment after the rejected decrement restores the `hidden` class and shows 1 |
| App.ScenarioIncrementTwiceDecrement | click-counter/src/App.js:24-43 | Increment, increment, decrement from mount shows 1 with the alert hidden (an extra scenario on the handlers; no test replays it) |

## Left out

- The count is an unbounded integer. JavaScript numbers are doubles, so past 2^53 an increment would stop changing the count. The model does not capture this.
- React's `useState` mechanics are not modelled. This covers setter batching, handlers capturing `count` from the render that created them, and when re-renders happen. Each click is one atomic transition on the current state.
- The JSX markup, the CSS classes other than `error` and `hidden`, the logo import and `App.css` are not modelled. Neither are the `data-test` attributes that the tests use to find elements.
- The display's label text and the conversion of `count` to a decimal string are not modelled. The view records the integer that the span shows.
- The test harness is not modelled: Enzyme's shallow rendering, `find` and `simulate`. Its `hasClass` is modelled as membership in the class attribute split on spaces. Other whitespace never appears in this component's class attribute.
- The tests that only check that an element exists (`click-counter/src/App.test.js:18-28`, `click-counter/src/App.test.js:48-52`) are not modelled beyond the decrement button's presence. Neither is the test at `click-counter/src/App.test.js:36-44`, which reads the count before clicking and so constrains no transition.
