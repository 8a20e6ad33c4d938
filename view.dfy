/**
 What the component renders from its state: the count shown in the display
 span, the class attribute of the alert line, and whether the decrement
 button is present.
 */
module CounterView {
  import opened CounterMachine

  /** The observable parts of one render. */
  datatype View = View(count: int, alertClass: string, decrementButton: bool)

  /** The alert's class attribute: "error " followed by "hidden" unless the error is set. */
  function AlertClassName(error: bool): (r: string)
    ensures |r| >= |"error "| && r[..|"error "|] == "error "
  {
    "error " + (if error then "" else "hidden")
  }

  /** The render of a state. */
  function Render(s: CounterState): (v: View)
    ensures v.count == s.count
  {
    View(s.count, AlertClassName(s.error), s.count >= 0)
  }

  /** The words of `word + s`, split on spaces, with empty words dropped. */
  function Split(s: string, word: string): seq<string>
    decreases |s|
  {
    if s == [] then Flush(word)
    else if s[0] == ' ' then Flush(word) + Split(s[1..], "")
    else Split(s[1..], word + [s[0]])
  }

  /** The pending word, unless it is empty. */
  function Flush(word: string): (ws: seq<string>)
    ensures "" !in ws
  {
    if word == "" then [] else [word]
  }

  /** The list of class names in a class attribute. */
  function ClassList(className: string): seq<string>
  {
    Split(className, "")
  }

  /** Whether a class attribute lists the class `name`. */
  predicate HasClass(className: string, name: string)
  {
    name in ClassList(className)
  }

  /** A run of non-space characters joins the pending word. */
  lemma {:induction false} SplitWord(w: string, rest: string, word: string)
    requires ' ' !in w
    ensures Split(w + rest, word) == Split(rest, word + w)
    decreases |w|
  {
    if w == [] {
      assert w + rest == rest && word + w == word;
    } else {
      var s := w + rest;
      assert s[0] == w[0] && s[0] != ' ' && s[1..] == w[1..] + rest;
      assert Split(s, word) == Split(w[1..] + rest, word + [w[0]]);
      assert ' ' !in w[1..] by {
        forall i | 0 <= i < |w[1..]| ensures w[1..][i] != ' ' {
          assert w[1..][i] == w[i + 1];
        }
      }
      SplitWord(w[1..], rest, word + [w[0]]);
      assert word + [w[0]] + w[1..] == word + w;
    }
  }

  /** A space ends the pending word. */
  lemma SplitSpace(rest: string, word: string)
    ensures Split([' '] + rest, word) == Flush(word) + Split(rest, "")
  {
    assert ([' '] + rest)[0] == ' ' && ([' '] + rest)[1..] == rest;
  }

  /** Two space-free words separated by one space make a list of those two words. */
  lemma ClassListOfTwo(a: string, b: string)
    requires a != "" && ' ' !in a && ' ' !in b
    ensures ClassList(a + [' '] + b) == [a] + Flush(b)
  {
    assert a + [' '] + b == a + ([' '] + b);
    SplitWord(a, [' '] + b, "");
    assert "" + a == a;
    SplitSpace(b, a);
    SplitWord(b, "", "");
    assert b + "" == b && "" + b == b;
  }

  /** The class list of the alert in either state of the error flag. */
  lemma AlertClassList(error: bool)
    ensures ClassList(AlertClassName(error)) == if error then ["error"] else ["error", "hidden"]
  {
    var tail: string := if error then "" else "hidden";
    assert ' ' !in "error" && ' ' !in "hidden";
    assert AlertClassName(error) == "error" + [' '] + tail;
    ClassListOfTwo("error", tail);
  }

  /** The alert lists the class "hidden" exactly when the error flag is clear. */
  lemma AlertHiddenIffNoError(s: CounterState)
    ensures HasClass(Render(s).alertClass, "hidden") <==> !s.error
    ensures HasClass(Render(s).alertClass, "error")
  {
    AlertClassList(s.error);
  }

  /** The decrement button is rendered in every reachable state. */
  lemma DecrementButtonAlwaysRendered(s: CounterState)
    requires Reachable(s)
    ensures Render(s).decrementButton
  {
    ReachableCountNonNegative(s);
  }
}
