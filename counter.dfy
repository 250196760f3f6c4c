/**
 * The counter game: three buttons whose labels are the actions "Increment",
 * "Decrement" and "Reset". A click applies the clicked button's label to the
 * running count, shows the count, and colours it by its sign.
 */
module CounterGame {

  /** The display colour: green above zero, red below zero, the page default at zero. */
  datatype Colour = Green | Red | Default

  const Increment := "Increment"
  const Decrement := "Decrement"
  const Reset := "Reset"

  /** The count after one click on a button labelled `action`. */
  function Step(count: int, action: string): int
  {
    if action == Increment then count + 1
    else if action == Decrement then count - 1
    else if action == Reset then 0
    else count
  }

  /** The colour the display gets for `count`. */
  function ColourOf(count: int): (c: Colour)
    ensures c == Green <==> count > 0
    ensures c == Red <==> count < 0
    ensures c == Default <==> count == 0
  {
    if count > 0 then Green
    else if count < 0 then Red
    else Default
  }

  /** The count after clicking the buttons labelled `actions`, in order. */
  function Run(count: int, actions: seq<string>): int
    decreases actions
  {
    if actions == [] then count
    else Run(Step(count, actions[0]), actions[1..])
  }

  /** How many of `actions` are `a`. */
  function Occurrences(actions: seq<string>, a: string): nat
  {
    if actions == [] then 0
    else (if actions[0] == a then 1 else 0) + Occurrences(actions[1..], a)
  }

  /** A decrement undoes an increment and an increment undoes a decrement. */
  lemma StepsCancel(count: int)
    ensures Step(Step(count, Increment), Decrement) == count
    ensures Step(Step(count, Decrement), Increment) == count
  {
  }

  /** Clicking one run of buttons and then another is clicking them all. */
  lemma {:induction false} RunAppend(count: int, first: seq<string>, second: seq<string>)
    ensures Run(count, first + second) == Run(Run(count, first), second)
    decreases first
  {
    if first != [] {
      var both := first + second;
      assert both[0] == first[0] && both[1..] == first[1..] + second;
      assert Run(count, both) == Run(Step(count, first[0]), first[1..] + second);
      RunAppend(Step(count, first[0]), first[1..], second);
    } else {
      assert first + second == second;
    }
  }

  /**
   * Without a reset, the count moves by the number of increments less the
   * number of decrements; every other label leaves it where it was.
   */
  lemma {:induction false} RunWithoutReset(count: int, actions: seq<string>)
    requires Reset !in actions
    ensures Run(count, actions) ==
              count + Occurrences(actions, Increment) - Occurrences(actions, Decrement)
    decreases actions
  {
    if actions != [] {
      assert Reset !in actions[1..] by {
        assert forall k :: 0 <= k < |actions[1..]| ==> actions[1..][k] == actions[k + 1];
      }
      RunWithoutReset(Step(count, actions[0]), actions[1..]);
    }
  }

  /** After the last reset, the count depends only on the clicks that followed it. */
  lemma RunAfterLastReset(count: int, before: seq<string>, after: seq<string>)
    requires Reset !in after
    ensures Run(count, before + [Reset] + after) ==
              Occurrences(after, Increment) - Occurrences(after, Decrement)
  {
    RunAppend(count, before + [Reset], after);
    RunAppend(count, before, [Reset]);
    RunWithoutReset(0, after);
  }

  /** The count, what the display shows, and the display's colour. */
  class Counter {
    var count: int
    var display: int
    var colour: Colour

    /** The count starts at 0; the display before the first click is the page's own. */
    constructor ()
      ensures count == 0
    {
      count := 0;
      display := 0;
      colour := Default;
    }

    /** A click on the button labelled `action`. */
    method Click(action: string)
      modifies this
      ensures count == Step(old(count), action)
      ensures display == count
      ensures colour == ColourOf(count)
    {
      if action == Increment {
        count := count + 1;
      } else if action == Decrement {
        count := count - 1;
      } else if action == Reset {
        count := 0;
      }

      display := count;

      if count > 0 {
        colour := Green;
      } else if count < 0 {
        colour := Red;
      } else {
        colour := Default;
      }
    }
  }
}
