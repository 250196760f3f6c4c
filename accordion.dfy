/**
 * The FAQ accordion: a list of questions, each followed by its answer. A
 * click on a question hides every other answer and marks its question as
 * collapsed, then flips the clicked question's answer and sets its
 * `aria-expanded` to match.
 */
module FaqAccordion {

  /**
   * Which answers are shown after a click on question `i`, given which were
   * shown before: every other answer is hidden and answer `i` is flipped.
   */
  function AfterClick(shown: seq<bool>, i: nat): (r: seq<bool>)
    requires i < |shown|
    ensures |r| == |shown|
    ensures forall j :: 0 <= j < |shown| && j != i ==> !r[j]
    ensures r[i] == !shown[i]
  {
    seq(|shown|, j requires 0 <= j < |shown| => if j == i then !shown[i] else false)
  }

  /** How many answers are shown. */
  function OpenCount(shown: seq<bool>): nat
  {
    if shown == [] then 0
    else (if shown[0] then 1 else 0) + OpenCount(shown[1..])
  }

  lemma {:induction false} NoneOpen(shown: seq<bool>)
    requires forall j :: 0 <= j < |shown| ==> !shown[j]
    ensures OpenCount(shown) == 0
  {
    if shown != [] {
      NoneOpen(shown[1..]);
    }
  }

  lemma {:induction false} OnlyOneMayBeOpen(shown: seq<bool>, i: nat)
    requires i < |shown|
    requires forall j :: 0 <= j < |shown| && j != i ==> !shown[j]
    ensures OpenCount(shown) == if shown[i] then 1 else 0
  {
    if i == 0 {
      NoneOpen(shown[1..]);
    } else {
      OnlyOneMayBeOpen(shown[1..], i - 1);
    }
  }

  /**
   * After any click at most one answer is shown: none when the clicked
   * answer was open, exactly the clicked one otherwise.
   */
  lemma ClickLeavesAtMostOne(shown: seq<bool>, i: nat)
    requires i < |shown|
    ensures OpenCount(AfterClick(shown, i)) == if shown[i] then 0 else 1
    ensures OpenCount(AfterClick(shown, i)) <= 1
  {
    OnlyOneMayBeOpen(AfterClick(shown, i), i);
  }

  /** Clicking the only open question twice returns to where it started. */
  lemma ClickTwiceRestores(shown: seq<bool>, i: nat)
    requires i < |shown|
    requires forall j :: 0 <= j < |shown| && j != i ==> !shown[j]
    ensures AfterClick(AfterClick(shown, i), i) == shown
  {
  }

  /** Clicking another question after question `i` leaves that other question the only one open. */
  lemma ClickOtherSwitches(shown: seq<bool>, i: nat, k: nat)
    requires i < |shown| && k < |shown| && i != k
    ensures forall j :: 0 <= j < |shown| ==> (AfterClick(AfterClick(shown, i), k)[j] <==> j == k)
  {
  }

  /** Each answer's visibility and its question's `aria-expanded` flag. */
  class Accordion {
    var answerShown: array<bool>
    var ariaExpanded: array<bool>

    ghost predicate Valid()
      reads this
    {
      answerShown.Length == ariaExpanded.Length && answerShown != ariaExpanded
    }

    /** `n` questions, no answer shown and none marked expanded. */
    constructor (n: nat)
      ensures Valid() && answerShown.Length == n
      ensures fresh(answerShown) && fresh(ariaExpanded)
      ensures forall j :: 0 <= j < n ==> !answerShown[j] && !ariaExpanded[j]
    {
      answerShown := new bool[n](_ => false);
      ariaExpanded := new bool[n](_ => false);
    }

    /** A click on question `i`. */
    method Click(i: nat)
      requires Valid() && i < answerShown.Length
      modifies answerShown, ariaExpanded
      ensures Valid()
      ensures answerShown[..] == AfterClick(old(answerShown[..]), i)
      ensures ariaExpanded[..] == answerShown[..]
    {
      var n := answerShown.Length;
      var j := 0;
      while j < n
        invariant 0 <= j <= n
        invariant forall k :: 0 <= k < j && k != i ==> !answerShown[k] && !ariaExpanded[k]
        invariant forall k :: 0 <= k < n && (j <= k || k == i) ==> answerShown[k] == old(answerShown[k])
      {
        if j != i {
          answerShown[j] := false;
          ariaExpanded[j] := false;
        }
        j := j + 1;
      }

      var isExpanded := answerShown[i];
      answerShown[i] := !isExpanded;
      ariaExpanded[i] := !isExpanded;
    }
  }
}
