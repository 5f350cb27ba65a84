/** Moving through the list of distinct sentences: the position `u_index`
    and how the Prev, Next, Save and Restart buttons change it. */
module Navigation {

  /** The buttons that move the position. `SavedAdvance` is the move that
      follows a save. */
  datatype Event = PrevButton | NextButton | SavedAdvance | RestartButton

  /** The position is a sentence of a non-empty list, or 0 for an empty one. */
  predicate InRange(i: int, n: nat)
  {
    0 <= i && (i < n || i == 0)
  }

  /** The "All done" screen is shown. */
  predicate Done(i: int, n: nat)
  {
    i >= n
  }

  /** One button press on the page for position i of n sentences. The done
      screen only offers Restart; a sentence page offers the other three.
      Prev moves back, Next and the post-save move forward, each only where
      there is a sentence to move to; Restart goes back to the first sentence. */
  function Step(i: int, n: nat, e: Event): (j: int)
    ensures InRange(i, n) ==> InRange(j, n)
    ensures e != RestartButton ==> i - 1 <= j <= i + 1
    ensures e == PrevButton && 0 < i < n ==> j == i - 1
    ensures e == PrevButton && i <= 0 ==> j == i
    ensures (e == NextButton || e == SavedAdvance) && 0 <= i < n - 1 ==> j == i + 1
    ensures (e == NextButton || e == SavedAdvance) && i == n - 1 ==> j == i
    ensures e == RestartButton && Done(i, n) ==> j == 0
    ensures e == RestartButton && !Done(i, n) ==> j == i
    ensures e != RestartButton && Done(i, n) ==> j == i
  {
    if i >= n then
      (if e == RestartButton then 0 else i)
    else
      match e
      case PrevButton => if i > 0 then i - 1 else i
      case NextButton => if i < n - 1 then i + 1 else i
      case SavedAdvance => if i < n - 1 then i + 1 else i
      case RestartButton => i
  }

  /** The position after a sequence of button presses. Whatever the annotator
      presses, the position stays in range. */
  function Run(i: int, n: nat, es: seq<Event>): (j: int)
    ensures InRange(i, n) ==> InRange(j, n)
    decreases |es|
  {
    if es == [] then i else Run(Step(i, n, es[0]), n, es[1..])
  }

  /** Starting from the first sentence, the done screen is reachable only when
      the list of sentences is empty. */
  lemma DoneOnlyWhenEmpty(n: nat, es: seq<Event>)
    ensures Done(Run(0, n, es), n) <==> n == 0
  {
  }

  function Presses(e: Event, k: nat): (es: seq<Event>)
    ensures |es| == k && forall j :: 0 <= j < k ==> es[j] == e
  {
    if k == 0 then [] else [e] + Presses(e, k - 1)
  }

  /** Every sentence is reachable from the first by pressing Next. */
  lemma {:induction false} NextReachesEverySentence(n: nat, k: nat, i: nat)
    requires i + k < n
    ensures Run(i, n, Presses(NextButton, k)) == i + k
  {
    if k > 0 {
      var es := Presses(NextButton, k);
      assert es[1..] == Presses(NextButton, k - 1);
      NextReachesEverySentence(n, k - 1, i + 1);
    }
  }

  /** Prev undoes Next, and Next undoes Prev, away from the ends of the list. */
  lemma PrevUndoesNext(i: int, n: nat)
    requires 0 <= i < n - 1
    ensures Step(Step(i, n, NextButton), n, PrevButton) == i
  {
  }

  lemma NextUndoesPrev(i: int, n: nat)
    requires 0 < i < n
    ensures Step(Step(i, n, PrevButton), n, NextButton) == i
  {
  }

  /** Saving on the last sentence keeps the annotator there. */
  lemma SaveOnLastStays(n: nat)
    requires n > 0
    ensures Step(n - 1, n, SavedAdvance) == n - 1
  {
  }
}
