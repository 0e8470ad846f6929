/**
 * The selection cursor of `selectNextItem` and `selectPreviousItem`
 * (content.js:410-425): an index that wraps around the `n` rendered items
 * and stays put when nothing is rendered.
 */
module Cursor {

  /** `(i + 1) % n`, or `i` unchanged when `n` is 0. */
  function Next(i: nat, n: nat): (r: nat)
    ensures n == 0 ==> r == i
    ensures n > 0 ==> r < n
    ensures n > 0 && i + 1 < n ==> r == i + 1
    ensures n > 0 && i + 1 == n ==> r == 0
  {
    if n == 0 then i else (i + 1) % n
  }

  /** `(i - 1 + n) % n`, or `i` unchanged when `n` is 0. */
  function Prev(i: nat, n: nat): (r: nat)
    ensures n == 0 ==> r == i
    ensures n > 0 ==> r < n
    ensures n > 0 && 0 < i <= n ==> r == i - 1
    ensures n > 0 && i == 0 ==> r == n - 1
  {
    if n == 0 then i else (i - 1 + n) % n
  }

  /** For a selection in range, moving down then up returns to it. */
  lemma PrevUndoesNext(i: nat, n: nat)
    requires i < n
    ensures Prev(Next(i, n), n) == i
  {
  }

  /** For a selection in range, moving up then down returns to it. */
  lemma NextUndoesPrev(i: nat, n: nat)
    requires i < n
    ensures Next(Prev(i, n), n) == i
  {
  }

  /** The selection after `k` presses of the down arrow. */
  function Steps(i: nat, n: nat, k: nat): nat {
    if k == 0 then i else Next(Steps(i, n, k - 1), n)
  }

  /** Pressing the down arrow `a` times and then `b` times is pressing it `a + b` times. */
  lemma {:induction false} StepsCompose(i: nat, n: nat, a: nat, b: nat)
    ensures Steps(Steps(i, n, a), n, b) == Steps(i, n, a + b)
    decreases b
  {
    if b > 0 {
      StepsCompose(i, n, a, b - 1);
    }
  }

  /** While the end of the list is not reached, each press moves the selection one place down. */
  lemma {:induction false} StepsWithin(i: nat, n: nat, k: nat)
    requires i + k < n
    ensures Steps(i, n, k) == i + k
    decreases k
  {
    if k > 0 {
      StepsWithin(i, n, k - 1);
    }
  }

  /** From a selection in range, `n` presses go once round the list and back to it. */
  lemma FullCycle(i: nat, n: nat)
    requires i < n
    ensures Steps(i, n, n) == i
  {
    StepsWithin(i, n, n - i - 1);
    assert Steps(i, n, n - i) == 0;
    StepsCompose(i, n, n - i, i);
    StepsWithin(0, n, i);
  }
}
