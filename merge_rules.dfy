/** Pure rules over one line (a row or a column) of cell types:
    runs of three, the "would this exchange merge" predicates used by the
    move handler and the stalemate check, and the run scans that collect
    cells for destruction after a move. A line is the sequence of the
    types of its cells, index 0 first. */
module MergeRules {

  /** Three equal types start at index j of line s. */
  predicate TripleAt(s: seq<int>, j: int) {
    0 <= j && j + 2 < |s| && s[j] == s[j + 1] && s[j] == s[j + 2]
  }

  /** Some run of three equal types covers index i of line s. */
  predicate TripleThrough(s: seq<int>, i: int) {
    TripleAt(s, i - 2) || TripleAt(s, i - 1) || TripleAt(s, i)
  }

  /** Cell i starts or ends a run of three equal types in s (the test of
      CheckCellAfterSwitch: a cell in the middle of a run is not caught). */
  predicate StartsOrEndsTriple(s: seq<int>, i: int) {
    TripleAt(s, i) || TripleAt(s, i - 2)
  }

  /** Line s with the types at i and j exchanged. */
  function Exchange(s: seq<int>, i: int, j: int): (r: seq<int>)
    requires 0 <= i < |s| && 0 <= j < |s|
    ensures |r| == |s| && r[i] == s[j] && r[j] == s[i]
    ensures forall k :: 0 <= k < |s| && k != i && k != j ==> r[k] == s[k]
    ensures multiset(r) == multiset(s)
  {
    s[i := s[j]][j := s[i]]
  }

  /** CheckRightCellsAvailableToMerge: exchanging cell i with cell i + 1
      lines up three equal types, either at i + 1 .. i + 3 (forward) or at
      i - 2 .. i (back). The result is exactly "the exchange puts a run of
      three through one of the two exchanged cells". */
  function RightAvailable(i: int, s: seq<int>): (r: bool)
    requires 0 <= i < |s|
    ensures r <==> i + 1 < |s| && s[i] != s[i + 1]
                   && (TripleThrough(Exchange(s, i, i + 1), i) || TripleThrough(Exchange(s, i, i + 1), i + 1))
  {
    var forwardValid := i + 1 < |s| && i + 2 < |s| && i + 3 < |s|;
    var backValid := i + 1 < |s| && i - 1 >= 0 && i - 2 >= 0;
    (forwardValid && s[i] != s[i + 1] && s[i] == s[i + 2] && s[i] == s[i + 3])
    || (backValid && s[i] != s[i + 1] && s[i + 1] == s[i - 1] && s[i + 1] == s[i - 2])
  }

  /** CheckLeftCellsAvailableToMerge: the mirror image, for exchanging
      cell i with cell i - 1. */
  function LeftAvailable(i: int, s: seq<int>): (r: bool)
    requires 0 <= i < |s|
    ensures r <==> 1 <= i && s[i] != s[i - 1]
                   && (TripleThrough(Exchange(s, i - 1, i), i - 1) || TripleThrough(Exchange(s, i - 1, i), i))
  {
    var backValid := i - 1 >= 0 && i - 2 >= 0 && i - 3 >= 0;
    var forwardValid := i + 1 < |s| && i + 2 < |s| && i - 1 >= 0;
    (backValid && s[i] != s[i - 1] && s[i] == s[i - 2] && s[i] == s[i - 3])
    || (forwardValid && s[i] != s[i - 1] && s[i - 1] == s[i + 1] && s[i - 1] == s[i + 2])
  }

  /** CheckCellsFromParallelLineAvailableToMerge: cell i of line c is
      exchanged with cell i of the neighbouring parallel line p. True
      exactly when the exchange puts a run of three through index i of c
      or of p. */
  function ParallelAvailable(i: int, c: seq<int>, p: seq<int>): (r: bool)
    requires 0 <= i < |c| && |p| == |c|
    ensures r <==> c[i] != p[i] && (TripleThrough(c[i := p[i]], i) || TripleThrough(p[i := c[i]], i))
  {
    var nearestOnCheckValid := i - 1 >= 0 && i + 1 < |c|;
    var nearestOnParallelValid := i - 1 >= 0 && i + 1 < |p|;
    var backValid := i - 1 >= 0 && i - 2 >= 0;
    var forwardOnCheckValid := i + 1 < |c| && i + 2 < |c|;
    var forwardOnParallelValid := i + 1 < |p| && i + 2 < |p|;
    if nearestOnCheckValid && c[i] != p[i] && c[i] == p[i + 1] && c[i] == p[i - 1] then true
    else if nearestOnParallelValid && c[i] != p[i] && p[i] == c[i + 1] && p[i] == c[i - 1] then true
    else if backValid
            && ((c[i] != p[i] && c[i] == p[i - 1] && c[i] == p[i - 2])
                || (c[i] != p[i] && p[i] == c[i - 1] && p[i] == c[i - 2])) then true
    else if forwardOnCheckValid && c[i] != p[i] && c[i] == p[i + 1] && c[i] == p[i + 2] then true
    else forwardOnParallelValid && c[i] != p[i] && p[i] == c[i + 1] && p[i] == c[i + 2]
  }

  /** The left predicate at i is the right predicate at i - 1: both ask
      about the same pair of cells. */
  lemma LeftMirrorsRight(i: int, s: seq<int>)
    requires 1 <= i < |s|
    ensures LeftAvailable(i, s) == RightAvailable(i - 1, s)
  {
  }

  /** Some index of line s admits a merging exchange with a neighbour. */
  predicate LineHasMergeOption(s: seq<int>) {
    exists i :: 0 <= i < |s| && (RightAvailable(i, s) || LeftAvailable(i, s))
  }

  /** The indices after `from` whose type is t, up to the first that is
      not: what the ascending scan loops of SelectCellsForDestroying append. */
  function RunForward(s: seq<int>, from: int, t: int): seq<int>
    requires -1 <= from < |s|
    decreases |s| - from
  {
    if from + 1 < |s| && s[from + 1] == t then [from + 1] + RunForward(s, from + 1, t) else []
  }

  /** The indices before `from` whose type is t, nearest first, down to the
      first that is not: the descending scan loops. */
  function RunBackward(s: seq<int>, from: int, t: int): seq<int>
    requires 0 <= from <= |s|
    decreases from
  {
    if from - 1 >= 0 && s[from - 1] == t then [from - 1] + RunBackward(s, from - 1, t) else []
  }

  /** The forward run is the maximal block of t right after `from`. */
  lemma {:induction false} RunForwardMaximal(s: seq<int>, from: int, t: int)
    requires -1 <= from < |s|
    ensures var r := RunForward(s, from, t);
      && from + 1 + |r| <= |s|
      && (forall k :: 0 <= k < |r| ==> r[k] == from + 1 + k && s[r[k]] == t)
      && (from + 1 + |r| == |s| || s[from + 1 + |r|] != t)
    decreases |s| - from
  {
    if from + 1 < |s| && s[from + 1] == t {
      var rest := RunForward(s, from + 1, t);
      RunForwardMaximal(s, from + 1, t);
      assert RunForward(s, from, t) == [from + 1] + rest;
    }
  }

  /** The backward run is the maximal block of t right before `from`. */
  lemma {:induction false} RunBackwardMaximal(s: seq<int>, from: int, t: int)
    requires 0 <= from <= |s|
    ensures var r := RunBackward(s, from, t);
      && |r| <= from
      && (forall k :: 0 <= k < |r| ==> r[k] == from - 1 - k && s[r[k]] == t)
      && (|r| == from || s[from - 1 - |r|] != t)
    decreases from
  {
    if from - 1 >= 0 && s[from - 1] == t {
      var rest := RunBackward(s, from - 1, t);
      RunBackwardMaximal(s, from - 1, t);
      assert RunBackward(s, from, t) == [from - 1] + rest;
    }
  }

  /** A scan that stopped at index i (end of line, or a different type) after
      seeing only t since `from` has collected exactly the forward run. */
  lemma {:induction false} RunForwardStopsAt(s: seq<int>, from: int, t: int, i: int)
    requires -1 <= from < i <= |s|
    requires forall k :: from < k < i ==> s[k] == t
    requires i == |s| || s[i] != t
    ensures RunForward(s, from, t) == seq(i - from - 1, k => from + 1 + k)
    decreases i - from
  {
    if from + 1 < i {
      RunForwardStopsAt(s, from + 1, t, i);
    }
  }

  /** The mirror of RunForwardStopsAt for the descending scans. */
  lemma {:induction false} RunBackwardStopsAt(s: seq<int>, from: int, t: int, i: int)
    requires -1 <= i < from <= |s|
    requires forall k :: i < k < from ==> s[k] == t
    requires i == -1 || s[i] != t
    ensures RunBackward(s, from, t) == seq(from - i - 1, k => from - 1 - k)
    decreases from - i
  {
    if i + 1 < from {
      RunBackwardStopsAt(s, from - 1, t, i);
    }
  }
}
