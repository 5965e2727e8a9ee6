/**
 * Bracket matching as `next_state` does it at run time: a forward scan with a
 * depth counter for `[` and a backward scan for `]`.
 *
 * `ScanForward` and `ScanBackward` are the two scan loops written as
 * functions; `FindForward` and `FindBackward` are the loops themselves, proved
 * equal to them. `Depth` gives the scans a declarative meaning: a match is the
 * first (resp. last) position at which the net nesting depth returns to zero.
 */
module Brackets {

  datatype Option<T> = None | Some(value: T)

  /** How one instruction byte changes the nesting depth. */
  function Delta(c: char): int {
    if c == '[' then 1 else if c == ']' then -1 else 0
  }

  /** Net nesting depth of `s[lo..hi]`: the number of `[` minus the number of `]`. */
  function Depth(s: seq<char>, lo: nat, hi: nat): int
    requires lo <= hi <= |s|
    decreases hi - lo
  {
    if lo == hi then 0 else Depth(s, lo, hi - 1) + Delta(s[hi - 1])
  }

  /** Depth is additive over adjacent slices. */
  lemma {:induction false} DepthSplit(s: seq<char>, lo: nat, mid: nat, hi: nat)
    requires lo <= mid <= hi <= |s|
    ensures Depth(s, lo, hi) == Depth(s, lo, mid) + Depth(s, mid, hi)
    decreases hi - mid
  {
    if mid < hi {
      DepthSplit(s, lo, mid, hi - 1);
    }
  }

  /** The depth of a one-byte slice is that byte's own contribution. */
  lemma DepthSingle(s: seq<char>, i: nat)
    requires i < |s|
    ensures Depth(s, i, i + 1) == Delta(s[i])
  {
  }

  // ---------------------------------------------------------------------------
  // Declarative meaning of a match
  // ---------------------------------------------------------------------------

  /**
   * `j` matches the `[` at `p`: the depth of `s[p..j+1]` is zero and the depth
   * of every shorter non-empty prefix `s[p..h]` is still positive.
   */
  ghost predicate IsForwardMatch(s: seq<char>, p: nat, j: nat) {
    p <= j < |s| && Depth(s, p, j + 1) == 0 &&
    forall h :: p < h <= j ==> Depth(s, p, h) > 0
  }

  /** No position after the `[` at `p` closes it: the depth stays positive to the end. */
  ghost predicate NoForwardMatch(s: seq<char>, p: nat)
    requires p <= |s|
  {
    forall h :: p < h <= |s| ==> Depth(s, p, h) > 0
  }

  /**
   * `j` matches the `]` at `q`: the depth of `s[j..q+1]` is zero and the depth
   * of every shorter non-empty suffix `s[l..q+1]` is still negative.
   */
  ghost predicate IsBackwardMatch(s: seq<char>, j: nat, q: nat) {
    j <= q < |s| && Depth(s, j, q + 1) == 0 &&
    var end := q + 1;
    forall l :: j < l <= q ==> Depth(s, l, end) < 0
  }

  /** No position before the `]` at `q` opens it: every suffix ending at `q` has negative depth. */
  ghost predicate NoBackwardMatch(s: seq<char>, q: nat)
    requires q < |s|
  {
    var end := q + 1;
    forall l :: 0 <= l <= q ==> Depth(s, l, end) < 0
  }

  // ---------------------------------------------------------------------------
  // The forward scan (the `[` arm of next_state)
  // ---------------------------------------------------------------------------

  /**
   * The forward scan loop from index `i` with counter value `depth`: `[`
   * increments, `]` decrements and stops the scan when the counter hits zero.
   */
  function ScanForward(s: seq<char>, i: nat, depth: int): Option<nat>
    requires i <= |s|
    decreases |s| - i
  {
    if i == |s| then None
    else
      var d := depth + Delta(s[i]);
      if s[i] == ']' && d == 0 then Some(i) else ScanForward(s, i + 1, d)
  }

  /** The scan started at the `[` at `p` with the counter at zero. */
  function MatchForward(s: seq<char>, p: nat): Option<nat>
    requires p < |s| && s[p] == '['
  {
    ScanForward(s, p, 0)
  }

  /** What the forward scan finds, given that it has seen only positive depths so far. */
  lemma {:induction false} ScanForwardCorrect(s: seq<char>, p: nat, i: nat, depth: int)
    requires p < |s| && s[p] == '['
    requires p <= i <= |s| && depth == Depth(s, p, i)
    requires forall h :: p < h <= i ==> Depth(s, p, h) > 0
    ensures match ScanForward(s, i, depth)
      case Some(j) => IsForwardMatch(s, p, j)
      case None => NoForwardMatch(s, p)
    decreases |s| - i
  {
    if i < |s| {
      var d := depth + Delta(s[i]);
      assert d == Depth(s, p, i + 1);
      if !(s[i] == ']' && d == 0) {
        if i > p {
          assert Depth(s, p, i) > 0;
        }
        assert d > 0;
        ScanForwardCorrect(s, p, i + 1, d);
      }
    }
  }

  /** The forward scan finds `j` exactly when `j` is the forward match of `p`. */
  lemma MatchForwardIff(s: seq<char>, p: nat, j: nat)
    requires p < |s| && s[p] == '['
    ensures MatchForward(s, p) == Some(j) <==> IsForwardMatch(s, p, j)
  {
    ScanForwardCorrect(s, p, p, 0);
  }

  /** The forward scan comes back empty exactly when the `[` at `p` has no match. */
  lemma MatchForwardNoneIff(s: seq<char>, p: nat)
    requires p < |s| && s[p] == '['
    ensures MatchForward(s, p) == None <==> NoForwardMatch(s, p)
  {
    ScanForwardCorrect(s, p, p, 0);
  }

  /** The forward scan's loop: `i` runs from `pc` to the end of the program. */
  method FindForward(s: seq<char>, pc: nat) returns (r: Option<nat>)
    requires pc < |s| && s[pc] == '['
    ensures r == MatchForward(s, pc)
  {
    var openBracketCount := 0;
    var i := pc;
    while i < |s|
      invariant pc <= i <= |s|
      invariant ScanForward(s, i, openBracketCount) == MatchForward(s, pc)
    {
      if s[i] == '[' {
        openBracketCount := openBracketCount + 1;
      } else if s[i] == ']' {
        openBracketCount := openBracketCount - 1;
        if openBracketCount == 0 {
          return Some(i);
        }
      }
      i := i + 1;
    }
    return None;
  }

  // ---------------------------------------------------------------------------
  // The backward scan (the `]` arm of next_state)
  // ---------------------------------------------------------------------------

  /**
   * The backward scan loop from index `i` down with counter value `depth`:
   * `]` increments, `[` decrements and stops the scan when the counter hits
   * zero. `None` means the scan ran past index 0 without a match.
   */
  function ScanBackward(s: seq<char>, i: int, depth: int): Option<nat>
    requires -1 <= i < |s|
    decreases i + 1
  {
    if i < 0 then None
    else
      var d := depth - Delta(s[i]);
      if s[i] == '[' && d == 0 then Some(i) else ScanBackward(s, i - 1, d)
  }

  /** The scan started at the `]` at `q` with the counter at zero. */
  function MatchBackward(s: seq<char>, q: nat): Option<nat>
    requires q < |s| && s[q] == ']'
  {
    ScanBackward(s, q, 0)
  }

  /** What the backward scan finds, given that it has seen only negative depths so far. */
  lemma {:induction false} ScanBackwardCorrect(s: seq<char>, q: nat, i: int, depth: int)
    requires q < |s| && s[q] == ']'
    requires -1 <= i <= q && depth == -Depth(s, i + 1, q + 1)
    requires var end := q + 1; forall l :: i < l <= q ==> Depth(s, l, end) < 0
    ensures match ScanBackward(s, i, depth)
      case Some(j) => IsBackwardMatch(s, j, q)
      case None => NoBackwardMatch(s, q)
    decreases i + 1
  {
    if i >= 0 {
      var d := depth - Delta(s[i]);
      DepthSplit(s, i, i + 1, q + 1);
      assert d == -Depth(s, i, q + 1);
      if !(s[i] == '[' && d == 0) {
        if i < q {
          assert Depth(s, i + 1, q + 1) < 0;
        }
        assert d > 0;
        ScanBackwardCorrect(s, q, i - 1, d);
      }
    }
  }

  /** The backward scan finds `j` exactly when `j` is the backward match of `q`. */
  lemma MatchBackwardIff(s: seq<char>, j: nat, q: nat)
    requires q < |s| && s[q] == ']'
    ensures MatchBackward(s, q) == Some(j) <==> IsBackwardMatch(s, j, q)
  {
    ScanBackwardCorrect(s, q, q, 0);
  }

  /** The backward scan comes back empty exactly when the `]` at `q` has no match. */
  lemma MatchBackwardNoneIff(s: seq<char>, q: nat)
    requires q < |s| && s[q] == ']'
    ensures MatchBackward(s, q) == None <==> NoBackwardMatch(s, q)
  {
    ScanBackwardCorrect(s, q, q, 0);
  }

  /**
   * The backward scan's loop: `i` runs from `pc` down to 0. Returning `None`
   * stands for the case where the unsigned index would wrap below zero.
   */
  method FindBackward(s: seq<char>, pc: nat) returns (r: Option<nat>)
    requires pc < |s| && s[pc] == ']'
    ensures r == MatchBackward(s, pc)
  {
    var closeBracketCount := 0;
    var i: int := pc;
    while i >= 0
      invariant -1 <= i <= pc
      invariant ScanBackward(s, i, closeBracketCount) == MatchBackward(s, pc)
    {
      if s[i] == ']' {
        closeBracketCount := closeBracketCount + 1;
      } else if s[i] == '[' {
        closeBracketCount := closeBracketCount - 1;
        if closeBracketCount == 0 {
          return Some(i);
        }
      }
      i := i - 1;
    }
    return None;
  }

  // ---------------------------------------------------------------------------
  // The two scans agree: what a jump index would have to satisfy
  // ---------------------------------------------------------------------------

  /** The `]` found from a `[` leads back to that same `[`. */
  lemma ForwardThenBackward(s: seq<char>, p: nat, q: nat)
    requires p < |s| && s[p] == '['
    requires MatchForward(s, p) == Some(q)
    ensures q < |s| && s[q] == ']'
    ensures MatchBackward(s, q) == Some(p)
  {
    MatchForwardIff(s, p, q);
    DepthSingle(s, p);
    assert p < q;
    assert Depth(s, p, q) > 0;
    assert s[q] == ']';
    var end := q + 1;
    forall l | p < l <= q
      ensures Depth(s, l, end) < 0
    {
      DepthSplit(s, p, l, end);
      assert Depth(s, p, l) > 0;
    }
    MatchBackwardIff(s, p, q);
  }

  /** The `[` found from a `]` leads forward to that same `]`. */
  lemma BackwardThenForward(s: seq<char>, q: nat, p: nat)
    requires q < |s| && s[q] == ']'
    requires MatchBackward(s, q) == Some(p)
    ensures p < |s| && s[p] == '['
    ensures MatchForward(s, p) == Some(q)
  {
    MatchBackwardIff(s, p, q);
    DepthSingle(s, q);
    assert p < q;
    DepthSplit(s, p, p + 1, q + 1);
    assert Depth(s, p + 1, q + 1) < 0;
    assert s[p] == '[';
    forall h | p < h <= q
      ensures Depth(s, p, h) > 0
    {
      DepthSplit(s, p, h, q + 1);
      assert Depth(s, h, q + 1) < 0;
    }
    MatchForwardIff(s, p, q);
  }

  // ---------------------------------------------------------------------------
  // Balanced programs
  // ---------------------------------------------------------------------------

  /** Every prefix has non-negative depth and the whole program has depth zero. */
  ghost predicate Balanced(s: seq<char>) {
    Depth(s, 0, |s|) == 0 && forall h :: 0 <= h <= |s| ==> Depth(s, 0, h) >= 0
  }

  /** Every `[` has a match found by the forward scan. */
  ghost predicate OpenersMatched(s: seq<char>) {
    forall p :: 0 <= p < |s| && s[p] == '[' ==> MatchForward(s, p).Some?
  }

  /** Every `]` has a match found by the backward scan, so that scan never runs off the start. */
  ghost predicate ClosersMatched(s: seq<char>) {
    forall q :: 0 <= q < |s| && s[q] == ']' ==> MatchBackward(s, q).Some?
  }

  /** On a balanced program neither scan ever comes back empty. */
  lemma BalancedIsMatched(s: seq<char>)
    requires Balanced(s)
    ensures OpenersMatched(s) && ClosersMatched(s)
  {
    forall p | 0 <= p < |s| && s[p] == '['
      ensures MatchForward(s, p).Some?
    {
      MatchForwardNoneIff(s, p);
      DepthSplit(s, 0, p, |s|);
      assert Depth(s, 0, p) >= 0;
      assert Depth(s, p, |s|) <= 0;
    }
    forall q | 0 <= q < |s| && s[q] == ']'
      ensures MatchBackward(s, q).Some?
    {
      MatchBackwardNoneIff(s, q);
      assert Depth(s, 0, q + 1) >= 0;
    }
  }
}
