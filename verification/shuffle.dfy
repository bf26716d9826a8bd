/**
 * The Fisher-Yates pass the generator runs once per attempt. `Math.random`
 * is an explicit oracle: `rand(attempt, i)` is the value in [0, 1) drawn
 * for index `i` during attempt number `attempt` (counting from 0).
 */
module Shuffle {
  import opened SantaModel

  /** Source of the random draws, indexed by attempt and by swap position. */
  type Random = (nat, nat) -> real

  /** Every draw lies in [0, 1), as `Math.random` promises. */
  ghost predicate InUnitInterval(rand: Random) {
    forall a: nat, i: nat :: 0.0 <= rand(a, i) < 1.0
  }

  /** `Math.floor(x * (i + 1))`: the partner index for position `i`. */
  function SwapIndex(x: real, i: nat): (j: nat)
    requires 0.0 <= x < 1.0
    ensures j <= i
  {
    (x * (i + 1) as real).Floor
  }

  /** `[s[i], s[j]] = [s[j], s[i]]` on a sequence value. */
  function Swap<T>(s: seq<T>, i: nat, j: nat): (r: seq<T>)
    requires i < |s| && j < |s|
    ensures |r| == |s|
    ensures r[i] == s[j] && r[j] == s[i]
    ensures forall m :: 0 <= m < |s| && m != i && m != j ==> r[m] == s[m]
  {
    s[i := s[j]][j := s[i]]
  }

  /** A swap exchanges two entries and so keeps the multiset, of entries and of names. */
  lemma SwapPermutes(s: seq<Participant>, i: nat, j: nat)
    requires i < |s| && j < |s|
    ensures SameMembers(Swap(s, i, j), s)
  {
    assert Names(Swap(s, i, j)) == Swap(Names(s), i, j);
  }

  /**
   * The swaps of one attempt for positions k-1, k-2, ..., 1, in that order:
   * the inner loop `for (i = k - 1; i > 0; i--)` of the generator.
   */
  function ShuffleDown(s: seq<Participant>, k: nat, rand: Random, attempt: nat): (r: seq<Participant>)
    requires k <= |s|
    requires InUnitInterval(rand)
    ensures |r| == |s|
    decreases k
  {
    if k <= 1 then s
    else
      var i := k - 1;
      ShuffleDown(Swap(s, i, SwapIndex(rand(attempt, i), i)), i, rand, attempt)
  }

  /** The swaps for positions below `k` leave every entry at `k` or above where it was. */
  lemma {:induction false} ShuffleDownKeepsSuffix(s: seq<Participant>, k: nat, rand: Random, attempt: nat)
    requires k <= |s|
    requires InUnitInterval(rand)
    ensures forall m :: k <= m < |s| ==> ShuffleDown(s, k, rand, attempt)[m] == s[m]
    decreases k
  {
    if k > 1 {
      var i := k - 1;
      ShuffleDownKeepsSuffix(Swap(s, i, SwapIndex(rand(attempt, i), i)), i, rand, attempt);
    }
  }

  /** One whole Fisher-Yates pass over `s`, for attempt `attempt`. */
  function ShufflePass(s: seq<Participant>, rand: Random, attempt: nat): (r: seq<Participant>)
    requires InUnitInterval(rand)
    ensures |r| == |s|
  {
    ShuffleDown(s, |s|, rand, attempt)
  }

  /**
   * The working copy after `a` attempts. It is copied from the roster once
   * and then reshuffled where it stands, so each attempt starts from the
   * order the previous attempt left behind.
   */
  function StateAfter(ps: seq<Participant>, rand: Random, a: nat): (r: seq<Participant>)
    requires InUnitInterval(rand)
    ensures |r| == |ps|
  {
    if a == 0 then ps else ShufflePass(StateAfter(ps, rand, a - 1), rand, a - 1)
  }

  /** The arrangement that attempt number `a` (from 0) puts to the test. */
  function Candidate(ps: seq<Participant>, rand: Random, a: nat): (r: seq<Participant>)
    requires InUnitInterval(rand)
    ensures |r| == |ps|
  {
    StateAfter(ps, rand, a + 1)
  }

  /** Attempt `a` reshuffles what the attempts before it left behind. */
  lemma StateAfterStep(ps: seq<Participant>, rand: Random, a: nat)
    requires InUnitInterval(rand)
    ensures StateAfter(ps, rand, a + 1) == ShufflePass(StateAfter(ps, rand, a), rand, a)
  {
  }

  /** `s` and `t` hold the same participants, and so the same names, equally often. */
  predicate SameMembers(s: seq<Participant>, t: seq<Participant>) {
    multiset(s) == multiset(t) && multiset(Names(s)) == multiset(Names(t))
  }

  /** Every swap only rearranges: a pass keeps the multiset of the roster. */
  lemma {:induction false} ShuffleDownPermutes(s: seq<Participant>, k: nat, rand: Random, attempt: nat)
    requires k <= |s|
    requires InUnitInterval(rand)
    ensures SameMembers(ShuffleDown(s, k, rand, attempt), s)
    decreases k
  {
    if k > 1 {
      var i := k - 1;
      var j := SwapIndex(rand(attempt, i), i);
      SwapPermutes(s, i, j);
      ShuffleDownPermutes(Swap(s, i, j), i, rand, attempt);
    }
  }

  lemma ShufflePassPermutes(s: seq<Participant>, rand: Random, attempt: nat)
    requires InUnitInterval(rand)
    ensures SameMembers(ShufflePass(s, rand, attempt), s)
  {
    ShuffleDownPermutes(s, |s|, rand, attempt);
  }

  /** However many attempts ran, the working copy is a rearrangement of the roster. */
  lemma {:induction false} StateAfterPermutes(ps: seq<Participant>, rand: Random, a: nat)
    requires InUnitInterval(rand)
    ensures SameMembers(StateAfter(ps, rand, a), ps)
  {
    if a > 0 {
      StateAfterStep(ps, rand, a - 1);
      StateAfterPermutes(ps, rand, a - 1);
      ShufflePassPermutes(StateAfter(ps, rand, a - 1), rand, a - 1);
    }
  }

  /** Every arrangement put to the test is a rearrangement of the roster. */
  lemma CandidatePermutes(ps: seq<Participant>, rand: Random, a: nat)
    requires InUnitInterval(rand)
    ensures SameMembers(Candidate(ps, rand, a), ps)
  {
    StateAfterPermutes(ps, rand, a + 1);
  }
}
