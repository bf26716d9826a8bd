/**
 * `generateSecretSantaPairs`: rejection sampling over shuffles of the
 * roster. Each attempt reshuffles the working copy, pairs the i-th roster
 * entry (giver) with the i-th entry of the copy (receiver), and keeps the
 * first arrangement in which every pair is allowed; after 100 rejected
 * attempts it gives up.
 */
module Generator {
  import opened SantaModel
  import opened Shuffle

  const MaxAttempts: nat := 100

  /** The exception thrown when no attempt produced an allowed arrangement. */
  datatype GenError = Infeasible

  datatype Result<T> = Success(value: T) | Failure(error: GenError)

  /** Every giver passes the check against the receiver at the same position. */
  predicate ValidArrangement(ps: seq<Participant>, shuffled: seq<Participant>, reg: Registry)
    requires |shuffled| == |ps|
  {
    forall i :: 0 <= i < |ps| ==> Allowed(reg, ps[i].name, shuffled[i].name)
  }

  /** `participants.map((giver, index) => ...)`: the list handed back on success. */
  function BuildPairs(ps: seq<Participant>, shuffled: seq<Participant>): (pairs: seq<Pair>)
    requires |shuffled| == |ps|
    ensures |pairs| == |ps|
    ensures forall i :: 0 <= i < |ps| ==> pairs[i].giver == ps[i].name && pairs[i].giverPhone == ps[i].phone
    ensures Receivers(pairs) == Names(shuffled)
  {
    seq(|ps|, k requires 0 <= k < |ps| => Pair(ps[k].name, ps[k].phone, shuffled[k].name))
  }

  /**
   * What a successful run promises: one pair per roster entry in roster
   * order, the receivers are the roster's names rearranged, and no pair
   * is a self-gift or a repeat of a registered match.
   */
  predicate IsAssignment(ps: seq<Participant>, reg: Registry, pairs: seq<Pair>) {
    && |pairs| == |ps|
    && (forall i :: 0 <= i < |ps| ==> pairs[i].giver == ps[i].name && pairs[i].giverPhone == ps[i].phone)
    && multiset(Receivers(pairs)) == multiset(Names(ps))
    && (forall i :: 0 <= i < |pairs| ==> Allowed(reg, pairs[i].giver, pairs[i].receiver))
  }

  /** Attempt number `a` (from 0) finds its arrangement acceptable. */
  ghost predicate AttemptSucceeds(ps: seq<Participant>, reg: Registry, rand: Random, a: nat)
    requires InUnitInterval(rand)
  {
    ValidArrangement(ps, Candidate(ps, rand, a), reg)
  }

  lemma BuildPairsIsAssignment(ps: seq<Participant>, shuffled: seq<Participant>, reg: Registry)
    requires |shuffled| == |ps|
    requires multiset(Names(shuffled)) == multiset(Names(ps))
    requires ValidArrangement(ps, shuffled, reg)
    ensures IsAssignment(ps, reg, BuildPairs(ps, shuffled))
  {
  }

  /** One in-place Fisher-Yates pass, from the last index down to 1. */
  method FisherYates(s: seq<Participant>, rand: Random, attempt: nat) returns (shuffled: seq<Participant>)
    requires InUnitInterval(rand)
    ensures shuffled == ShufflePass(s, rand, attempt)
  {
    shuffled := s;
    var i := |shuffled| - 1;
    while i > 0
      invariant -1 <= i < |shuffled|
      invariant |shuffled| == |s|
      invariant ShuffleDown(shuffled, i + 1, rand, attempt) == ShufflePass(s, rand, attempt)
    {
      var j := SwapIndex(rand(attempt, i), i);
      shuffled := Swap(shuffled, i, j);
      i := i - 1;
    }
  }

  /** The validation loop: stops at the first pair that is not allowed. */
  method CheckArrangement(ps: seq<Participant>, shuffled: seq<Participant>, reg: Registry) returns (isValid: bool)
    requires |shuffled| == |ps|
    ensures isValid <==> ValidArrangement(ps, shuffled, reg)
  {
    isValid := true;
    var k := 0;
    while k < |ps|
      invariant 0 <= k <= |ps|
      invariant forall m :: 0 <= m < k ==> Allowed(reg, ps[m].name, shuffled[m].name)
    {
      var giver := ps[k].name;
      var receiver := shuffled[k].name;
      if giver == receiver || (giver in reg && receiver in reg[giver]) {
        isValid := false;
        break;
      }
      k := k + 1;
    }
  }

  /**
   * The generator. The working copy is taken once and reshuffled on every
   * attempt; the result is the first acceptable arrangement, or
   * `Infeasible` when all 100 attempts were rejected.
   */
  method GenerateSecretSantaPairs(participants: seq<Participant>, previousPairings: Registry, rand: Random)
    returns (r: Result<seq<Pair>>)
    requires InUnitInterval(rand)
    ensures r.Failure? <==>
              forall a :: 0 <= a < MaxAttempts ==> !AttemptSucceeds(participants, previousPairings, rand, a)
    ensures r.Success? ==> IsAssignment(participants, previousPairings, r.value)
    ensures r.Success? ==>
              exists a :: 0 <= a < MaxAttempts
                          && AttemptSucceeds(participants, previousPairings, rand, a)
                          && (forall b :: 0 <= b < a ==> !AttemptSucceeds(participants, previousPairings, rand, b))
                          && r.value == BuildPairs(participants, Candidate(participants, rand, a))
  {
    var shuffled := participants;
    var attempts := 0;
    while attempts < MaxAttempts
      invariant attempts <= MaxAttempts
      invariant shuffled == StateAfter(participants, rand, attempts)
      invariant forall b :: 0 <= b < attempts ==> !AttemptSucceeds(participants, previousPairings, rand, b)
    {
      shuffled := FisherYates(shuffled, rand, attempts);
      var isValid := CheckArrangement(participants, shuffled, previousPairings);
      if isValid {
        assert AttemptSucceeds(participants, previousPairings, rand, attempts);
        CandidatePermutes(participants, rand, attempts);
        BuildPairsIsAssignment(participants, shuffled, previousPairings);
        return Success(BuildPairs(participants, shuffled));
      }
      assert !AttemptSucceeds(participants, previousPairings, rand, attempts);
      attempts := attempts + 1;
    }
    return Failure(Infeasible);
  }

  /** Distinctness is the same as every value occurring at most once. */
  lemma {:induction false} DistinctIffSingleCounts<T>(s: seq<T>)
    ensures Distinct(s) <==> forall v :: multiset(s)[v] <= 1
  {
    if s != [] {
      var h, t := s[0], s[1..];
      assert s == [h] + t;
      DistinctIffSingleCounts(t);
      if Distinct(s) {
        assert h !in t;
        assert Distinct(t) by {
          forall i, j | 0 <= i < j < |t| ensures t[i] != t[j] {
            assert s[i + 1] != s[j + 1];
          }
        }
      }
      if forall v :: multiset(s)[v] <= 1 {
        assert multiset(s)[h] == multiset(t)[h] + 1;
        assert h !in t;
        assert forall v :: multiset(t)[v] <= multiset(s)[v];
        forall i, j | 0 <= i < j < |s| ensures s[i] != s[j] {
          if i == 0 {
            assert s[j] == t[j - 1];
          } else {
            assert s[i] == t[i - 1] && s[j] == t[j - 1];
          }
        }
      }
    }
  }

  /**
   * With unique roster names, a successful result is a bijection: every
   * participant receives exactly once and nobody outside the roster does.
   */
  lemma ReceiversExactlyOnce(ps: seq<Participant>, reg: Registry, pairs: seq<Pair>)
    requires UniqueNames(ps)
    requires IsAssignment(ps, reg, pairs)
    ensures Distinct(Receivers(pairs))
    ensures forall n :: n in Receivers(pairs) <==> n in Names(ps)
    ensures forall p :: p in ps ==> multiset(Receivers(pairs))[p.name] == 1
  {
    DistinctIffSingleCounts(Names(ps));
    DistinctIffSingleCounts(Receivers(pairs));
    forall n ensures n in Receivers(pairs) <==> n in Names(ps) {
      assert n in Receivers(pairs) <==> n in multiset(Receivers(pairs));
      assert n in Names(ps) <==> n in multiset(Names(ps));
    }
    forall p | p in ps ensures multiset(Receivers(pairs))[p.name] == 1 {
      var k :| 0 <= k < |ps| && ps[k] == p;
      assert Names(ps)[k] == p.name;
    }
  }

  /**
   * Two people with a registered match in either direction: the only
   * arrangement without a self-gift swaps them, which uses both directions,
   * so every attempt is rejected, whatever the draws.
   */
  lemma ForbiddenPairNeverValid(ps: seq<Participant>, reg: Registry, rand: Random)
    requires |ps| == 2
    requires Forbidden(reg, ps[0].name, ps[1].name) || Forbidden(reg, ps[1].name, ps[0].name)
    requires InUnitInterval(rand)
    ensures forall k: nat :: !AttemptSucceeds(ps, reg, rand, k)
  {
    forall k: nat ensures !AttemptSucceeds(ps, reg, rand, k) {
      var c := Candidate(ps, rand, k);
      assert c[0].name in {ps[0].name, ps[1].name} && c[1].name in {ps[0].name, ps[1].name} by {
        CandidatePermutes(ps, rand, k);
        assert Names(ps) == [ps[0].name, ps[1].name];
        assert Names(c)[0] in multiset(Names(c));
        assert Names(c)[1] in multiset(Names(c));
      }
      if Forbidden(reg, ps[0].name, ps[1].name) {
        assert !Allowed(reg, ps[0].name, c[0].name);
      } else {
        assert !Allowed(reg, ps[1].name, c[1].name);
      }
    }
  }

  /** The end-to-end run on the roster A, B with A -> B registered: it always fails. */
  method ForbiddenPairScenario(rand: Random) returns (r: Result<seq<Pair>>)
    requires InUnitInterval(rand)
    ensures r == Failure(Infeasible)
  {
    var ps := [Participant("A", ""), Participant("B", "")];
    var reg := map["A" := ["B"]];
    ForbiddenPairNeverValid(ps, reg, rand);
    r := GenerateSecretSantaPairs(ps, reg, rand);
  }

  /** A lone participant can only draw themself, so every attempt fails. */
  lemma SingleParticipantNeverValid(p: Participant, reg: Registry, rand: Random)
    requires InUnitInterval(rand)
    ensures forall k: nat :: !AttemptSucceeds([p], reg, rand, k)
  {
    forall k: nat ensures !AttemptSucceeds([p], reg, rand, k) {
      var c := Candidate([p], rand, k);
      CandidatePermutes([p], rand, k);
      assert Names([p]) == [p.name];
      assert Names(c)[0] in multiset(Names(c));
    }
  }

  /** An empty roster passes the check at once and yields no pairs. */
  lemma EmptyRosterSucceedsAtOnce(reg: Registry, rand: Random)
    requires InUnitInterval(rand)
    ensures AttemptSucceeds([], reg, rand, 0)
    ensures BuildPairs([], Candidate([], rand, 0)) == []
  {
  }

  /**
   * Three people and no history: any acceptable result is one of the two
   * three-cycles A->B->C->A or A->C->B->A.
   */
  lemma ThreePersonCycles(ps: seq<Participant>, pairs: seq<Pair>)
    requires |ps| == 3 && UniqueNames(ps)
    requires IsAssignment(ps, map[], pairs)
    ensures Receivers(pairs) == [ps[1].name, ps[2].name, ps[0].name]
         || Receivers(pairs) == [ps[2].name, ps[0].name, ps[1].name]
  {
    var a, b, c := ps[0].name, ps[1].name, ps[2].name;
    assert Names(ps) == [a, b, c];
    assert a != b && b != c && a != c by {
      assert Names(ps)[0] != Names(ps)[1];
      assert Names(ps)[1] != Names(ps)[2];
      assert Names(ps)[0] != Names(ps)[2];
    }
    var rs := Receivers(pairs);
    ReceiversExactlyOnce(ps, map[], pairs);
    assert rs[0] in Names(ps) && rs[1] in Names(ps) && rs[2] in Names(ps);
    assert rs[0] != a && rs[1] != b && rs[2] != c;
    assert rs[0] != rs[1] && rs[1] != rs[2] && rs[0] != rs[2];
    assert rs == [rs[0], rs[1], rs[2]];
  }
}
