/**
 * Shared vocabulary of the Secret Santa organiser: the roster of
 * participants, the pairs the generator hands out, and the registry of
 * last year's matches (`previousPairings` in the component state).
 */
module SantaModel {

  /** One roster entry. Names are compared exactly, as JavaScript `===` does. */
  datatype Participant = Participant(name: string, phone: string)

  /** One generated assignment: `giver` buys a present for `receiver`. */
  datatype Pair = Pair(giver: string, giverPhone: string, receiver: string)

  /** Giver name mapped to the receivers that giver must not draw again. */
  type Registry = map<string, seq<string>>

  /** The roster and the registry, as the component keeps them. */
  datatype State = State(participants: seq<Participant>, pairings: Registry)

  /** Why an edit was refused; the component shows a message for each. */
  datatype Reason = DuplicateName | DuplicatePairing

  /**
   * Outcome of a guarded edit: a new value, a refusal that the component
   * reports as an error, or nothing at all (the guard was not met and the
   * component returns without touching any state).
   */
  datatype Edit<S> = Applied(next: S) | Rejected(reason: Reason) | Ignored
  {
    /** The value held after the edit, given the value held before it. */
    function After(current: S): S {
      if Applied? then next else current
    }
  }

  /** The names of a roster, in roster order. */
  function Names(ps: seq<Participant>): (ns: seq<string>)
    ensures |ns| == |ps|
    ensures forall k :: 0 <= k < |ps| ==> ns[k] == ps[k].name
  {
    seq(|ps|, k requires 0 <= k < |ps| => ps[k].name)
  }

  /** The receivers of a list of pairs, in list order. */
  function Receivers(pairs: seq<Pair>): (rs: seq<string>)
    ensures |rs| == |pairs|
    ensures forall k :: 0 <= k < |pairs| ==> rs[k] == pairs[k].receiver
  {
    seq(|pairs|, k requires 0 <= k < |pairs| => pairs[k].receiver)
  }

  predicate Distinct<T(==)>(xs: seq<T>) {
    forall i, j :: 0 <= i < j < |xs| ==> xs[i] != xs[j]
  }

  /**
   * No two roster entries share a name: `Distinct(Names(ps))`, stated on the
   * entries directly (see UniqueNamesIffDistinctNames).
   */
  predicate UniqueNames(ps: seq<Participant>) {
    forall i, j :: 0 <= i < j < |ps| ==> ps[i].name != ps[j].name
  }

  /** Unique names is the same as the list of names having no repeats. */
  lemma UniqueNamesIffDistinctNames(ps: seq<Participant>)
    ensures UniqueNames(ps) <==> Distinct(Names(ps))
  {
  }

  /** The registry records that `giver` already gave to `receiver`. */
  predicate Forbidden(reg: Registry, giver: string, receiver: string) {
    giver in reg && receiver in reg[giver]
  }

  /** The pair passes the generator's check: no self-gift, no repeat. */
  predicate Allowed(reg: Registry, giver: string, receiver: string) {
    giver != receiver && !Forbidden(reg, giver, receiver)
  }

  /**
   * The shape the registry operations maintain: every list is non-empty,
   * holds no receiver twice and never names its own giver.
   */
  predicate WellFormed(reg: Registry) {
    forall g :: g in reg ==> reg[g] != [] && g !in reg[g] && Distinct(reg[g])
  }

  /** `n` occurs in the registry, as a giver or as a receiver. */
  predicate Mentions(reg: Registry, n: string) {
    n in reg || exists g :: g in reg && n in reg[g]
  }

  /**
   * The whole component state is consistent: names are unique, the
   * registry is well formed and speaks only of people on the roster.
   */
  predicate Consistent(st: State) {
    && UniqueNames(st.participants)
    && WellFormed(st.pairings)
    && forall g :: g in st.pairings ==>
         g in Names(st.participants) && forall r :: r in st.pairings[g] ==> r in Names(st.participants)
  }
}
