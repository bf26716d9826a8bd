/**
 * The state updates of the organiser component, lifted out of their React
 * setters as pure functions: adding and removing participants, and adding
 * and removing entries of last year's matches.
 */
module Updates {
  import opened SantaModel

  /** `list.filter((r) => r !== x)`: drops every occurrence of `x`, keeping the order of the rest. */
  function Without(xs: seq<string>, x: string): (r: seq<string>)
    ensures multiset(r) == multiset(xs)[x := 0]
    ensures forall y :: y in r <==> y in xs && y != x
  {
    if xs == [] then []
    else
      assert xs == [xs[0]] + xs[1..];
      var rest := Without(xs[1..], x);
      if xs[0] == x then
        assert multiset(xs)[x := 0] == multiset(xs[1..])[x := 0];
        rest
      else
        assert multiset([xs[0]] + rest) == multiset{xs[0]} + multiset(rest);
        [xs[0]] + rest
  }

  /** Filtering a list without repeats leaves a list without repeats. */
  lemma {:induction false} WithoutKeepsDistinct(xs: seq<string>, x: string)
    requires Distinct(xs)
    ensures Distinct(Without(xs, x))
  {
    if xs != [] {
      assert Distinct(xs[1..]) by {
        forall i, j | 0 <= i < j < |xs[1..]| ensures xs[1..][i] != xs[1..][j] {
          assert xs[i + 1] != xs[j + 1];
        }
      }
      WithoutKeepsDistinct(xs[1..], x);
      if xs[0] != x {
        var rest := Without(xs[1..], x);
        assert xs[0] !in xs[1..] by {
          forall j | 0 <= j < |xs[1..]| ensures xs[1..][j] != xs[0] {
            assert xs[j + 1] != xs[0];
          }
        }
        var out := [xs[0]] + rest;
        forall i, j | 0 <= i < j < |out| ensures out[i] != out[j] {
          if i == 0 {
            assert out[j] == rest[j - 1];
          } else {
            assert out[i] == rest[i - 1] && out[j] == rest[j - 1];
          }
        }
      }
    }
  }

  /** Filtering works piecewise, which is what "keeps the order" means. */
  lemma {:induction false} WithoutAppend(a: seq<string>, b: seq<string>, x: string)
    ensures Without(a + b, x) == Without(a, x) + Without(b, x)
  {
    if a == [] {
      assert a + b == b;
    } else {
      assert (a + b)[1..] == a[1..] + b;
      WithoutAppend(a[1..], b, x);
    }
  }

  /** Filtering out a value that does not occur changes nothing. */
  lemma {:induction false} WithoutAbsent(xs: seq<string>, x: string)
    requires x !in xs
    ensures Without(xs, x) == xs
  {
    if xs != [] {
      WithoutAbsent(xs[1..], x);
    }
  }

  /** `participants.filter((p) => p.name !== n)`, keeping the order of the rest. */
  function RemoveNamed(ps: seq<Participant>, n: string): (r: seq<Participant>)
    ensures |r| <= |ps|
    ensures forall i :: 0 <= i < |r| ==> r[i].name != n
  {
    if ps == [] then []
    else if ps[0].name == n then RemoveNamed(ps[1..], n)
    else [ps[0]] + RemoveNamed(ps[1..], n)
  }

  /** The filter keeps exactly the entries with another name. */
  lemma {:induction false} RemoveNamedMembers(ps: seq<Participant>, n: string)
    ensures forall p :: p in RemoveNamed(ps, n) <==> p in ps && p.name != n
  {
    if ps != [] {
      assert ps == [ps[0]] + ps[1..];
      RemoveNamedMembers(ps[1..], n);
    }
  }

  /** With unique names, the first entry's name occurs nowhere after it. */
  lemma HeadNameFresh(ps: seq<Participant>)
    requires ps != [] && UniqueNames(ps)
    ensures forall q :: q in ps[1..] ==> q.name != ps[0].name
    ensures UniqueNames(ps[1..])
  {
  }

  /** Putting a fresh name in front of a roster with unique names keeps them unique. */
  lemma ConsUnique(p: Participant, rest: seq<Participant>)
    requires UniqueNames(rest)
    requires forall q :: q in rest ==> q.name != p.name
    ensures UniqueNames([p] + rest)
  {
  }

  /** Filtering a roster with unique names leaves unique names. */
  lemma {:induction false} RemoveNamedKeepsUnique(ps: seq<Participant>, n: string)
    requires UniqueNames(ps)
    ensures UniqueNames(RemoveNamed(ps, n))
  {
    if ps != [] {
      HeadNameFresh(ps);
      RemoveNamedKeepsUnique(ps[1..], n);
      if ps[0].name != n {
        RemoveNamedMembers(ps[1..], n);
        ConsUnique(ps[0], RemoveNamed(ps[1..], n));
      }
    }
  }

  /** The roster filter works piecewise, so the entries it keeps stay in order. */
  lemma {:induction false} RemoveNamedAppend(a: seq<Participant>, b: seq<Participant>, n: string)
    ensures RemoveNamed(a + b, n) == RemoveNamed(a, n) + RemoveNamed(b, n)
  {
    if a == [] {
      assert a + b == b;
    } else {
      assert (a + b)[1..] == a[1..] + b;
      RemoveNamedAppend(a[1..], b, n);
    }
  }

  /** Filtering out a name no entry has changes nothing. */
  lemma {:induction false} RemoveNamedAbsent(ps: seq<Participant>, n: string)
    requires forall i :: 0 <= i < |ps| ==> ps[i].name != n
    ensures RemoveNamed(ps, n) == ps
  {
    if ps != [] {
      RemoveNamedAbsent(ps[1..], n);
    }
  }

  /** Filtering out the one entry named `x.name` cuts exactly that entry. */
  lemma {:induction false} RemoveNamedSplit(pre: seq<Participant>, x: Participant, post: seq<Participant>)
    requires forall i :: 0 <= i < |pre| ==> pre[i].name != x.name
    requires forall i :: 0 <= i < |post| ==> post[i].name != x.name
    ensures RemoveNamed(pre + ([x] + post), x.name) == pre + post
  {
    if pre == [] {
      assert pre + ([x] + post) == [x] + post;
      assert ([x] + post)[1..] == post;
      RemoveNamedAbsent(post, x.name);
    } else {
      assert (pre + ([x] + post))[1..] == pre[1..] + ([x] + post);
      RemoveNamedSplit(pre[1..], x, post);
      assert pre + post == [pre[0]] + (pre[1..] + post);
    }
  }

  /**
   * On a roster with unique names, removing the participant at index `k`
   * by name cuts exactly that entry out and keeps everyone else in order.
   */
  lemma {:induction false} RemoveNamedAt(ps: seq<Participant>, k: nat)
    requires k < |ps| && UniqueNames(ps)
    ensures RemoveNamed(ps, ps[k].name) == ps[..k] + ps[k + 1..]
  {
    var pre, post := ps[..k], ps[k + 1..];
    assert ps == pre + ([ps[k]] + post) by {
      assert ps[k..] == [ps[k]] + post;
      assert ps == pre + ps[k..];
    }
    forall i | 0 <= i < |pre| ensures pre[i].name != ps[k].name {
      assert pre[i] == ps[i];
    }
    forall i | 0 <= i < |post| ensures post[i].name != ps[k].name {
      assert post[i] == ps[k + 1 + i];
    }
    RemoveNamedSplit(pre, ps[k], post);
  }

  /**
   * `addParticipant`: an empty name is ignored, a name already on the
   * roster is refused, anything else is appended with its phone number.
   */
  function AddParticipant(ps: seq<Participant>, name: string, phone: string): (e: Edit<seq<Participant>>)
    ensures e.Ignored? <==> name == ""
    ensures e.Rejected? <==> name != "" && name in Names(ps)
    ensures e.Rejected? ==> e.reason == DuplicateName
    ensures e.Applied? ==> e.next == ps + [Participant(name, phone)]
    ensures UniqueNames(ps) ==> UniqueNames(e.After(ps))
  {
    if name == "" then Ignored
    else if exists k :: 0 <= k < |ps| && ps[k].name == name then Rejected(DuplicateName)
    else
      var next := ps + [Participant(name, phone)];
      assert Names(next) == Names(ps) + [name];
      Applied(next)
  }

  /** The filtered list is empty exactly when it held nothing but `x`. */
  lemma WithoutEmpty(xs: seq<string>, x: string)
    ensures Without(xs, x) != [] <==> exists y :: y in xs && y != x
  {
    var w := Without(xs, x);
    if w != [] {
      assert w[0] in w;
    }
  }

  /** Filtering a well-formed entry of giver `g` leaves a list fit to stay under `g`. */
  lemma WithoutKeepsEntry(reg: Registry, g: string, x: string)
    requires WellFormed(reg) && g in reg
    ensures g !in Without(reg[g], x) && Distinct(Without(reg[g], x))
  {
    WithoutKeepsDistinct(reg[g], x);
  }

  /**
   * The registry half of `removeParticipant`: the departed name loses its
   * own entry, is filtered out of every other list, and lists left empty
   * are dropped.
   */
  function Prune(reg: Registry, n: string): (r: Registry)
    ensures !Mentions(r, n)
    ensures forall g :: g in r ==> g in reg && r[g] != [] && r[g] == Without(reg[g], n)
    ensures forall g :: g in r ==> multiset(r[g]) == multiset(reg[g])[n := 0]
    ensures forall g :: g in reg && g != n && (exists y :: y in reg[g] && y != n) ==> g in r
    ensures forall g :: g in reg && g != n && n !in reg[g] && reg[g] != [] ==> g in r && r[g] == reg[g]
    ensures WellFormed(reg) ==> WellFormed(r)
  {
    var r := map g | g in reg && g != n && Without(reg[g], n) != [] :: Without(reg[g], n);
    assert forall g :: g in reg && g != n && (exists y :: y in reg[g] && y != n) ==> g in r by {
      forall g | g in reg && g != n && (exists y :: y in reg[g] && y != n) ensures g in r {
        WithoutEmpty(reg[g], n);
      }
    }
    assert forall g :: g in reg && g != n && n !in reg[g] && reg[g] != [] ==> g in r && r[g] == reg[g] by {
      forall g | g in reg && g != n && n !in reg[g] && reg[g] != [] ensures g in r && r[g] == reg[g] {
        WithoutAbsent(reg[g], n);
      }
    }
    assert WellFormed(reg) ==> WellFormed(r) by {
      if WellFormed(reg) {
        forall g | g in r ensures g !in r[g] && Distinct(r[g]) {
          WithoutKeepsEntry(reg, g, n);
        }
      }
    }
    r
  }

  /**
   * `removeParticipant`: drops the name from the roster, keeping everyone
   * else, and prunes it from the registry.
   */
  function RemoveParticipant(st: State, n: string): (r: State)
    ensures forall p :: p in r.participants <==> p in st.participants && p.name != n
    ensures n !in Names(r.participants) && !Mentions(r.pairings, n)
  {
    RemoveNamedMembers(st.participants, n);
    State(RemoveNamed(st.participants, n), Prune(st.pairings, n))
  }

  /** Removing a participant keeps the state consistent. */
  lemma RemoveParticipantKeepsConsistent(st: State, n: string)
    requires Consistent(st)
    ensures Consistent(RemoveParticipant(st, n))
  {
    var r := RemoveParticipant(st, n);
    RemoveNamedKeepsUnique(st.participants, n);
    forall g | g in r.pairings
      ensures g in Names(r.participants)
      ensures forall y :: y in r.pairings[g] ==> y in Names(r.participants)
    {
      StillListed(st.participants, n, g);
      forall y | y in r.pairings[g] ensures y in Names(r.participants) {
        assert y in multiset(r.pairings[g]);
        StillListed(st.participants, n, y);
      }
    }
  }

  /** A name other than `n` that was on the roster is still on it after removing `n`. */
  lemma StillListed(ps: seq<Participant>, n: string, m: string)
    requires m in Names(ps) && m != n
    ensures m in Names(RemoveNamed(ps, n))
  {
    var k :| 0 <= k < |ps| && Names(ps)[k] == m;
    var r := RemoveNamed(ps, n);
    RemoveNamedMembers(ps, n);
    assert ps[k] in r;
    var i :| 0 <= i < |r| && r[i] == ps[k];
    assert Names(r)[i] == m;
  }

  /** The receivers registered for `giver`, or none. */
  function ReceiversOf(reg: Registry, giver: string): seq<string> {
    if giver in reg then reg[giver] else []
  }

  /**
   * `addPreviousPairing`: needs two different non-empty names; a pair
   * already registered is refused; otherwise the receiver is appended to
   * the giver's list and nothing else changes.
   */
  function AddPreviousPairing(reg: Registry, giver: string, receiver: string): (e: Edit<Registry>)
    ensures e.Ignored? <==> giver == "" || receiver == "" || giver == receiver
    ensures e.Rejected? <==> giver != "" && receiver != "" && giver != receiver && Forbidden(reg, giver, receiver)
    ensures e.Rejected? ==> e.reason == DuplicatePairing
    ensures e.Applied? ==> e.next.Keys == reg.Keys + {giver} && e.next[giver] == ReceiversOf(reg, giver) + [receiver]
    ensures e.Applied? ==> forall g :: g in reg && g != giver ==> e.next[g] == reg[g]
    ensures !e.Ignored? ==> Forbidden(e.After(reg), giver, receiver)
  {
    if giver != "" && receiver != "" && giver != receiver then
      if giver in reg && receiver in reg[giver] then Rejected(DuplicatePairing)
      else Applied(reg[giver := ReceiversOf(reg, giver) + [receiver]])
    else Ignored
  }

  /** Adding a pairing keeps the registry well formed. */
  lemma AddPairingKeepsWellFormed(reg: Registry, giver: string, receiver: string)
    requires WellFormed(reg)
    ensures WellFormed(AddPreviousPairing(reg, giver, receiver).After(reg))
  {
  }

  /**
   * `removePreviousPairing`: the receiver is filtered out of the giver's
   * list, the key is dropped when its list empties, and other keys keep
   * their lists. The giver's key must exist: the source reads its list
   * without checking.
   */
  function RemovePreviousPairing(reg: Registry, giver: string, receiver: string): (r: Registry)
    requires giver in reg
    ensures !Forbidden(r, giver, receiver)
    ensures r.Keys <= reg.Keys
    ensures forall g :: g in reg && g != giver ==> g in r && r[g] == reg[g]
    ensures giver in r <==> exists y :: y in reg[giver] && y != receiver
    ensures giver in r ==> r[giver] == Without(reg[giver], receiver)
    ensures giver in r ==> multiset(r[giver]) == multiset(reg[giver])[receiver := 0]
  {
    var rest := Without(reg[giver], receiver);
    WithoutEmpty(reg[giver], receiver);
    if rest != [] then reg[giver := rest] else reg - {giver}
  }

  /** Removing a pairing keeps the registry well formed. */
  lemma RemovePairingKeepsWellFormed(reg: Registry, giver: string, receiver: string)
    requires WellFormed(reg) && giver in reg
    ensures WellFormed(RemovePreviousPairing(reg, giver, receiver))
  {
    WithoutKeepsEntry(reg, giver, receiver);
  }

  /** Filtering out a value just appended to a list that lacked it gives the list back. */
  lemma WithoutUndoesAppend(l: seq<string>, x: string)
    requires x !in l
    ensures Without(l + [x], x) == l
  {
    WithoutAppend(l, [x], x);
    WithoutAbsent(l, x);
    assert Without([x], x) == [];
  }

  /** Removing a receiver that was just appended takes the list back to what it was. */
  lemma RemoveAppendedPairing(next: Registry, giver: string, receiver: string, l: seq<string>)
    requires giver in next && next[giver] == l + [receiver] && receiver !in l
    ensures RemovePreviousPairing(next, giver, receiver) == if l == [] then next - {giver} else next[giver := l]
  {
    WithoutUndoesAppend(l, receiver);
  }

  /**
   * Removing a pairing right after adding it restores the registry, as
   * long as the giver's list was not already empty (never so in a
   * well-formed registry).
   */
  lemma RemovePairingUndoesAdd(reg: Registry, giver: string, receiver: string)
    requires giver in reg ==> reg[giver] != []
    requires AddPreviousPairing(reg, giver, receiver).Applied?
    ensures RemovePreviousPairing(AddPreviousPairing(reg, giver, receiver).next, giver, receiver) == reg
  {
    var l := ReceiversOf(reg, giver);
    var next := AddPreviousPairing(reg, giver, receiver).next;
    assert next == reg[giver := l + [receiver]];
    RemoveAppendedPairing(next, giver, receiver, l);
    if giver in reg {
      assert next[giver := l] == reg;
    } else {
      assert next - {giver} == reg;
    }
  }

  /** Pruning a name the registry never mentions changes nothing. */
  lemma PruneUnmentioned(reg: Registry, n: string)
    requires WellFormed(reg) && !Mentions(reg, n)
    ensures Prune(reg, n) == reg
  {
  }

  /** Filtering out a name that only the last entry has gives back the roster before it. */
  lemma {:induction false} RemoveNamedUndoesAppend(ps: seq<Participant>, p: Participant)
    requires forall i :: 0 <= i < |ps| ==> ps[i].name != p.name
    ensures RemoveNamed(ps + [p], p.name) == ps
  {
    RemoveNamedSplit(ps, p, []);
    assert ps + [p] == ps + ([p] + []);
  }

  /**
   * Removing a participant right after adding them restores the whole
   * state, registry included, provided the state was consistent.
   */
  lemma RemoveParticipantUndoesAdd(st: State, name: string, phone: string)
    requires Consistent(st)
    requires AddParticipant(st.participants, name, phone).Applied?
    ensures RemoveParticipant(State(AddParticipant(st.participants, name, phone).next, st.pairings), name) == st
  {
    RemoveNamedUndoesAppend(st.participants, Participant(name, phone));
    assert !Mentions(st.pairings, name);
    PruneUnmentioned(st.pairings, name);
  }

  /** Adding a participant keeps the state consistent. */
  lemma AddParticipantKeepsConsistent(st: State, name: string, phone: string)
    requires Consistent(st)
    ensures Consistent(State(AddParticipant(st.participants, name, phone).After(st.participants), st.pairings))
  {
    var e := AddParticipant(st.participants, name, phone);
    if e.Applied? {
      assert Names(e.next) == Names(st.participants) + [name];
    }
  }

  /**
   * Adding a pairing between two people on the roster keeps the state
   * consistent. The component does not ensure this precondition: the
   * selected giver and receiver survive the removal of that participant.
   */
  lemma AddPairingKeepsConsistent(st: State, giver: string, receiver: string)
    requires Consistent(st)
    requires giver in Names(st.participants) && receiver in Names(st.participants)
    ensures Consistent(State(st.participants, AddPreviousPairing(st.pairings, giver, receiver).After(st.pairings)))
  {
  }

  /**
   * As written, `addPreviousPairing` accepts a selected giver or receiver
   * who is no longer on the roster, and the registry then names a removed
   * person.
   */
  lemma AddPairingOffRosterBreaksConsistency(st: State, giver: string, receiver: string)
    requires Consistent(st)
    requires giver != "" && receiver != "" && giver != receiver
    requires giver !in Names(st.participants) || receiver !in Names(st.participants)
    ensures AddPreviousPairing(st.pairings, giver, receiver).Applied?
    ensures !Consistent(State(st.participants, AddPreviousPairing(st.pairings, giver, receiver).After(st.pairings)))
  {
  }

  /**
   * The concrete run, first half: on the roster A, B, C with an empty
   * registry, removing A leaves B, C and the empty registry.
   */
  lemma StaleSelectionRemoval()
    ensures RemoveParticipant(State([Participant("A", ""), Participant("B", ""), Participant("C", "")], map[]), "A")
         == State([Participant("B", ""), Participant("C", "")], map[])
  {
  }

  /**
   * Second half: the selection still reads A and B, and adding it to the
   * consistent state B, C leaves A in the registry although A is off the
   * roster.
   */
  lemma StaleSelectionScenario()
    ensures Consistent(State([Participant("B", ""), Participant("C", "")], map[]))
    ensures AddPreviousPairing(map[], "A", "B") == Applied(map["A" := ["B"]])
    ensures !Consistent(State([Participant("B", ""), Participant("C", "")], map["A" := ["B"]]))
  {
    var rest := [Participant("B", ""), Participant("C", "")];
    var empty: Registry := map[];
    assert Names(rest) == ["B", "C"];
    assert ReceiversOf(empty, "A") + ["B"] == ["B"];
  }

  /**
   * The same run with the receiver removed: on the roster A, B, C with an
   * empty registry, removing B leaves A, C, and adding the stale selection
   * A -> B then leaves B in the registry although B is off the roster.
   */
  lemma StaleReceiverScenario()
    ensures RemoveParticipant(State([Participant("A", ""), Participant("B", ""), Participant("C", "")], map[]), "B")
         == State([Participant("A", ""), Participant("C", "")], map[])
    ensures AddPreviousPairing(map[], "A", "B") == Applied(map["A" := ["B"]])
    ensures !Consistent(State([Participant("A", ""), Participant("C", "")], map["A" := ["B"]]))
  {
    var rest := [Participant("A", ""), Participant("C", "")];
    var empty: Registry := map[];
    assert Names(rest) == ["A", "C"];
    assert ReceiversOf(empty, "A") + ["B"] == ["B"];
  }

  /**
   * `addPreviousPairing` with the guard it evidently needs: the edit is
   * ignored unless both selected names are still on the roster.
   */
  function AddRosterPairing(st: State, giver: string, receiver: string): (e: Edit<Registry>)
    ensures e.Ignored? <==> giver == "" || receiver == "" || giver == receiver
                            || giver !in Names(st.participants) || receiver !in Names(st.participants)
    ensures !e.Ignored? ==> e == AddPreviousPairing(st.pairings, giver, receiver)
  {
    if giver in Names(st.participants) && receiver in Names(st.participants)
    then AddPreviousPairing(st.pairings, giver, receiver)
    else Ignored
  }

  /** With the roster guard, adding a pairing keeps any consistent state consistent. */
  lemma AddRosterPairingKeepsConsistent(st: State, giver: string, receiver: string)
    requires Consistent(st)
    ensures Consistent(State(st.participants, AddRosterPairing(st, giver, receiver).After(st.pairings)))
  {
  }

  /** Removing a pairing keeps the state consistent. */
  lemma RemovePairingKeepsConsistent(st: State, giver: string, receiver: string)
    requires Consistent(st) && giver in st.pairings
    ensures Consistent(State(st.participants, RemovePreviousPairing(st.pairings, giver, receiver)))
  {
    var r := RemovePreviousPairing(st.pairings, giver, receiver);
    RemovePairingKeepsWellFormed(st.pairings, giver, receiver);
    forall g, y | g in r && y in r[g] ensures y in st.pairings[g] {
      assert y in multiset(r[g]);
    }
  }
}
