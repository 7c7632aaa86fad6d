/**
  API-key capabilities (obs/api/auth.py): replacing a key's whole set under an optimistic
  revision, with an audit log of grants and revocations in the same transaction; and the
  configuration import (obs/api/v1/config.py), which sets both without either.
 */
module Capabilities {
  import opened Wrappers
  import opened Enumeration

  /** One grant or revocation in the audit log. */
  datatype Audit = Audit(key: string, granted: bool, capability: string, revision: nat)

  /** The keys, their capability rows and revisions, and the log. */
  datatype State = State(
    keys: map<string, string>, revisions: map<string, nat>, capabilities: map<string, set<string>>, log: seq<Audit>)
  {
    function RevisionOf(key: string): nat {
      if key in revisions then revisions[key] else 0
    }

    function CapabilitiesOf(key: string): set<string> {
      if key in capabilities then capabilities[key] else {}
    }
  }

  datatype CapabilityError = KeyNotFound | RevisionConflict

  /** Folding a key's events in order over the empty set. */
  function Replay(log: seq<Audit>, key: string): set<string> {
    if log == [] then {}
    else
      var (before, e) := (Replay(log[..|log| - 1], key), log[|log| - 1]);
      if e.key != key then before else if e.granted then before + {e.capability} else before - {e.capability}
  }

  ghost predicate LogReplays(s: State) {
    && s.revisions.Keys <= s.keys.Keys && s.capabilities.Keys <= s.keys.Keys
    && forall key :: key in s.keys ==> Replay(s.log, key) == s.CapabilitiesOf(key)
  }

  /** A key id that was never used: the platform draws it at random. */
  ghost predicate Unused(s: State, key: string) {
    key !in s.keys && forall e :: e in s.log ==> e.key != key
  }

  lemma {:induction false} UnusedReplaysEmpty(log: seq<Audit>, key: string)
    requires forall e :: e in log ==> e.key != key
    ensures Replay(log, key) == {}
  {
    if log != [] {
      UnusedReplaysEmpty(log[..|log| - 1], key);
    }
  }

  lemma ReplayStep(log: seq<Audit>, e: Audit, key: string)
    ensures Replay(log + [e], key) == Applied(Replay(log, key), e, key)
  {
    assert (log + [e])[..|log|] == log;
  }

  function Applied(held: set<string>, e: Audit, key: string): set<string> {
    if e.key != key then held else if e.granted then held + {e.capability} else held - {e.capability}
  }

  /** The events for some capabilities of a key, in this order. */
  function Events(key: string, granted: bool, order: seq<string>, revision: nat): seq<Audit> {
    if order == [] then []
    else Events(key, granted, order[..|order| - 1], revision) + [Audit(key, granted, order[|order| - 1], revision)]
  }

  function Changed(held: set<string>, granted: bool, changes: set<string>): set<string> {
    if granted then held + changes else held - changes
  }

  function Elements(order: seq<string>): set<string> {
    set x | x in order
  }

  lemma ElementsSnoc(order: seq<string>)
    requires order != []
    ensures Elements(order) == Elements(order[..|order| - 1]) + {order[|order| - 1]}
  {
    assert order == order[..|order| - 1] + [order[|order| - 1]];
  }

  lemma ChangedByOneMore(held: set<string>, granted: bool, changes: set<string>, e: Audit)
    requires e.granted == granted
    ensures Applied(Changed(held, granted, changes), e, e.key) == Changed(held, granted, changes + {e.capability})
  {
  }

  lemma EventsUnfold(log: seq<Audit>, key: string, granted: bool, order: seq<string>, revision: nat)
    requires order != []
    ensures var n := |order| - 1;
            log + Events(key, granted, order, revision)
            == log + Events(key, granted, order[..n], revision) + [Audit(key, granted, order[n], revision)]
  {
  }

  lemma {:induction false} EventsReplay(
    log: seq<Audit>, key: string, granted: bool, order: seq<string>, revision: nat, other: string)
    ensures Replay(log + Events(key, granted, order, revision), other)
            == if other == key then Changed(Replay(log, key), granted, Elements(order)) else Replay(log, other)
  {
    if order == [] {
      assert log + [] == log && Elements(order) == {};
    } else {
      var (front, e) := (order[..|order| - 1], Audit(key, granted, order[|order| - 1], revision));
      EventsReplay(log, key, granted, front, revision, other);
      EventsUnfold(log, key, granted, order, revision);
      ReplayStep(log + Events(key, granted, front, revision), e, other);
      ElementsSnoc(order);
      ChangedByOneMore(Replay(log, key), granted, Elements(front), e);
    }
  }

  lemma {:induction false} EventsAreOf(key: string, granted: bool, order: seq<string>, revision: nat)
    ensures |Events(key, granted, order, revision)| == |order|
    ensures OfRevision(Events(key, granted, order, revision), key, revision)
  {
    if order != [] {
      EventsAreOf(key, granted, order[..|order| - 1], revision);
    }
  }

  predicate OfRevision(events: seq<Audit>, key: string, revision: nat) {
    forall i :: 0 <= i < |events| ==> events[i].key == key && events[i].revision == revision
  }

  /** The difference of two sets as events: some order of the grants, then some order of the revocations. */
  ghost predicate IsDifference(
    events: seq<Audit>, key: string, previous: set<string>, replacement: set<string>, revision: nat)
  {
    exists added, revoked ::
      && Enumerates(added, replacement - previous) && Enumerates(revoked, previous - replacement)
      && events == Events(key, true, added, revision) + Events(key, false, revoked, revision)
  }

  /** Logging a difference replays to the new set, leaves the other keys alone and takes one event per capability. */
  lemma DifferenceReplays(
    log: seq<Audit>, events: seq<Audit>, key: string, previous: set<string>, replacement: set<string>, revision: nat)
    requires IsDifference(events, key, previous, replacement, revision)
    ensures Replay(log, key) == previous ==> Replay(log + events, key) == replacement
    ensures forall other :: other != key ==> Replay(log + events, other) == Replay(log, other)
    ensures OfRevision(events, key, revision) && |events| == |replacement - previous| + |previous - replacement|
  {
    var added, revoked :|
      && Enumerates(added, replacement - previous) && Enumerates(revoked, previous - replacement)
      && events == Events(key, true, added, revision) + Events(key, false, revoked, revision);
    var (grants, revocations) := (Events(key, true, added, revision), Events(key, false, revoked, revision));
    assert log + events == log + grants + revocations;
    forall other
      ensures Replay(log + events, other)
              == if other == key then Replay(log, key) + (replacement - previous) - (previous - replacement)
                  else Replay(log, other)
    {
      EventsReplay(log, key, true, added, revision, other);
      EventsReplay(log + grants, key, false, revoked, revision, other);
      assert Elements(added) == replacement - previous && Elements(revoked) == previous - replacement;
    }
    assert previous + (replacement - previous) - (previous - replacement) == replacement;
    EventsAreOf(key, true, added, revision);
    EventsAreOf(key, false, revoked, revision);
    EnumerationLength(added, replacement - previous);
    EnumerationLength(revoked, previous - replacement);
  }

  function Replacing(s: State, events: seq<Audit>, key: string, replacement: set<string>, revision: nat): State {
    State(s.keys, s.revisions[key := revision], s.capabilities[key := replacement], s.log + events)
  }

  /** The key's set and revision are replaced, the difference is logged, and nothing else changes. */
  ghost predicate Replaces(s: State, t: State, key: string, replacement: set<string>, revision: nat) {
    exists events ::
      IsDifference(events, key, s.CapabilitiesOf(key), replacement, revision)
          && t == Replacing(s, events, key, replacement, revision)
  }

  lemma ReplacedLogReplays(s: State, events: seq<Audit>, key: string, replacement: set<string>, revision: nat)
    requires LogReplays(s) && key in s.keys
    requires IsDifference(events, key, s.CapabilitiesOf(key), replacement, revision)
    ensures LogReplays(Replacing(s, events, key, replacement, revision))
    ensures Replaces(s, Replacing(s, events, key, replacement, revision), key, replacement, revision)
  {
    var t := Replacing(s, events, key, replacement, revision);
    DifferenceReplays(s.log, events, key, s.CapabilitiesOf(key), replacement, revision);
    forall other | other in t.keys ensures Replay(t.log, other) == t.CapabilitiesOf(other) {
      assert other in s.keys;
    }
  }

  /** An import sets a key's capabilities and any revision, and logs neither grants nor revocations. */
  function Imported(s: State, key: string, revision: nat, imported: set<string>): State {
    s.(revisions := s.revisions[key := revision], capabilities := s.capabilities[key := imported])
  }

  /** So afterwards the log replays exactly if the imported set is the one that was stored. */
  lemma ImportKeepsTheLogExactly(s: State, key: string, revision: nat, imported: set<string>)
    requires LogReplays(s) && key in s.keys
    ensures LogReplays(Imported(s, key, revision, imported)) <==> imported == s.CapabilitiesOf(key)
  {
    var t := Imported(s, key, revision, imported);
    assert t.CapabilitiesOf(key) == imported && key in t.keys;
    assert forall other :: other != key ==> t.CapabilitiesOf(other) == s.CapabilitiesOf(other);
  }

  class CapabilityStore {
    var keys: map<string, string>
    var revisions: map<string, nat>
    var capabilities: map<string, set<string>>
    var log: seq<Audit>

    constructor ()
      ensures LogReplays(Value()) && Value() == State(map[], map[], map[], [])
    {
      keys, revisions, capabilities, log := map[], map[], map[], [];
    }

    function Value(): State
      reads this
    {
      State(keys, revisions, capabilities, log)
    }

    method CreateKey(key: string, name: string)
      requires LogReplays(Value()) && Unused(Value(), key)
      modifies this`keys
      ensures LogReplays(Value()) && keys == old(keys)[key := name]
    {
      keys := keys[key := name];
      UnusedReplaysEmpty(log, key);
    }

    /** The capability rows and the revision go with the key; the log stays. */
    method DeleteKey(key: string)
      requires LogReplays(Value())
      modifies this`keys, this`revisions, this`capabilities
      ensures LogReplays(Value()) && keys == old(keys) - {key}
      ensures forall other :: other != key ==> Value().CapabilitiesOf(other) == old(Value()).CapabilitiesOf(other)
                                               && Value().RevisionOf(other) == old(Value()).RevisionOf(other)
    {
      keys, revisions, capabilities := keys - {key}, revisions - {key}, capabilities - {key};
    }

    /** Replaces the key's set if the caller saw its current revision, and logs every difference. */
    method Replace(key: string, expected: nat, replacement: set<string>) returns (r: Result<nat, CapabilityError>)
      requires LogReplays(Value())
      modifies this`revisions, this`capabilities, this`log
      ensures LogReplays(Value())
      ensures r == (if key !in keys then Err(KeyNotFound)
                    else if old(Value()).RevisionOf(key) != expected then Err(RevisionConflict) else Ok(expected + 1))
      ensures r.Err? ==> unchanged(this)
      ensures r.Ok? ==> Replaces(old(Value()), Value(), key, replacement, expected + 1)
      ensures Took(old(Value()), Replacement(key, expected, replacement), Value())
    {
      if key !in keys {
        return Err(KeyNotFound);
      }
      if (if key in revisions then revisions[key] else 0) != expected {
        return Err(RevisionConflict);
      }
      ghost var before := Value();
      var previous := if key in capabilities then capabilities[key] else {};
      var revision := expected + 1;
      capabilities := capabilities[key := replacement];
      revisions := revisions[key := revision];
      ghost var events := LogDifference(key, previous, replacement, revision);
      ReplacedLogReplays(before, events, key, replacement, revision);
      assert Value() == Replacing(before, events, key, replacement, revision);
      return Ok(revision);
    }

    /** Imports a key's set; an unknown key, or a capability listed twice, fails and changes nothing. */
    method ImportSet(key: string, revision: nat, listed: seq<string>) returns (ok: bool)
      modifies this`revisions, this`capabilities
      ensures ok <==> key in keys && forall i, j :: 0 <= i < j < |listed| ==> listed[i] != listed[j]
      ensures !ok ==> unchanged(this)
      ensures ok ==> Value() == Imported(old(Value()), key, revision, Elements(listed))
      ensures ok ==> Took(old(Value()), Import(key, revision, Elements(listed)), Value())
    {
      if key !in keys {
        return false;
      }
      var rows := {};
      for i := 0 to |listed|
        invariant rows == Elements(listed[..i])
        invariant forall k, l :: 0 <= k < l < i ==> listed[k] != listed[l]
      {
        if listed[i] in rows {
          return false;
        }
        assert listed[..i + 1] == listed[..i] + [listed[i]];
        rows := rows + {listed[i]};
      }
      assert listed[..|listed|] == listed;
      capabilities, revisions := capabilities[key := rows], revisions[key := revision];
      return true;
    }

    /** First every grant, then every revocation. */
    method LogDifference(
      key: string, previous: set<string>, replacement: set<string>, revision: nat) returns (ghost events: seq<Audit>)
      modifies this`log
      ensures log == old(log) + events && IsDifference(events, key, previous, replacement, revision)
    {
      ghost var added := LogChanges(key, true, replacement - previous, revision);
      ghost var revoked := LogChanges(key, false, previous - replacement, revision);
      events := Events(key, true, added, revision) + Events(key, false, revoked, revision);
    }

    /** One event per capability, in some order. */
    method LogChanges(
      key: string, granted: bool, changes: set<string>, revision: nat) returns (ghost ordered: seq<string>)
      modifies this`log
      ensures Enumerates(ordered, changes) && log == old(log) + Events(key, granted, ordered, revision)
    {
      var order := Sorted(changes);
      for i := 0 to |order|
        invariant log == old(log) + Events(key, granted, order[..i], revision)
      {
        assert order[..i + 1][..i] == order[..i];
        log := log + [Audit(key, granted, order[i], revision)];
      }
      assert order[..|order|] == order;
      ordered := order;
    }
  }

  lemma {:induction false} EnumerationLength<T(!new)>(order: seq<T>, elements: set<T>)
    requires Enumerates(order, elements)
    ensures |order| == |elements|
  {
    if order == [] {
      assert elements == {};
    } else {
      EnumerationLength(order[1..], elements - {order[0]});
    }
  }

  // ---- runs of replacements and imports ---------------------------------------------------------------

  datatype Event =
    | Replacement(key: string, expected: nat, replacement: set<string>)
    | Import(key: string, revision: nat, replacement: set<string>)

  function At(revisions: map<string, nat>, key: string): nat {
    if key in revisions then revisions[key] else 0
  }

  predicate Succeeds(keys: set<string>, revisions: map<string, nat>, e: Event) {
    e.key in keys && (e.Replacement? ==> At(revisions, e.key) == e.expected)
  }

  function RevisionsStep(keys: set<string>, revisions: map<string, nat>, e: Event): map<string, nat> {
    if !Succeeds(keys, revisions, e) then revisions
    else revisions[e.key := if e.Import? then e.revision else e.expected + 1]
  }

  /** The revisions under a sequence of events by any number of clients. */
  function RevisionsAfter(keys: set<string>, revisions: map<string, nat>, events: seq<Event>): map<string, nat> {
    if events == [] then revisions
    else RevisionsStep(keys, RevisionsAfter(keys, revisions, events[..|events| - 1]), events[|events| - 1])
  }

  /** What one event makes of the store. */
  ghost predicate Took(s: State, e: Event, t: State) {
    if !Succeeds(s.keys.Keys, s.revisions, e) then t == s
    else
      match e
      case Replacement(key, expected, replacement) => Replaces(s, t, key, replacement, expected + 1)
      case Import(key, revision, replacement) => t == Imported(s, key, revision, replacement)
  }

  /** The states of a store between events. */
  ghost predicate Run(states: seq<State>, events: seq<Event>) {
    && |states| == |events| + 1
    && forall i :: 0 <= i < |events| ==> Took(states[i], events[i], states[i + 1])
  }

  /** In a run of the store the keys stay and the revisions are those of its events. */
  lemma {:induction false} RunFollowsRevisions(states: seq<State>, events: seq<Event>, i: nat)
    requires Run(states, events) && i <= |events|
    ensures states[i].keys == states[0].keys
    ensures states[i].revisions == RevisionsAfter(states[0].keys.Keys, states[0].revisions, events[..i])
  {
    if i > 0 {
      RunFollowsRevisions(states, events, i - 1);
      assert Took(states[i - 1], events[i - 1], states[i]) && events[..i][..i - 1] == events[..i - 1];
    }
  }

  /** In a run without imports the log goes on replaying to the stored sets. */
  lemma {:induction false} RunKeepsTheLog(states: seq<State>, events: seq<Event>, i: nat)
    requires Run(states, events) && i <= |events| && LogReplays(states[0])
    requires forall k :: 0 <= k < |events| ==> events[k].Replacement?
    ensures LogReplays(states[i])
  {
    if i > 0 {
      RunKeepsTheLog(states, events, i - 1);
      var (s, e) := (states[i - 1], events[i - 1]);
      assert Took(s, e, states[i]);
      if Succeeds(s.keys.Keys, s.revisions, e) {
        var logged :| IsDifference(logged, e.key, s.CapabilitiesOf(e.key), e.replacement, e.expected + 1)
            && states[i] == Replacing(s, logged, e.key, e.replacement, e.expected + 1);
        ReplacedLogReplays(s, logged, e.key, e.replacement, e.expected + 1);
      }
    }
  }

  /** Whether the i-th event succeeded. */
  predicate Succeeded(keys: set<string>, revisions: map<string, nat>, events: seq<Event>, i: nat)
    requires i < |events|
  {
    Succeeds(keys, RevisionsAfter(keys, revisions, events[..i]), events[i])
  }

  /** The revision last imported for the key, or the one at the start. */
  function Base(keys: set<string>, revisions: map<string, nat>, events: seq<Event>, key: string): nat {
    if events == [] then At(revisions, key)
    else
      var (front, e) := (events[..|events| - 1], events[|events| - 1]);
      if e.Import? && e.key == key && key in keys then e.revision else Base(keys, revisions, front, key)
  }

  /** The successful replacements of the key's set since it was last imported. */
  function Successes(keys: set<string>, revisions: map<string, nat>, events: seq<Event>, key: string): nat {
    if events == [] then 0
    else
      var (front, e) := (events[..|events| - 1], events[|events| - 1]);
      if e.key != key || !Succeeds(keys, RevisionsAfter(keys, revisions, front), e)
      then Successes(keys, revisions, front, key)
      else if e.Import? then 0 else Successes(keys, revisions, front, key) + 1
  }

  /** A key's revision is the one last imported, plus one per successful replacement since. */
  lemma {:induction false} RevisionCountsSuccesses(
    keys: set<string>, revisions: map<string, nat>, events: seq<Event>, key: string)
    ensures At(RevisionsAfter(keys, revisions, events), key)
            == Base(keys, revisions, events, key) + Successes(keys, revisions, events, key)
  {
    if events != [] {
      RevisionCountsSuccesses(keys, revisions, events[..|events| - 1], key);
    }
  }

  ghost predicate NoImport(events: seq<Event>, from: nat, key: string) {
    forall k :: from <= k < |events| && events[k].key == key ==> events[k].Replacement?
  }

  lemma {:induction false} RevisionsNeverFall(
    keys: set<string>, revisions: map<string, nat>, events: seq<Event>, i: nat, key: string)
    requires i <= |events| && NoImport(events, i, key)
    ensures At(RevisionsAfter(keys, revisions, events[..i]), key) <= At(RevisionsAfter(keys, revisions, events), key)
  {
    if i == |events| {
      assert events[..i] == events;
    } else {
      assert events[..|events| - 1][..i] == events[..i];
      RevisionsNeverFall(keys, revisions, events[..|events| - 1], i, key);
    }
  }

  /**
    Of all replacements of one key that start from one revision at most one succeeds, unless
    the key is imported in between: no update is lost.
   */
  lemma NoLostUpdate(keys: set<string>, revisions: map<string, nat>, events: seq<Event>, i: nat, j: nat)
    requires i < j < |events| && events[i].Replacement? && events[j].Replacement?
    requires events[i].key == events[j].key && events[i].expected == events[j].expected
    requires NoImport(events[..j], i + 1, events[i].key)
    requires Succeeded(keys, revisions, events, i)
    ensures !Succeeded(keys, revisions, events, j)
  {
    var upto := events[..j];
    assert upto[..i + 1] == events[..i + 1] && events[..i + 1][..i] == events[..i];
    RevisionsNeverFall(keys, revisions, upto, i + 1, events[i].key);
  }

  /** An import of the old revision in between lets a second one succeed, and the first is overwritten. */
  lemma ImportCanLoseAnUpdate(key: string, first: set<string>, second: set<string>, imported: set<string>)
    ensures var events := [Replacement(key, 0, first), Import(key, 0, imported), Replacement(key, 0, second)];
            Succeeded({key}, map[], events, 0) && Succeeded({key}, map[], events, 2)
  {
    var events := [Replacement(key, 0, first), Import(key, 0, imported), Replacement(key, 0, second)];
    var (two, one) := (events[..2], events[..1]);
    assert events[..0] == [] && two[..1] == one && one[..0] == [];
    assert RevisionsAfter({key}, map[], one) == map[key := 1];
    assert two[1] == events[1] && RevisionsAfter({key}, map[], two) == map[key := 1][key := 0];
  }
}
