/**
  Ordering write confirmations (obs/adapters/base.py): sequence numbers shared by all
  adapters behind one router, and one-shot tokens. The lemmas hold after every
  interleaving of issuing, activating and confirming.
 */
module ConfirmationOrder {

  /** A router-issued order: the datapoint and the sequence number drawn for it. */
  datatype WriteOrder = WriteOrder(datapoint: string, sequence: nat)

  datatype Tracker = Tracker(next: nat, latest: map<string, nat>) {
    function Issue(datapoint: string): (Tracker, WriteOrder) {
      (this.(next := next + 1), WriteOrder(datapoint, next + 1))
    }

    function Activate(o: WriteOrder): Tracker {
      if o.datapoint !in latest || o.sequence > latest[o.datapoint]
          then this.(latest := latest[o.datapoint := o.sequence]) else this
    }

    predicate Accepts(o: WriteOrder) {
      o.datapoint in latest ==> o.sequence >= latest[o.datapoint]
    }
  }

  class OrderTracker {
    var nextSequence: nat
    var latestActivated: map<string, nat>

    constructor ()
      ensures Value() == Tracker(0, map[])
    {
      nextSequence, latestActivated := 0, map[];
    }

    function Value(): Tracker
      reads this
    {
      Tracker(nextSequence, latestActivated)
    }

    method Issue(datapoint: string) returns (o: WriteOrder)
      modifies this`nextSequence
      ensures (Value(), o) == old(Value()).Issue(datapoint)
    {
      nextSequence := nextSequence + 1;
      o := WriteOrder(datapoint, nextSequence);
    }

    method Activate(o: WriteOrder)
      modifies this`latestActivated
      ensures Value() == old(Value()).Activate(o)
    {
      if o.datapoint !in latestActivated || o.sequence > latestActivated[o.datapoint] {
        latestActivated := latestActivated[o.datapoint := o.sequence];
      }
    }

    method Accept(o: WriteOrder) returns (accepted: bool)
      ensures accepted == Value().Accepts(o)
    {
      accepted := o.sequence >= (if o.datapoint in latestActivated then latestActivated[o.datapoint] else o.sequence);
    }
  }

  // ---- every interleaving ------------------------------------------------------------------

  /** Adapters hold the orders they were given, so an activation names one issued before, by position. */
  datatype Event = Issued(datapoint: string) | Activated(index: nat)

  datatype History = History(tracker: Tracker, issued: seq<WriteOrder>, activated: seq<WriteOrder>)

  /** The tracker, the orders handed out and the activations so far; an index never handed out is no event. */
  function After(events: seq<Event>): (h: History)
    ensures |h.issued| == h.tracker.next
    ensures forall i :: 0 <= i < |h.issued| ==> h.issued[i].sequence == i + 1
    ensures forall o :: o in h.activated ==> o in h.issued
  {
    if events == [] then History(Tracker(0, map[]), [], [])
    else
      var h := After(events[..|events| - 1]);
      match events[|events| - 1]
      case Issued(datapoint) =>
        var (tracker, o) := h.tracker.Issue(datapoint);
        h.(tracker := tracker, issued := h.issued + [o])
      case Activated(index) =>
        if index < |h.issued|
            then h.(tracker := h.tracker.Activate(h.issued[index]), activated := h.activated + [h.issued[index]]) else h
  }

  /** Nothing has happened at first; issuing hands out the next number, activating one handed out records it. */
  lemma HistoryExactly(events: seq<Event>, datapoint: string, index: nat)
    ensures After([]) == History(Tracker(0, map[]), [], [])
    ensures var (h, k) := (After(events), After(events + [Issued(datapoint)]));
            && k.issued == h.issued + [WriteOrder(datapoint, |h.issued| + 1)]
            && k.activated == h.activated && k.tracker.latest == h.tracker.latest
    ensures var (h, k) := (After(events), After(events + [Activated(index)]));
            && k.issued == h.issued
            && k.activated == h.activated + (if index < |h.issued| then [h.issued[index]] else [])
  {
    assert (events + [Issued(datapoint)])[..|events|] == events;
    assert (events + [Activated(index)])[..|events|] == events;
  }

  /** The latest activated sequence of a datapoint is the greatest one activated for it. */
  lemma {:induction false} LatestIsGreatest(events: seq<Event>, datapoint: string)
    ensures var h := After(events);
            && (datapoint in h.tracker.latest <==> exists o :: o in h.activated && o.datapoint == datapoint)
            && (datapoint in h.tracker.latest ==>
                  && WriteOrder(datapoint, h.tracker.latest[datapoint]) in h.activated
                  && forall o :: o in h.activated && o.datapoint == datapoint ==>
                      o.sequence <= h.tracker.latest[datapoint])
  {
    if events != [] {
      LatestIsGreatest(events[..|events| - 1], datapoint);
      var before, h := After(events[..|events| - 1]), After(events);
      assert forall o :: o in before.activated ==> o in h.activated;
      if h.activated != before.activated {
        var o := h.activated[|h.activated| - 1];
        assert h.activated == before.activated + [o] && o in h.activated;
        assert WriteOrder(o.datapoint, o.sequence) == o;
      }
    }
  }

  /** A confirmation is accepted exactly when no later write of its datapoint has been activated. */
  lemma AcceptedUnlessSuperseded(events: seq<Event>, o: WriteOrder)
    ensures After(events).tracker.Accepts(o)
            <==> forall later :: later in After(events).activated && later.datapoint == o.datapoint ==>
                later.sequence <= o.sequence
  {
    LatestIsGreatest(events, o.datapoint);
    var h := After(events);
    if o.datapoint in h.tracker.latest {
      assert WriteOrder(o.datapoint, h.tracker.latest[o.datapoint]) in h.activated;
    }
  }

  lemma {:induction false} HistoryGrows(events: seq<Event>, more: seq<Event>)
    ensures After(events).issued <= After(events + more).issued
    ensures forall o :: o in After(events).activated ==> o in After(events + more).activated
  {
    if more == [] {
      assert events + more == events;
    } else {
      var n := |more| - 1;
      assert (events + more)[..|events + more| - 1] == events + more[..n];
      HistoryGrows(events, more[..n]);
    }
  }

  /** Once a write has been activated, no confirmation of an earlier write to the datapoint is accepted, ever. */
  lemma SupersededForever(events: seq<Event>, more: seq<Event>, older: nat, newer: nat)
    requires older < newer < |After(events).issued|
    requires After(events).issued[older].datapoint == After(events).issued[newer].datapoint
    requires After(events).issued[newer] in After(events).activated
    ensures !After(events + more).tracker.Accepts(After(events).issued[older])
  {
    HistoryGrows(events, more);
    AcceptedUnlessSuperseded(events + more, After(events).issued[older]);
  }

  /** Writes to other datapoints never decide: acceptance depends on the activations of its own datapoint. */
  lemma DatapointsDoNotInterfere(events: seq<Event>, others: seq<Event>, o: WriteOrder)
    requires forall p :: p in After(events + others).activated && p.datapoint == o.datapoint ==>
        p in After(events).activated
    ensures After(events + others).tracker.Accepts(o) == After(events).tracker.Accepts(o)
  {
    HistoryGrows(events, others);
    AcceptedUnlessSuperseded(events, o);
    AcceptedUnlessSuperseded(events + others, o);
  }

  /** is_newer_than on two orders of one tracker: issued later. */
  predicate IsNewer(a: WriteOrder, b: WriteOrder) {
    a.sequence > b.sequence
  }

  lemma NewerMeansIssuedLater(events: seq<Event>, i: nat, j: nat)
    requires i < |After(events).issued| && j < |After(events).issued|
    ensures IsNewer(After(events).issued[i], After(events).issued[j]) <==> i > j
    ensures After(events).issued[i] == After(events).issued[j] <==> i == j
  {
    assert After(events).issued[i].sequence == i + 1;
  }

  // ---- one-shot action tokens -----------------------------------------------------------------

  class ActionToken {
    var claimed: bool

    constructor ()
      ensures !claimed
    {
      claimed := false;
    }

    method Claim() returns (first: bool)
      modifies this
      ensures first == !old(claimed) && claimed
    {
      if claimed {
        return false;
      }
      claimed := true;
      return true;
    }
  }

  /** What an adapter holds for one confirmation of a command. */
  class ActionContext {
    const suppress: bool
    const token: ActionToken?

    constructor (suppress: bool, token: ActionToken?)
      ensures this.suppress == suppress && this.token == token
    {
      this.suppress, this.token := suppress, token;
    }

    method SuppressActionsAtConfirmation() returns (suppressed: bool)
      modifies token
      ensures token == null ==> suppressed == suppress
      ensures token != null ==> (token.claimed, suppressed) == Confirm(old(token.claimed), suppress)
    {
      if suppress {
        return true;
      }
      if token == null {
        return false;
      }
      var first := token.Claim();
      return !first;
    }
  }

  /** One confirmation on a shared token: the token afterwards, and whether its actions are suppressed. */
  function Confirm(claimed: bool, suppress: bool): (bool, bool) {
    (claimed || !suppress, suppress || claimed)
  }

  /** Confirming the contexts of one command one after the other, in whatever order they arrive. */
  function Confirmations(claimed: bool, contexts: seq<bool>): (suppressed: seq<bool>)
    ensures |suppressed| == |contexts|
    decreases |contexts|
  {
    if contexts == [] then []
    else [Confirm(claimed, contexts[0]).1] + Confirmations(Confirm(claimed, contexts[0]).0, contexts[1..])
  }

  /** The first context that is not suppressed triggers its actions, and no other does. */
  lemma {:induction false} ExactlyTheFirstTriggers(claimed: bool, contexts: seq<bool>, i: nat)
    requires i < |contexts|
    ensures !Confirmations(claimed, contexts)[i] <==> !claimed && !contexts[i] && forall j :: 0 <= j < i ==> contexts[j]
    decreases i
  {
    if i > 0 {
      ExactlyTheFirstTriggers(Confirm(claimed, contexts[0]).0, contexts[1..], i - 1);
      assert forall j :: 0 < j < i ==> contexts[j] == contexts[1..][j - 1];
      assert (forall j :: 0 <= j < i ==> contexts[j]) <==> contexts[0] && forall j :: 0 <= j < i - 1 ==>
          contexts[1..][j];
    }
  }

  lemma AtMostOneTriggers(claimed: bool, contexts: seq<bool>, i: nat, j: nat)
    requires i < j < |contexts|
    ensures Confirmations(claimed, contexts)[i] || Confirmations(claimed, contexts)[j]
  {
    ExactlyTheFirstTriggers(claimed, contexts, i);
    ExactlyTheFirstTriggers(claimed, contexts, j);
  }
}
