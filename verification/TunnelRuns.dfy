/**
  What holds over every run of the tunnelling server (tools/testdata_generator.py): the
  table stays consistent, telegrams are numbered per connection, and a channel number
  is taken from a live client exactly when it has wrapped around to it. Connections are
  told apart by how many were accepted before them; the server does not keep that.
 */
module TunnelRuns {
  import opened Bytes
  import opened KnxTunnel

  /** A client in the table with what its connection has been through. */
  datatype Live = Live(client: Client, birth: nat, delivered: nat)

  /** One telegram that went out: on which connection and under which number. */
  datatype Sent = Sent(birth: nat, channel: nat, number: nat)

  datatype Trace = Trace(live: seq<Live>, nextChannel: nat, accepted: nat, log: seq<Sent>)

  function PutLive(live: seq<Live>, l: Live): seq<Live> {
    if live == [] then [l]
    else if live[0].client.channel == l.client.channel then [l] + live[1..]
    else [live[0]] + PutLive(live[1..], l)
  }

  function RemovedLive(live: seq<Live>, channel: nat): seq<Live> {
    if live == [] then []
    else if live[0].client.channel == channel then live[1..]
    else [live[0]] + RemovedLive(live[1..], channel)
  }

  function AdvancedLive(l: Live, reachable: set<Address>): Live {
    if l.client.dataAddr in reachable then Live(Advanced(l.client, reachable), l.birth, l.delivered + 1) else l
  }

  function SentOne(l: Live): Sent {
    Sent(l.birth, l.client.channel, l.client.seqSend % 256)
  }

  function SentTo(live: seq<Live>, reachable: set<Address>): seq<Sent> {
    if live == [] then []
    else
      var last := live[|live| - 1];
      SentTo(live[..|live| - 1], reachable)
      + if last.client.dataAddr in reachable then [SentOne(last)] else []
  }

  function Traced(t: Trace, e: Event): Trace {
    match e
    case Connect(a) =>
      if |t.live| >= MAX_CONNECTIONS then t
      else Trace(PutLive(t.live, Live(Client(t.nextChannel, a, 0), t.accepted, 0)), NextChannel(t.nextChannel),
          t.accepted + 1, t.log)
    case Disconnect(channel) => t.(live := RemovedLive(t.live, channel))
    case Telegram(reachable) =>
      t.(live := seq(|t.live|, i requires 0 <= i < |t.live| => AdvancedLive(t.live[i], reachable)),
         log := t.log + SentTo(t.live, reachable))
  }

  const EMPTY := Trace([], 1, 0, [])

  function Run(events: seq<Event>): Trace {
    if events == [] then EMPTY else Traced(Run(events[..|events| - 1]), events[|events| - 1])
  }

  function Table(t: Trace): State {
    State(seq(|t.live|, i requires 0 <= i < |t.live| => t.live[i].client), t.nextChannel)
  }

  function Clients(live: seq<Live>): seq<Client> {
    seq(|live|, i requires 0 <= i < |live| => live[i].client)
  }

  // ---- the trace follows the server -----------------------------------------------------------------------

  lemma {:induction false} PutProjects(live: seq<Live>, l: Live)
    ensures Clients(PutLive(live, l)) == Put(Clients(live), l.client)
  {
    if live != [] {
      PutProjects(live[1..], l);
      assert Clients(live)[1..] == Clients(live[1..]);
    }
  }

  lemma {:induction false} RemovedProjects(live: seq<Live>, channel: nat)
    ensures Clients(RemovedLive(live, channel)) == Removed(Clients(live), channel)
  {
    if live != [] {
      RemovedProjects(live[1..], channel);
      assert Clients(live)[1..] == Clients(live[1..]);
    }
  }

  /** The trace's table takes the same steps as the server's. */
  lemma TraceFollowsServer(t: Trace, e: Event)
    ensures Table(Traced(t, e)) == Step(Table(t), e)
  {
    assert Table(t).clients == Clients(t.live);
    match e
    case Connect(a) => PutProjects(t.live, Live(Client(t.nextChannel, a, 0), t.accepted, 0));
    case Disconnect(channel) => RemovedProjects(t.live, channel);
    case Telegram(reachable) => assert Table(Traced(t, e)).clients == AllAdvanced(Clients(t.live), reachable);
  }

  /** The frames that go out carry, in order, the channels and numbers of the log. */
  lemma {:induction false} FramesCarryTheLog(live: seq<Live>, reachable: set<Address>, cemi: seq<nat>)
    requires Fits(State(Clients(live), 1)) && AreBytes(cemi) && |cemi| <= 265
    ensures var (frames, sent) := (Telegrams(Clients(live), reachable, cemi), SentTo(live, reachable));
            |frames| == |sent| && forall i :: 0 <= i < |sent| ==> Carries(frames[i].bytes, sent[i])
  {
    if live != [] {
      var (front, last) := (live[..|live| - 1], live[|live| - 1]);
      var clients := Clients(live);
      assert clients[|live| - 1] == last.client && last.client.channel < 256;
      assert clients[..|live| - 1] == Clients(front);
      FitsFront(live);
      FramesCarryTheLog(front, reachable, cemi);
      if last.client.dataAddr in reachable {
        FrameCarries(last, cemi);
      }
    }
  }

  lemma FitsFront(live: seq<Live>)
    requires live != [] && Fits(State(Clients(live), 1))
    ensures Fits(State(Clients(live[..|live| - 1]), 1))
  {
    var (all, front) := (Clients(live), Clients(live[..|live| - 1]));
    forall i | 0 <= i < |front| ensures 1 <= front[i].channel <= 255 && front[i].seqSend < 256 {
      assert front[i] == all[i];
    }
  }

  lemma FrameCarries(l: Live, cemi: seq<nat>)
    requires l.client.channel < 256 && AreBytes(cemi) && |cemi| <= 265
    ensures Carries(TelegramFrame(l.client, cemi), SentOne(l))
  {
  }

  /** The fields of a tunnelling request: after the header, its channel and its sequence number. */
  predicate Carries(frame: seq<nat>, s: Sent) {
    |frame| > 8 && frame[7] == s.channel && frame[8] == s.number
  }

  // ---- the invariant -----------------------------------------------------------------------------------------

  function Delivered(log: seq<Sent>, birth: nat): nat {
    if log == [] then 0 else Delivered(log[..|log| - 1], birth) + if log[|log| - 1].birth == birth then 1 else 0
  }

  /**
    A live client sits under its own channel, the one its connection was given, and its
    number counts its telegrams.
   */
  predicate Sound(l: Live, accepted: nat, log: seq<Sent>) {
    && l.birth < accepted && l.client.channel == l.birth % 255 + 1
    && l.delivered == Delivered(log, l.birth) && l.client.seqSend == l.delivered % 256
  }

  predicate Apart(live: seq<Live>) {
    forall i, j :: 0 <= i < j < |live| ==> live[i].client.channel != live[j].client.channel
  }

  /** Each telegram carries the number of those sent before it on its connection, modulo 256. */
  predicate Numbered(log: seq<Sent>) {
    forall i :: 0 <= i < |log| ==> log[i].number == Delivered(log[..i], log[i].birth) % 256
  }

  predicate Consistent(t: Trace) {
    && |t.live| <= MAX_CONNECTIONS
    && t.nextChannel == t.accepted % 255 + 1
    && (forall i :: 0 <= i < |t.live| ==> Sound(t.live[i], t.accepted, t.log))
    && Apart(t.live)
    && (forall i :: 0 <= i < |t.log| ==> t.log[i].birth < t.accepted)
    && Numbered(t.log)
  }

  lemma {:induction false} PutMembers(live: seq<Live>, l: Live, x: Live)
    requires Apart(live)
    ensures x in PutLive(live, l) <==> x == l || (x in live && x.client.channel != l.client.channel)
  {
    if live != [] {
      var (head, rest) := (live[0], live[1..]);
      assert live == [head] + rest;
      if head.client.channel == l.client.channel {
        assert forall i :: 0 <= i < |rest| ==> rest[i] == live[i + 1];
      } else {
        assert Apart(rest) by { assert forall i :: 0 <= i < |rest| ==> rest[i] == live[i + 1]; }
        PutMembers(rest, l, x);
      }
    }
  }

  lemma {:induction false} PutApart(live: seq<Live>, l: Live)
    requires Apart(live)
    ensures Apart(PutLive(live, l)) && |live| <= |PutLive(live, l)| <= |live| + 1
  {
    if live != [] {
      var (head, rest) := (live[0], live[1..]);
      assert forall i :: 0 <= i < |rest| ==> rest[i] == live[i + 1];
      if head.client.channel != l.client.channel {
        PutApart(rest, l);
        var q := PutLive(rest, l);
        forall i | 0 <= i < |q| ensures q[i].client.channel != head.client.channel {
          PutMembers(rest, l, q[i]);
        }
      }
    }
  }

  lemma {:induction false} PutAppends(live: seq<Live>, l: Live)
    requires forall x :: x in live ==> x.client.channel != l.client.channel
    ensures PutLive(live, l) == live + [l]
  {
    if live != [] {
      PutAppends(live[1..], l);
      assert live == [live[0]] + live[1..];
    }
  }

  lemma {:induction false} RemovedMembers(live: seq<Live>, channel: nat, x: Live)
    requires Apart(live)
    ensures x in RemovedLive(live, channel) <==> x in live && x.client.channel != channel
  {
    if live != [] {
      var (head, rest) := (live[0], live[1..]);
      assert live == [head] + rest;
      assert forall i :: 0 <= i < |rest| ==> rest[i] == live[i + 1];
      if head.client.channel != channel {
        RemovedMembers(rest, channel, x);
      }
    }
  }

  lemma {:induction false} RemovedApart(live: seq<Live>, channel: nat)
    requires Apart(live)
    ensures Apart(RemovedLive(live, channel)) && |RemovedLive(live, channel)| <= |live|
  {
    if live != [] {
      var (head, rest) := (live[0], live[1..]);
      assert forall i :: 0 <= i < |rest| ==> rest[i] == live[i + 1];
      if head.client.channel != channel {
        RemovedApart(rest, channel);
        var q := RemovedLive(rest, channel);
        forall i | 0 <= i < |q| ensures q[i].client.channel != head.client.channel {
          RemovedMembers(rest, channel, q[i]);
        }
      }
    }
  }

  lemma ConnectKeeps(t: Trace, a: Address)
    requires Consistent(t)
    ensures Consistent(Traced(t, Connect(a)))
  {
    if |t.live| < MAX_CONNECTIONS {
      var l := Live(Client(t.nextChannel, a, 0), t.accepted, 0);
      var t' := Traced(t, Connect(a));
      PutApart(t.live, l);
      NothingDeliveredYet(t.log, t.accepted);
      assert Sound(l, t'.accepted, t'.log);
      forall i | 0 <= i < |t'.live| ensures Sound(t'.live[i], t'.accepted, t'.log) {
        PutMembers(t.live, l, t'.live[i]);
      }
    }
  }

  lemma {:induction false} NothingDeliveredYet(log: seq<Sent>, birth: nat)
    requires forall i :: 0 <= i < |log| ==> log[i].birth < birth
    ensures Delivered(log, birth) == 0
  {
    if log != [] {
      NothingDeliveredYet(log[..|log| - 1], birth);
    }
  }

  lemma DisconnectKeeps(t: Trace, channel: nat)
    requires Consistent(t)
    ensures Consistent(Traced(t, Disconnect(channel)))
  {
    var t' := Traced(t, Disconnect(channel));
    RemovedApart(t.live, channel);
    forall i | 0 <= i < |t'.live| ensures Sound(t'.live[i], t'.accepted, t'.log) {
      RemovedMembers(t.live, channel, t'.live[i]);
    }
  }

  lemma OneMoreEntry(log: seq<Sent>, s: Sent)
    ensures forall b :: Delivered(log + [s], b) == Delivered(log, b) + if s.birth == b then 1 else 0
    ensures Numbered(log) && s.number == Delivered(log, s.birth) % 256 ==> Numbered(log + [s])
  {
    assert (log + [s])[..|log|] == log;
    if Numbered(log) && s.number == Delivered(log, s.birth) % 256 {
      forall i | 0 <= i < |log + [s]| ensures (log + [s])[i].number
          == Delivered((log + [s])[..i], (log + [s])[i].birth) % 256 {
        if i < |log| {
          assert (log + [s])[..i] == log[..i];
        }
      }
    }
  }

  /** After the first k clients have been sent to: those count one more, if reached, and the rest are as before. */
  predicate Broadcasting(
    live: seq<Live>, k: nat, accepted: nat, log: seq<Sent>, log': seq<Sent>, reachable: set<Address>)
    requires k <= |live|
  {
    && Numbered(log')
    && (forall i :: 0 <= i < |log'| ==> log'[i].birth < accepted)
    && forall i :: 0 <= i < |live| ==>
         Delivered(log', live[i].birth) == live[i].delivered + if i < k && live[i].client.dataAddr in reachable then 1
             else 0
  }

  lemma BirthsDiffer(t: Trace, i: nat, j: nat)
    requires Consistent(t) && i < |t.live| && j < |t.live| && i != j
    ensures t.live[i].birth != t.live[j].birth
  {
    assert Sound(t.live[i], t.accepted, t.log) && Sound(t.live[j], t.accepted, t.log);
  }

  lemma OneMoreDelivery(t: Trace, k: nat, before: seq<Sent>, reachable: set<Address>)
    requires Consistent(t) && k < |t.live| && t.live[k].client.dataAddr in reachable
    requires Broadcasting(t.live, k, t.accepted, t.log, before, reachable)
    ensures Broadcasting(t.live, k + 1, t.accepted, t.log, before + [SentOne(t.live[k])], reachable)
  {
    var (last, s) := (t.live[k], SentOne(t.live[k]));
    assert Sound(last, t.accepted, t.log);
    OneMoreEntry(before, s);
    forall i | 0 <= i < |t.live|
      ensures Delivered(before + [s], t.live[i].birth)
              == t.live[i].delivered + if i < k + 1 && t.live[i].client.dataAddr in reachable then 1 else 0
    {
      if i != k {
        BirthsDiffer(t, i, k);
      }
    }
  }

  lemma {:induction false} BroadcastCounts(t: Trace, k: nat, reachable: set<Address>)
    requires Consistent(t) && k <= |t.live|
    ensures Broadcasting(t.live, k, t.accepted, t.log, t.log + SentTo(t.live[..k], reachable), reachable)
  {
    if k == 0 {
      assert t.log + SentTo(t.live[..0], reachable) == t.log;
    } else {
      BroadcastCounts(t, k - 1, reachable);
      var (last, before) := (t.live[k - 1], t.log + SentTo(t.live[..k - 1], reachable));
      assert t.live[..k][..k - 1] == t.live[..k - 1];
      if last.client.dataAddr in reachable {
        OneMoreDelivery(t, k - 1, before, reachable);
        assert t.log + SentTo(t.live[..k], reachable) == before + [SentOne(last)];
      } else {
        assert t.log + SentTo(t.live[..k], reachable) == before;
      }
    }
  }

  lemma ReachedStaysSound(l: Live, accepted: nat, log: seq<Sent>, log': seq<Sent>, reachable: set<Address>)
    requires Sound(l, accepted, log)
    requires Delivered(log', l.birth) == l.delivered + if l.client.dataAddr in reachable then 1 else 0
    ensures Sound(AdvancedLive(l, reachable), accepted, log')
        && AdvancedLive(l, reachable).client.channel == l.client.channel
  {
    CountsOn(l.delivered);
  }

  lemma CountsOn(n: nat)
    ensures (n % 256 + 1) % 256 == (n + 1) % 256
  {
    assert n == n / 256 * 256 + n % 256;
  }

  lemma TelegramKeeps(t: Trace, reachable: set<Address>)
    requires Consistent(t)
    ensures Consistent(Traced(t, Telegram(reachable)))
  {
    var (live, log') := (t.live, t.log + SentTo(t.live, reachable));
    assert live[..|live|] == live;
    BroadcastCounts(t, |live|, reachable);
    var live' := seq(|live|, i requires 0 <= i < |live| => AdvancedLive(live[i], reachable));
    assert Traced(t, Telegram(reachable)) == t.(live := live', log := log');
    forall i | 0 <= i < |live'| ensures Sound(live'[i], t.accepted, log')
        && live'[i].client.channel == live[i].client.channel {
      ReachedStaysSound(live[i], t.accepted, t.log, log', reachable);
    }
  }

  /**
    Every run: at most four clients, each under the channel its connection was given, and
    the k-th telegram on a connection, counting from zero, carries k modulo 256, live or gone.
   */
  lemma {:induction false} RunsStayConsistent(events: seq<Event>)
    ensures Consistent(Run(events))
  {
    if events != [] {
      var t := Run(events[..|events| - 1]);
      RunsStayConsistent(events[..|events| - 1]);
      match events[|events| - 1]
      case Connect(a) => ConnectKeeps(t, a);
      case Disconnect(channel) => DisconnectKeeps(t, channel);
      case Telegram(reachable) => TelegramKeeps(t, reachable);
    }
  }

  // ---- wrap-around ----------------------------------------------------------------------------------------------

  /**
    An accepted connection takes its channel from a live client exactly when that client
    was accepted a positive multiple of 255 connections earlier; every other client stays,
    and without such a client nobody is displaced.
   */
  lemma DisplacedExactlyAfterWrapping(t: Trace, a: Address)
    requires Consistent(t) && |t.live| < MAX_CONNECTIONS
    ensures var t' := Traced(t, Connect(a));
            var newcomer := Live(Client(t.accepted % 255 + 1, a, 0), t.accepted, 0);
            && newcomer in t'.live
            && (forall l :: l in t.live ==> (l !in t'.live <==> (t.accepted - l.birth) % 255 == 0))
            && (forall l :: l in t'.live && l != newcomer ==> l in t.live)
            && ((forall l :: l in t.live ==> t.accepted - l.birth <= 254) ==> t'.live == t.live + [newcomer])
  {
    var newcomer := Live(Client(t.nextChannel, a, 0), t.accepted, 0);
    forall l
      ensures l in PutLive(t.live, newcomer) <==> l == newcomer || (l in t.live && l.client.channel != t.nextChannel)
    {
      PutMembers(t.live, newcomer, l);
    }
    forall l | l in t.live
      ensures l != newcomer && (l.client.channel == t.nextChannel <==> (t.accepted - l.birth) % 255 == 0)
    {
      SameChannelExactly(t, l);
    }
    if forall l :: l in t.live ==> t.accepted - l.birth <= 254 {
      AllRecent(t, newcomer);
    }
  }

  lemma AllRecent(t: Trace, newcomer: Live)
    requires Consistent(t) && newcomer.client.channel == t.nextChannel
    requires forall l :: l in t.live ==> t.accepted - l.birth <= 254
    ensures PutLive(t.live, newcomer) == t.live + [newcomer]
  {
    forall l | l in t.live ensures l.client.channel != t.nextChannel {
      SameChannelExactly(t, l);
    }
    PutAppends(t.live, newcomer);
  }

  lemma SameChannelExactly(t: Trace, l: Live)
    requires Consistent(t) && l in t.live
    ensures l.birth < t.accepted && (l.client.channel == t.nextChannel <==> (t.accepted - l.birth) % 255 == 0)
  {
    var i :| 0 <= i < |t.live| && t.live[i] == l;
    assert Sound(t.live[i], t.accepted, t.log);
    SameResidue(t.accepted, l.birth);
  }

  lemma SameResidue(a: nat, b: nat)
    requires b < a
    ensures a % 255 == b % 255 <==> (a - b) % 255 == 0
  {
  }

  function Churn(n: nat, a: Address): seq<Event> {
    if n == 0 then [Connect(a)] else Churn(n - 1, a) + [Connect(a)] + [Disconnect(n % 255 + 1)]
  }

  lemma GuestComesAndGoes(first: Live, n: nat, a: Address)
    requires first.client.channel == 1 && 0 < n <= 254
    ensures var alone := Trace([first], n % 255 + 1, n, []);
            Traced(Traced(alone, Connect(a)), Disconnect(n % 255 + 1)) == Trace([first], (n + 1) % 255 + 1, n + 1, [])
  {
    var guest := Live(Client(n % 255 + 1, a, 0), n, 0);
    PutAppends([first], guest);
    assert [first, guest][1..] == [guest];
    assert RemovedLive([guest], n % 255 + 1) == [];
    assert RemovedLive([first, guest], n % 255 + 1) == [first];
  }

  /** A client stays while n others come and go. */
  lemma {:induction false} ChurnRun(n: nat, a: Address)
    requires n <= 254
    ensures Run(Churn(n, a)) == Trace([Live(Client(1, a, 0), 0, 0)], (n + 1) % 255 + 1, n + 1, [])
  {
    if n == 0 {
      assert [Connect(a)][..0] == [];
    } else {
      ChurnRun(n - 1, a);
      var (before, come) := (Churn(n - 1, a), Churn(n - 1, a) + [Connect(a)]);
      assert come[..|come| - 1] == before && Churn(n, a)[..|Churn(n, a)| - 1] == come;
      GuestComesAndGoes(Live(Client(1, a, 0), 0, 0), n, a);
    }
  }

  /** It does happen: one client stays, 254 come and go, and the next newcomer replaces the first. */
  lemma WrappingDisplacesALiveClient(a: Address, b: Address)
    ensures var run := Churn(254, a) + [Connect(b)];
            Run(Churn(254, a)).live == [Live(Client(1, a, 0), 0, 0)] && Run(run).live == [Live(Client(1, b, 0), 255, 0)]
  {
    ChurnRun(254, a);
    var run := Churn(254, a) + [Connect(b)];
    assert run[..|run| - 1] == Churn(254, a);
  }
}
