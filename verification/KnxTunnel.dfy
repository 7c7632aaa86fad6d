/**
  The tunnelling server of the test-data generator (tools/testdata_generator.py), a
  KNXnet/IP gateway as in volume 3 part 8 of the KNX Standard: it hands out channel
  numbers that wrap around, answers datagrams, and pushes numbered telegrams to every
  client. The server itself; what holds over its runs is in TunnelRuns.
 */
module KnxTunnel {
  import opened Bytes
  import opened Wrappers

  datatype Address = Address(ip: seq<nat>, port: nat)

  /** The configured host: none, an IPv4 address, or anything else that a socket can be bound to. */
  datatype Host = Unset | Quad(ip: seq<nat>) | Name(text: string) {
    predicate Valid() {
      Quad? ==> |ip| == 4 && AreBytes(ip)
    }

    /** The address told to clients; there is none for a name, and building the reply raises. */
    function Told(): Option<seq<nat>> {
      match this
      case Unset => Some([127, 0, 0, 1])
      case Quad(ip) => Some(if ip == [0, 0, 0, 0] then [127, 0, 0, 1] else ip)
      case Name(_) => None
    }
  }

  datatype Client = Client(channel: nat, dataAddr: Address, seqSend: nat)

  /** The table of clients, in the insertion order of the dictionary, and the next channel to hand out. */
  datatype State = State(clients: seq<Client>, nextChannel: nat)

  datatype Datagram = Datagram(bytes: seq<nat>, to: Address)

  datatype Event = Connect(dataAddr: Address) | Disconnect(channel: nat) | Telegram(reachable: set<Address>)

  datatype Error = ValueError | IndexError

  const MAX_CONNECTIONS := 4

  const CONNECT_REQUEST := 0x0205
  const CONNECT_RESPONSE := 0x0206
  const CONNSTATE_REQUEST := 0x0207
  const CONNSTATE_RESPONSE := 0x0208
  const DISCONNECT_REQUEST := 0x0209
  const DISCONNECT_RESPONSE := 0x020A
  const TUNNELING_REQUEST := 0x0420
  const TUNNELING_ACK := 0x0421

  const NO_ERROR := 0x00
  const CONNECTION_ID := 0x21
  const NO_MORE_CONNECTIONS := 0x24

  const SERVER_ADDRESS := 0xFF00

  // ---- frames -----------------------------------------------------------------------------------------

  function Frame(service: nat, body: seq<nat>): (f: seq<nat>)
    requires service < 0x1_0000 && |body| <= 0xFFF9 && AreBytes(body)
    ensures AreBytes(f) && |f| == 6 + |body|
  {
    var total := 6 + |body|;
    [0x06, 0x10, service / 256, service % 256, total / 256, total % 256] + body
  }

  /** The service and body of a datagram that has the right header. */
  function Parse(data: seq<nat>): Option<(nat, seq<nat>)> {
    if |data| < 6 || data[0] != 6 || data[1] != 0x10 then None
    else Some((256 * data[2] + data[3], data[6..]))
  }

  /** Every frame says its own length, and is read back as the service and body it was built from. */
  lemma FramesReadBack(service: nat, body: seq<nat>)
    requires service < 0x1_0000 && |body| <= 0xFFF9 && AreBytes(body)
    ensures var f := Frame(service, body); 256 * f[4] + f[5] == |f| && Parse(f) == Some((service, body))
  {
    var f := Frame(service, body);
    assert f[6..] == body;
    assert 256 * (service / 256) + service % 256 == service;
  }

  function Hpai(ip: seq<nat>, port: nat): (b: seq<nat>)
    requires |ip| == 4 && AreBytes(ip) && port < 0x1_0000
    ensures AreBytes(b) && |b| == 8
  {
    [0x08, 0x01] + ip + [port / 256, port % 256]
  }

  function Cemi(source: nat, group: nat, raw: seq<nat>, isBoolean: bool): (r: Result<seq<nat>, Error>)
    requires AreBytes(raw)
    ensures r.Ok? ==> AreBytes(r.value) && |r.value| <= 265
    ensures r.Err? <==> if isBoolean then raw == [] else |raw| > 254
  {
    var head := [0x29, 0x00, 0xBC, 0xE0, source / 256 % 256, source % 256, group / 256 % 256, group % 256];
    if isBoolean then
      if raw == [] then Err(IndexError) else Ok(head + [1, 0x00, 0x80 + raw[0] % 64])
    else if 1 + |raw| > 255 then Err(ValueError)
    else Ok(head + [1 + |raw|, 0x00, 0x80] + raw)
  }

  // ---- the table of clients --------------------------------------------------------------------------------

  function NextChannel(n: nat): nat {
    var next := n % 255 + 1;
    if next > 1 then next else 1
  }

  predicate Has(clients: seq<Client>, channel: nat) {
    exists i :: 0 <= i < |clients| && clients[i].channel == channel
  }

  /** Assignment into the dictionary: a client under the same channel is replaced where it stands. */
  function Put(clients: seq<Client>, client: Client): seq<Client> {
    if clients == [] then [client]
    else if clients[0].channel == client.channel then [client] + clients[1..]
    else [clients[0]] + Put(clients[1..], client)
  }

  function Removed(clients: seq<Client>, channel: nat): seq<Client> {
    if clients == [] then []
    else if clients[0].channel == channel then clients[1..]
    else [clients[0]] + Removed(clients[1..], channel)
  }

  function Advanced(client: Client, reachable: set<Address>): Client {
    if client.dataAddr in reachable then client.(seqSend := (client.seqSend + 1) % 256) else client
  }

  function AllAdvanced(clients: seq<Client>, reachable: set<Address>): seq<Client> {
    seq(|clients|, i requires 0 <= i < |clients| => Advanced(clients[i], reachable))
  }

  function Step(s: State, e: Event): State {
    match e
    case Connect(a) =>
      if |s.clients| >= MAX_CONNECTIONS then s
      else State(Put(s.clients, Client(s.nextChannel, a, 0)), NextChannel(s.nextChannel))
    case Disconnect(channel) => s.(clients := Removed(s.clients, channel))
    case Telegram(reachable) => s.(clients := AllAdvanced(s.clients, reachable))
  }

  /** Channel numbers fit a byte and are never zero, so every reply can be built. */
  predicate Fits(s: State) {
    && 1 <= s.nextChannel <= 255
    && forall i :: 0 <= i < |s.clients| ==> 1 <= s.clients[i].channel <= 255 && s.clients[i].seqSend < 256
  }

  lemma {:induction false} PutFits(clients: seq<Client>, client: Client, next: nat)
    requires Fits(State(clients, next)) && 1 <= client.channel <= 255 && client.seqSend < 256
    ensures Fits(State(Put(clients, client), next))
  {
    if clients != [] && clients[0].channel != client.channel {
      assert Fits(State(clients[1..], next));
      PutFits(clients[1..], client, next);
    }
  }

  lemma {:induction false} RemovedFits(clients: seq<Client>, channel: nat, next: nat)
    requires Fits(State(clients, next))
    ensures Fits(State(Removed(clients, channel), next))
  {
    if clients != [] && clients[0].channel != channel {
      assert Fits(State(clients[1..], next));
      RemovedFits(clients[1..], channel, next);
    }
  }

  lemma StepFits(s: State, e: Event)
    requires Fits(s)
    ensures Fits(Step(s, e))
  {
    match e
    case Connect(a) => PutFits(s.clients, Client(s.nextChannel, a, 0), NextChannel(s.nextChannel));
    case Disconnect(channel) => RemovedFits(s.clients, channel, s.nextChannel);
    case Telegram(_) =>
  }

  // ---- datagrams --------------------------------------------------------------------------------------------

  /** Where telegrams for the sender of a connect request go: its own data endpoint, made reachable. */
  function DataAddress(body: seq<nat>, from: Address): Address {
    if |body| >= 16 && body[8] == 0x08 && body[9] == 0x01 then
      var ip := body[10..14];
      var port := 256 * body[14] + body[15];
      Address(if ip == [0, 0, 0, 0] || ip == [127, 0, 0, 1] then from.ip else ip, if port != 0 then port else from.port)
    else from
  }

  /** What a datagram asks the table to do, if anything. */
  function EventOf(data: seq<nat>, from: Address): Option<Event> {
    match Parse(data)
    case None => None
    case Some((service, body)) =>
      if service == CONNECT_REQUEST then Some(Connect(DataAddress(body, from)))
      else if service == DISCONNECT_REQUEST && |body| >= 1 then Some(Disconnect(body[0]))
      else None
  }

  function After(s: State, data: seq<nat>, from: Address): State {
    match EventOf(data, from)
    case None => s
    case Some(e) => Step(s, e)
  }

  /** The answer to a connect request: a refusal, an acceptance, or none because the host is a name. */
  function ConnectReply(s: State, host: Host, port: nat): (f: Option<seq<nat>>)
    requires Fits(s) && host.Valid() && port < 0x1_0000
    ensures f.Some? ==> AreBytes(f.value)
  {
    if |s.clients| >= MAX_CONNECTIONS then
      Some(Frame(CONNECT_RESPONSE, [0x00, NO_MORE_CONNECTIONS] + Hpai([0, 0, 0, 0], 0) + [0, 0, 0, 0]))
    else if host.Told().None? then None
    else
      var individual := SERVER_ADDRESS + s.nextChannel;
      Some(Frame(CONNECT_RESPONSE,
                 [s.nextChannel, NO_ERROR] + Hpai(host.Told().value, port)
                 + [0x04, 0x04, individual / 256 % 256, individual % 256]))
  }

  /** The answer to a datagram, if it gets one. */
  function Reply(s: State, data: seq<nat>, host: Host, port: nat): Option<seq<nat>>
    requires Fits(s) && AreBytes(data) && host.Valid() && port < 0x1_0000
  {
    match Parse(data)
    case None => None
    case Some((service, body)) =>
      if service == CONNECT_REQUEST then ConnectReply(s, host, port)
      else if service == CONNSTATE_REQUEST && |body| >= 1 then
        Some(Frame(CONNSTATE_RESPONSE, [body[0], if Has(s.clients, body[0]) then NO_ERROR else CONNECTION_ID]))
      else if service == DISCONNECT_REQUEST && |body| >= 1 then Some(Frame(DISCONNECT_RESPONSE, [body[0], NO_ERROR]))
      else if service == TUNNELING_REQUEST && |body| >= 4 then
        Some(Frame(TUNNELING_ACK, [0x04, body[1], body[2], NO_ERROR]))
      else None
  }

  /** Whether handling a datagram raises: it is a connect request that is accepted, and the host is a name. */
  predicate Raises(s: State, data: seq<nat>, host: Host) {
    && Parse(data).Some? && Parse(data).value.0 == CONNECT_REQUEST
    && |s.clients| < MAX_CONNECTIONS && host.Name?
  }

  /** An accepted client is told its channel and an individual address of 16 bits that ends in it. */
  lemma AssignedAddressFits(s: State, host: Host, port: nat)
    requires Fits(s) && |s.clients| < MAX_CONNECTIONS && host.Valid() && port < 0x1_0000
    ensures var reply := ConnectReply(s, host, port);
            && (reply.None? <==> host.Name?)
            && (reply.Some? ==>
                  && |reply.value| == 20 && reply.value[6] == s.nextChannel && reply.value[7] == NO_ERROR
                  && 256 * reply.value[18] + reply.value[19] == SERVER_ADDRESS + s.nextChannel < 0x1_0000)
  {
    var individual := SERVER_ADDRESS + s.nextChannel;
    assert individual / 256 == 0xFF && individual % 256 == s.nextChannel;
  }

  lemma {:induction false} PutEnters(clients: seq<Client>, client: Client)
    ensures client in Put(clients, client)
  {
    if clients != [] && clients[0].channel != client.channel {
      PutEnters(clients[1..], client);
    }
  }

  /** A server bound by name enters every client it has room for and never answers it. */
  lemma BoundByNameEntersInSilence(s: State, data: seq<nat>, from: Address, host: Host, port: nat)
    requires Fits(s) && AreBytes(data) && host.Name? && port < 0x1_0000
    requires Parse(data).Some? && Parse(data).value.0 == CONNECT_REQUEST
    ensures Reply(s, data, host, port).None? <==> |s.clients| < MAX_CONNECTIONS
    ensures |s.clients| < MAX_CONNECTIONS ==>
              Client(s.nextChannel, DataAddress(data[6..], from), 0) in After(s, data, from).clients
  {
    PutEnters(s.clients, Client(s.nextChannel, DataAddress(data[6..], from), 0));
  }

  // ---- the datagrams themselves ---------------------------------------------------------------------------------

  /** Control endpoint and data endpoint, as a client puts them into a connect request. */
  lemma DataAddressExactly(control: seq<nat>, ip: seq<nat>, port: nat, rest: seq<nat>, from: Address)
    requires |control| == 8 && |ip| == 4 && AreBytes(ip) && port < 0x1_0000
    ensures DataAddress(control + Hpai(ip, port) + rest, from)
            == Address(if ip == [0, 0, 0, 0] || ip == [127, 0, 0, 1] then from.ip else ip,
                       if port == 0 then from.port else port)
  {
    var body := control + Hpai(ip, port) + rest;
    assert body[8..16] == Hpai(ip, port);
    assert body[8] == 0x08 && body[9] == 0x01 && body[14] == port / 256 && body[15] == port % 256;
    assert body[10..14] == ip;
  }

  /** Without a data endpoint of that form, telegrams go to the sender. */
  lemma WithoutDataAddress(body: seq<nat>, from: Address)
    requires |body| < 16 || body[8] != 8 || body[9] != 1
    ensures DataAddress(body, from) == from
  {
  }

  lemma HpaiExactly(ip: seq<nat>, port: nat)
    requires |ip| == 4 && AreBytes(ip) && port < 0x1_0000
    ensures Hpai(ip, port) == [8, 1, ip[0], ip[1], ip[2], ip[3], port / 256, port % 256]
    ensures 256 * (port / 256) + port % 256 == port
  {
  }

  /** A heartbeat is answered by whether the channel is in use, and changes nothing. */
  lemma HeartbeatAnswered(s: State, body: seq<nat>, from: Address, host: Host, port: nat)
    requires Fits(s) && AreBytes(body) && |body| <= 0xFFF9 && host.Valid() && port < 0x1_0000
    ensures var data := Frame(0x0207, body);
            && After(s, data, from) == s
            && Reply(s, data, host, port)
               == if body == [] then None
                  else Some(Frame(0x0208, [body[0], if exists c :: c in s.clients && c.channel == body[0]
                                                    then 0x00 else 0x21]))
  {
    FramesReadBack(0x0207, body);
    if body != [] {
      HasExactly(s.clients, body[0]);
    }
  }

  /** A disconnect is always answered without an error. */
  lemma DisconnectAnswered(s: State, body: seq<nat>, from: Address, host: Host, port: nat)
    requires Fits(s) && AreBytes(body) && |body| <= 0xFFF9 && host.Valid() && port < 0x1_0000
    ensures var data := Frame(0x0209, body);
            && After(s, data, from) == (if body == [] then s else Step(s, Disconnect(body[0])))
            && Reply(s, data, host, port) == if body == [] then None else Some(Frame(0x020A, [body[0], 0x00]))
  {
    FramesReadBack(0x0209, body);
  }

  /** A telegram of a client is acknowledged under its channel and number, an acknowledgement is ignored. */
  lemma TelegramAcknowledged(s: State, body: seq<nat>, from: Address, host: Host, port: nat)
    requires Fits(s) && AreBytes(body) && |body| <= 0xFFF9 && host.Valid() && port < 0x1_0000
    ensures var data := Frame(0x0420, body);
            && After(s, data, from) == s
            && Reply(s, data, host, port)
               == if |body| < 4 then None else Some(Frame(0x0421, [0x04, body[1], body[2], 0x00]))
    ensures var ack := Frame(0x0421, body); After(s, ack, from) == s && Reply(s, ack, host, port).None?
  {
    FramesReadBack(0x0420, body);
    FramesReadBack(0x0421, body);
  }

  /** A connect request is answered as ConnectRepliesExactly says, and enters the client at its data endpoint. */
  lemma ConnectAnswered(s: State, body: seq<nat>, from: Address, host: Host, port: nat)
    requires Fits(s) && AreBytes(body) && |body| <= 0xFFF9 && host.Valid() && port < 0x1_0000
    ensures var data := Frame(0x0205, body);
            && After(s, data, from) == Step(s, Connect(DataAddress(body, from)))
            && Reply(s, data, host, port) == ConnectReply(s, host, port)
  {
    FramesReadBack(0x0205, body);
  }

  lemma HasExactly(clients: seq<Client>, channel: nat)
    ensures Has(clients, channel) <==> exists c :: c in clients && c.channel == channel
  {
    if c :| c in clients && c.channel == channel {
      var i :| 0 <= i < |clients| && clients[i] == c;
    }
  }

  /** A full table refuses with its own code and an empty endpoint; a free channel is granted with the server's own. */
  lemma ConnectRepliesExactly(s: State, host: Host, port: nat)
    requires Fits(s) && host.Valid() && port < 0x1_0000
    ensures |s.clients| >= 4 ==>
              ConnectReply(s, host, port)
              == Some(Frame(0x0206, [0x00, 0x24, 8, 1, 0, 0, 0, 0, 0, 0, 0, 0, 0, 0]))
    ensures |s.clients| < 4 && !host.Name? ==>
              var ip := if host.Unset? || host.ip == [0, 0, 0, 0] then [127, 0, 0, 1] else host.ip;
              ConnectReply(s, host, port)
              == Some(Frame(0x0206, [s.nextChannel, 0x00] + Hpai(ip, port) + [4, 4, 0xFF, s.nextChannel]))
  {
    assert [0x00, NO_MORE_CONNECTIONS] + Hpai([0, 0, 0, 0], 0) + [0, 0, 0, 0]
        == [0x00, 0x24, 8, 1, 0, 0, 0, 0, 0, 0, 0, 0, 0, 0];
    var individual := SERVER_ADDRESS + s.nextChannel;
    assert individual / 256 == 0xFF && individual % 256 == s.nextChannel;
  }

  /** A telegram carries its source and group address, its length and its value in the standard frame. */
  lemma CemiExactly(source: nat, group: nat, raw: seq<nat>, isBoolean: bool)
    requires AreBytes(raw) && source < 0x1_0000 && group < 0x1_0000
    requires if isBoolean then raw != [] else |raw| <= 254
    ensures var r := Cemi(source, group, raw, isBoolean);
            && r.Ok? && |r.value| >= 9
            && r.value[..4] == [0x29, 0x00, 0xBC, 0xE0]
            && 256 * r.value[4] + r.value[5] == source && 256 * r.value[6] + r.value[7] == group
            && r.value[8] + 2 == |r.value| - 8
            && r.value[9..] == if isBoolean then [0x00, 0x80 + raw[0] % 64] else [0x00, 0x80] + raw
  {
    var r := Cemi(source, group, raw, isBoolean);
    var head := [0x29, 0x00, 0xBC, 0xE0, source / 256 % 256, source % 256, group / 256 % 256, group % 256];
    assert source / 256 % 256 == source / 256 && group / 256 % 256 == group / 256;
    if isBoolean {
      assert r.value == head + [1, 0x00, 0x80 + raw[0] % 64];
    } else {
      assert r.value == head + [1 + |raw|, 0x00, 0x80] + raw;
    }
  }

  function TelegramFrame(client: Client, cemi: seq<nat>): (f: seq<nat>)
    requires client.channel < 256 && AreBytes(cemi) && |cemi| <= 265
    ensures AreBytes(f)
  {
    Frame(TUNNELING_REQUEST, [0x04, client.channel, client.seqSend % 256, 0x00] + cemi)
  }

  /** A telegram is a tunnelling request: a connection header with channel and number, then the frame for the bus. */
  lemma TelegramReadsBack(client: Client, cemi: seq<nat>)
    requires client.channel < 256 && AreBytes(cemi) && |cemi| <= 265
    ensures Parse(TelegramFrame(client, cemi)) == Some((0x0420, [4, client.channel, client.seqSend % 256, 0] + cemi))
  {
    FramesReadBack(0x0420, [4, client.channel, client.seqSend % 256, 0] + cemi);
  }

  /** The telegrams that go out, in the order of the table. */
  function Telegrams(clients: seq<Client>, reachable: set<Address>, cemi: seq<nat>): seq<Datagram>
    requires Fits(State(clients, 1)) && AreBytes(cemi) && |cemi| <= 265
  {
    if clients == [] then []
    else
      var last := clients[|clients| - 1];
      Telegrams(clients[..|clients| - 1], reachable, cemi)
      + if last.dataAddr in reachable then [Datagram(TelegramFrame(last, cemi), last.dataAddr)] else []
  }

  lemma OneMoreTelegram(clients: seq<Client>, i: nat, reachable: set<Address>, cemi: seq<nat>)
    requires Fits(State(clients, 1)) && AreBytes(cemi) && |cemi| <= 265 && i < |clients|
    ensures Fits(State(clients[..i], 1)) && Fits(State(clients[..i + 1], 1))
    ensures Telegrams(clients[..i + 1], reachable, cemi)
            == Telegrams(clients[..i], reachable, cemi)
               + if clients[i].dataAddr in reachable
                 then [Datagram(TelegramFrame(clients[i], cemi), clients[i].dataAddr)] else []
  {
    assert clients[..i + 1][..i] == clients[..i];
  }

  // ---- the server --------------------------------------------------------------------------------------------

  class KnxTunnelingServer {
    const host: Host
    const port: nat
    var open: bool
    var clients: seq<Client>
    var nextChannel: nat
    var outbox: seq<Datagram>

    function Table(): State
      reads this
    {
      State(clients, nextChannel)
    }

    ghost predicate Valid()
      reads this
    {
      Fits(Table()) && host.Valid() && port < 0x1_0000
    }

    constructor (host: Host, port: nat)
      requires host.Valid() && port < 0x1_0000
      ensures Valid() && Table() == State([], 1) && outbox == [] && !open
    {
      this.host, this.port := host, port;
      open, clients, nextChannel, outbox := false, [], 1, [];
    }

    method SendTo(bytes: seq<nat>, to: Address)
      modifies this`outbox
      ensures outbox == if open then old(outbox) + [Datagram(bytes, to)] else old(outbox)
    {
      if open {
        outbox := outbox + [Datagram(bytes, to)];
      }
    }

    /** A client is entered before its answer is built; if that raises it stays. */
    method HandleConnect(body: seq<nat>, from: Address) returns (raised: bool)
      requires Valid()
      modifies this`clients, this`nextChannel, this`outbox
      ensures Valid() && Table() == Step(old(Table()), Connect(DataAddress(body, from)))
      ensures raised == ConnectReply(old(Table()), host, port).None?
      ensures outbox == if open && !raised
                        then old(outbox) + [Datagram(ConnectReply(old(Table()), host, port).value, from)]
                        else old(outbox)
    {
      StepFits(Table(), Connect(DataAddress(body, from)));
      if |clients| >= MAX_CONNECTIONS {
        SendTo(Frame(CONNECT_RESPONSE, [0x00, NO_MORE_CONNECTIONS] + Hpai([0, 0, 0, 0], 0) + [0, 0, 0, 0]), from);
        return false;
      }
      var dataAddr := DataAddress(body, from);
      var channel := nextChannel;
      nextChannel := NextChannel(nextChannel);
      clients := Put(clients, Client(channel, dataAddr, 0));
      var individual := SERVER_ADDRESS + channel;
      var credentials := [0x04, 0x04, individual / 256 % 256, individual % 256];
      if host.Told().None? {
        return true;
      }
      SendTo(Frame(CONNECT_RESPONSE, [channel, NO_ERROR] + Hpai(host.Told().value, port) + credentials), from);
      return false;
    }

    method HandleConnstate(body: seq<nat>, from: Address)
      requires AreBytes(body) && |body| >= 1
      modifies this`outbox
      ensures outbox == if open
                        then old(outbox) + [Datagram(Frame(CONNSTATE_RESPONSE,
                            [body[0], if Has(clients, body[0]) then NO_ERROR else CONNECTION_ID]), from)]
                        else old(outbox)
    {
      var status := if Has(clients, body[0]) then NO_ERROR else CONNECTION_ID;
      SendTo(Frame(CONNSTATE_RESPONSE, [body[0], status]), from);
    }

    method HandleDisconnect(body: seq<nat>, from: Address)
      requires Valid() && AreBytes(body) && |body| >= 1
      modifies this`clients, this`outbox
      ensures Valid() && Table() == Step(old(Table()), Disconnect(body[0]))
      ensures outbox == if open then old(outbox) + [Datagram(Frame(DISCONNECT_RESPONSE, [body[0], NO_ERROR]), from)]
          else old(outbox)
    {
      StepFits(Table(), Disconnect(body[0]));
      clients := Removed(clients, body[0]);
      SendTo(Frame(DISCONNECT_RESPONSE, [body[0], NO_ERROR]), from);
    }

    /** Every datagram changes the table as its event says and is answered as Reply says, if the socket is open. */
    method OnDatagram(data: seq<nat>, from: Address) returns (raised: bool)
      requires Valid() && AreBytes(data)
      modifies this`clients, this`nextChannel, this`outbox
      ensures Valid() && Table() == After(old(Table()), data, from)
      ensures raised == Raises(old(Table()), data, host)
      ensures var reply := Reply(old(Table()), data, host, port);
              outbox == if open && reply.Some? then old(outbox) + [Datagram(reply.value, from)] else old(outbox)
    {
      raised := false;
      if |data| < 6 || data[0] != 6 || data[1] != 0x10 {
        return;
      }
      var service := 256 * data[2] + data[3];
      var body := data[6..];
      if service == CONNECT_REQUEST {
        raised := HandleConnect(body, from);
      } else if service == CONNSTATE_REQUEST {
        if |body| >= 1 {
          HandleConnstate(body, from);
        }
      } else if service == DISCONNECT_REQUEST {
        if |body| >= 1 {
          HandleDisconnect(body, from);
        }
      } else if service == TUNNELING_REQUEST {
        if |body| >= 4 {
          SendTo(Frame(TUNNELING_ACK, [0x04, body[1], body[2], NO_ERROR]), from);
        }
      }
    }

    method Broadcast(cemi: seq<nat>, reachable: set<Address>)
      requires Valid() && open && AreBytes(cemi) && |cemi| <= 265
      modifies this`clients, this`outbox
      ensures Valid() && clients == AllAdvanced(old(clients), reachable)
      ensures outbox == old(outbox) + Telegrams(old(clients), reachable, cemi)
    {
      ghost var was := clients;
      StepFits(Table(), Telegram(reachable));
      for i := 0 to |clients|
        invariant |clients| == |was|
        invariant forall k :: 0 <= k < i ==> clients[k] == Advanced(was[k], reachable)
        invariant forall k :: i <= k < |was| ==> clients[k] == was[k]
        invariant outbox == old(outbox) + Telegrams(was[..i], reachable, cemi)
      {
        OneMoreTelegram(was, i, reachable, cemi);
        var client := clients[i];
        if client.dataAddr in reachable {
          outbox := outbox + [Datagram(TelegramFrame(client, cemi), client.dataAddr)];
          clients := clients[i := client.(seqSend := (client.seqSend + 1) % 256)];
        }
      }
      assert was[..|was|] == was;
      assert clients == AllAdvanced(was, reachable);
    }

    /**
      Sends a telegram to every client. One whose address cannot be reached gets nothing
      and keeps its number; the others are counted on.
     */
    method SendTelegram(
      group: nat, raw: seq<nat>, isBoolean: bool, reachable: set<Address>) returns (r: Result<(), Error>)
      requires Valid() && AreBytes(raw)
      modifies this`clients, this`outbox
      ensures Valid()
      ensures var cemi := Cemi(SERVER_ADDRESS, group, raw, isBoolean);
              if old(clients) == [] || !open then r == Ok(()) && Table() == old(Table()) && outbox == old(outbox)
              else if cemi.Err? then r == Err(cemi.error) && Table() == old(Table()) && outbox == old(outbox)
              else
                && r == Ok(()) && Table() == Step(old(Table()), Telegram(reachable))
                && outbox == old(outbox) + Telegrams(old(clients), reachable, cemi.value)
    {
      if clients == [] || !open {
        return Ok(());
      }
      var cemi :- Cemi(SERVER_ADDRESS, group, raw, isBoolean);
      Broadcast(cemi, reachable);
      return Ok(());
    }
  }
}
