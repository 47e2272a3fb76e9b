/**
 The server's per-connection logic: the name handshake in `collect_clients`, one
 iteration of `client_handler`, a whole run of such events, `kick_user` and the
 classification of the operator's input lines in `server_write`.
 */
module Server {
  import opened Wrappers
  import opened Text
  import opened Framing
  import opened Users
  import opened Outbox
  import opened Commands

  const WelcomeText: string :=
    "You have successfully connected to the server, welcome!\n" + "Type /help for a list of commands.\n"
  function JoinedText(name: string): string { name + " has joined!" }
  function ServerSpeaksText(message: string): string { "[THE SERVER SPEAKS] " + message }

  /* ----------------------------- handshake -------------------------------- */

  datatype Admission =
    | Admitted      // registered; a handler loop starts
    | Refused       // the name is in use: `USERNAME_IN_USE`, socket closed
    | Dropped       // no name arrived (end of stream or an empty name): nothing happens
    | ServerFails   // the name's frame raised `ValueError`, which ends `collect_clients`

  datatype Handshake = Handshake(reg: Registry, out: seq<Message>, outcome: Admission)

  /** The handshake branch of `collect_clients` for a newly accepted connection `conn`:
      ask for a name, then refuse, register or ignore what `receive_message` returned. A
      malformed name frame raises `ValueError` out of `collect_clients`. */
  function Admit(r: Registry, conn: ClientId, reply: Receipt): (h: Handshake)
    requires conn !in r.clients
    ensures h.outcome == ServerFails <==> reply == FramingError
    ensures h.outcome == Refused <==> reply.Received? && reply.payload in r.usernames
    ensures h.outcome == Admitted <==> reply.Received? && reply.payload !in r.usernames && reply.payload != ""
    ensures h.outcome != Admitted ==> h.reg == r
    ensures h.outcome == Admitted ==>
      && h.reg.clients.Keys == r.clients.Keys + {conn}
      && h.reg.clients[conn] == reply.payload
      && forall c :: c in r.clients ==> h.reg.clients[c] == r.clients[c]
    ensures Wf(r) ==> Wf(h.reg)
  {
    var ask := [Send(conn, UserNameGet)];
    match reply
    case FramingError => Handshake(r, ask, ServerFails)
    case EndOfStream => Handshake(r, ask, Dropped)
    case Received(name, _) =>
      if name in r.usernames then Handshake(r, ask + [Send(conn, UserNameUsed)], Refused)
      else if name != "" then
        var r' := Register(r, conn, name);
        Handshake(r', ask + [Send(conn, WelcomeText), Broadcast(r', JoinedText(name))], Admitted)
      else Handshake(r, ask, Dropped)
  }

  /** What each party receives during a handshake: a refused newcomer gets the name request
      and the conflict token and nobody else hears of it; an admitted one gets the request,
      the welcome and its own join notice, which every other client receives too. */
  lemma AdmitMessages(r: Registry, conn: ClientId, reply: Receipt)
    requires conn !in r.clients
    ensures var h := Admit(r, conn, reply);
      && (h.outcome == Refused ==>
            Inbox(h.out, conn) == [UserNameGet, UserNameUsed]
            && forall c :: c != conn ==> Inbox(h.out, c) == [])
      && (h.outcome == Admitted ==>
            Inbox(h.out, conn) == [UserNameGet, WelcomeText, JoinedText(reply.payload)]
            && forall c :: c != conn ==>
                 Inbox(h.out, c) == (if c in r.clients then [JoinedText(reply.payload)] else []))
      && (h.outcome == Dropped || h.outcome == ServerFails ==>
            Inbox(h.out, conn) == [UserNameGet] && forall c :: c != conn ==> Inbox(h.out, c) == [])
  {
    var h := Admit(r, conn, reply);
    if h.outcome == Admitted {
      var r' := h.reg;
      var name := reply.payload;
      forall c ensures Inbox(h.out, c) ==
        (if c == conn then [UserNameGet, WelcomeText] else []) + Inbox([Broadcast(r', JoinedText(name))], c)
      {
        InboxAppend([Send(conn, UserNameGet)], [Send(conn, WelcomeText)], c);
        InboxAppend([Send(conn, UserNameGet)] + [Send(conn, WelcomeText)], [Broadcast(r', JoinedText(name))], c);
        assert h.out == [Send(conn, UserNameGet)] + [Send(conn, WelcomeText)] + [Broadcast(r', JoinedText(name))];
      }
    } else if h.outcome == Refused {
      forall c ensures Inbox(h.out, c) == (if c == conn then [UserNameGet, UserNameUsed] else []) {
        InboxAppend([Send(conn, UserNameGet)], [Send(conn, UserNameUsed)], c);
      }
    }
  }

  /* ----------------------------- handler loop ----------------------------- */

  /** Whether the handler loop reads another message. `Crash` is an exception that escapes
      `client_handler` and ends its thread without any clean-up. */
  datatype Next = Continue | Stop | Crash

  datatype HandlerStep = HandlerStep(reg: Registry, out: seq<Message>, next: Next)

  /** One iteration of `client_handler` as written, on what `receive_message` returned.
      `message[0]` is evaluated before any other test, so an end of stream (`None[0]`, a
      `TypeError`) or an empty payload (`''[0]`, an `IndexError`) escapes the loop's
      `except` clause, and so does the `ValueError` of a malformed frame. */
  function HandleReceivedAsWritten(r: Registry, id: ClientId, received: Receipt, order: seq<string>)
    : (h: HandlerStep)
    requires id in r.clients && IsEnumeration(order, r.usernames)
    ensures h.next == Crash ==> h.reg == r && h.out == []
    ensures Wf(r) ==> (h.next == Crash <==> !received.Received? || received.payload == "")
    ensures Wf(r) ==> Wf(h.reg)
  {
    match received
    case EndOfStream => HandlerStep(r, [], Crash)
    case FramingError => HandlerStep(r, [], Crash)
    case Received(message, _) =>
      if message == "" then HandlerStep(r, [], Crash)
      else if message[0] == '/' then
        var s := QueryMessage(r, id, message, order);
        DispatchKeepsRegistry(r, id, Split(message, ' '), order);
        HandlerStep(s.reg, s.out, if id in s.reg.clients then Continue else Stop)
      else if message == MakeExit then
        (match Remove(r, id)
         case Some(r') => HandlerStep(r', [Broadcast(r', LeftText(r.clients[id]))], Stop)
         case None => HandlerStep(r, [], Crash))   // `KeyError` is not the `RuntimeError` caught there
      else
        var s := SendAll(r, id, message);
        HandlerStep(s.reg, s.out, Continue)
  }

  /** An empty payload kills the handler thread and leaves its client registered: the
      `elif message:` guard that was meant to skip it is never reached. */
  lemma EmptyPayloadStrandsClient(r: Registry, id: ClientId, rest: string, order: seq<string>)
    requires id in r.clients && IsEnumeration(order, r.usernames)
    ensures var h := HandleReceivedAsWritten(r, id, Received("", rest), order);
      h.next == Crash && id in h.reg.clients && h.reg == r
  {
  }

  /** A peer that closes its connection without sending `END` kills the handler thread and
      stays registered under its name, which nobody can then take. */
  lemma EndOfStreamStrandsClient(r: Registry, id: ClientId, order: seq<string>)
    requires Wf(r) && id in r.clients && IsEnumeration(order, r.usernames)
    ensures var h := HandleReceivedAsWritten(r, id, EndOfStream, order);
      h.next == Crash && id in h.reg.clients && r.clients[id] in h.reg.usernames
  {
    assert r.clients[id] in r.clients.Values;
    assert HandleReceivedAsWritten(r, id, EndOfStream, order).reg == r;
  }

  /** A malformed frame kills the handler thread the same way: the client and its name stay
      registered. */
  lemma MalformedFrameStrandsClient(r: Registry, id: ClientId, order: seq<string>)
    requires Wf(r) && id in r.clients && IsEnumeration(order, r.usernames)
    ensures var h := HandleReceivedAsWritten(r, id, FramingError, order);
      h.next == Crash && id in h.reg.clients && r.clients[id] in h.reg.usernames
  {
    assert r.clients[id] in r.clients.Values;
    assert HandleReceivedAsWritten(r, id, FramingError, order).reg == r;
  }

  /** In the original loop a plain line is broadcast and changes nothing: the loop goes on. */
  lemma PlainLineContinuesAsWritten(r: Registry, id: ClientId, message: string, rest: string, order: seq<string>)
    requires id in r.clients && IsEnumeration(order, r.usernames)
    requires message != "" && message[0] != '/' && message != MakeExit
    ensures var h := HandleReceivedAsWritten(r, id, Received(message, rest), order);
      h.next == Continue && h.reg == r
  {
  }

  /** One iteration of `client_handler` as evidently intended: the end of the stream and a
      malformed frame are disconnections, handled like the forced-disconnect path (remove the
      client if it is still registered, stop), and an empty payload is skipped as the
      `elif message:` guard intends. */
  function HandleReceived(r: Registry, id: ClientId, received: Receipt, order: seq<string>)
    : (h: HandlerStep)
    requires id in r.clients && IsEnumeration(order, r.usernames)
    ensures h.next != Crash
    ensures Wf(r) ==> Wf(h.reg)
    ensures Wf(r) ==> (h.next == Stop <==> id !in h.reg.clients)
    ensures Wf(r) && (!received.Received? || received.payload == MakeExit) ==> id !in h.reg.clients
    ensures received.Received? && received.payload == "" ==> h == HandlerStep(r, [], Continue)
  {
    match received
    case Received(message, _) =>
      if message == "" then HandlerStep(r, [], Continue)
      else
        var h := HandleReceivedAsWritten(r, id, received, order);
        DispatchKeepsRegistry(r, id, Split(message, ' '), order);
        if h.next == Crash then HandlerStep(r, [], Stop) else h
    case _ =>
      (match Remove(r, id)
       case Some(r') => HandlerStep(r', [Broadcast(r', LeftText(r.clients[id]))], Stop)
       case None => HandlerStep(r, [], Stop))
  }

  /** On every non-empty payload the corrected handler does what the original does. */
  lemma HandleReceivedAgrees(r: Registry, id: ClientId, message: string, rest: string, order: seq<string>)
    requires Wf(r) && id in r.clients && IsEnumeration(order, r.usernames)
    requires message != ""
    ensures HandleReceived(r, id, Received(message, rest), order)
      == HandleReceivedAsWritten(r, id, Received(message, rest), order)
  {
  }

  /** A plain line goes to every registered client, the sender included, prefixed with the
      sender's name; nothing else changes and the loop goes on. */
  lemma PlainMessageBroadcast(r: Registry, id: ClientId, message: string, rest: string, order: seq<string>)
    requires id in r.clients && IsEnumeration(order, r.usernames)
    requires message != "" && message[0] != '/' && message != MakeExit
    ensures var h := HandleReceived(r, id, Received(message, rest), order);
      && h.reg == r && h.next == Continue
      && forall c :: Inbox(h.out, c) == (if c in r.clients then [ChatText(r.clients[id], message)] else [])
  {
  }

  /** The `/` test comes first: a line starting with `/` is always a command, and after it the
      loop stops exactly when the command removed the client. */
  lemma CommandLine(r: Registry, id: ClientId, message: string, rest: string, order: seq<string>)
    requires Wf(r) && id in r.clients && IsEnumeration(order, r.usernames)
    requires message != "" && message[0] == '/'
    ensures var h := HandleReceived(r, id, Received(message, rest), order);
      var s := Dispatch(r, id, Split(message, ' '), order);
      && h.reg == s.reg && h.out == s.out
      && (h.next == Stop <==> id !in s.reg.clients)
  {
  }

  /** `END` (or, in the corrected loop, the end of the stream or a malformed frame) removes
      the client and stops the loop; the departure notice goes to every remaining client and
      not to the one that left. */
  lemma EndRemoves(r: Registry, id: ClientId, received: Receipt, order: seq<string>)
    requires Wf(r) && id in r.clients && IsEnumeration(order, r.usernames)
    requires !received.Received? || received.payload == MakeExit
    ensures var h := HandleReceived(r, id, received, order);
      && h.next == Stop
      && h.reg.clients.Keys == r.clients.Keys - {id}
      && r.clients[id] !in h.reg.usernames
      && Inbox(h.out, id) == []
      && forall c :: c in h.reg.clients ==> Inbox(h.out, c) == [LeftText(r.clients[id])]
  {
    var h := HandleReceived(r, id, received, order);
    assert h.out == [Broadcast(h.reg, LeftText(r.clients[id]))];
  }

  /* ----------------------------- whole runs ------------------------------- */

  /** Something that happens to the server: a connection is accepted and answers the name
      request, or a registered client's handler receives a message. `order` is the iteration
      order of `usernames` at that moment. */
  datatype Event =
    | Connect(conn: ClientId, reply: Receipt)
    | Line(sender: ClientId, received: Receipt, order: seq<string>)

  /** Whether an event can happen in a registry: a new connection is not registered yet, and
      only a registered client has a running handler loop. */
  predicate Possible(r: Registry, e: Event) {
    match e
    case Connect(conn, _) => conn !in r.clients
    case Line(sender, _, order) => sender in r.clients && IsEnumeration(order, r.usernames)
  }

  function Apply(r: Registry, e: Event): Step
    requires Possible(r, e)
  {
    match e
    case Connect(conn, reply) => var h := Admit(r, conn, reply); Step(h.reg, h.out)
    case Line(sender, received, order) => var h := HandleReceived(r, sender, received, order); Step(h.reg, h.out)
  }

  /** Whether an event ends the server's run: a malformed name frame makes `collect_clients`
      raise, and `start_server` then shuts the server down. */
  predicate Halts(r: Registry, e: Event)
    requires Possible(r, e)
  {
    e.Connect? && Admit(r, e.conn, e.reply).outcome == ServerFails
  }

  /** The registry after a sequence of events, and everything sent on the way. The run ends
      at the first event that cannot happen, and right after one that halts the server. */
  function Run(r: Registry, events: seq<Event>): Step
    decreases |events|
  {
    if |events| == 0 || !Possible(r, events[0]) then Step(r, [])
    else
      var s := Apply(r, events[0]);
      if Halts(r, events[0]) then s
      else
        var t := Run(s.reg, events[1..]);
        Step(t.reg, s.out + t.out)
  }

  /** A malformed name frame ends the run: the newcomer was asked for its name, nothing else
      is sent, no later event has any effect, and the registry is left as it was. */
  lemma BadHandshakeEndsRun(r: Registry, conn: ClientId, later: seq<Event>)
    requires conn !in r.clients
    ensures Run(r, [Connect(conn, FramingError)] + later) == Step(r, [Send(conn, UserNameGet)])
  {
    var events := [Connect(conn, FramingError)] + later;
    assert events[0] == Connect(conn, FramingError);
  }

  /** After any sequence of handshakes and messages, `usernames` is still exactly the set of
      the registered clients' names, with no name shared. */
  lemma {:induction false} RunKeepsInvariant(r: Registry, events: seq<Event>)
    requires Wf(r)
    ensures Wf(Run(r, events).reg)
    decreases |events|
  {
    if |events| > 0 && Possible(r, events[0]) {
      var s := Apply(r, events[0]);
      assert Wf(s.reg);
      if !Halts(r, events[0]) {
        RunKeepsInvariant(s.reg, events[1..]);
      }
    }
  }

  /** From server start, the invariant holds after every prefix of every run. */
  lemma InvariantFromStart(events: seq<Event>, k: nat)
    requires k <= |events|
    ensures Wf(Run(Empty, events[..k]).reg)
  {
    EmptyWf();
    RunKeepsInvariant(Empty, events[..k]);
  }

  /* ----------------------------- operator --------------------------------- */

  /** `kick_user(words)`: `END` to the client called `words[1]`; a missing argument or an
      unknown name is only logged. */
  function KickUser(r: Registry, words: seq<string>): (out: seq<Message>)
    ensures |words| < 2 ==> out == []
    ensures |words| >= 2 ==>
      forall c :: Inbox(out, c) == (if c in r.clients && r.clients[c] == words[1] then [MakeExit] else [])
  {
    if |words| < 2 then []
    else
      var holders := Holders(r, words[1]);
      if holders == {} then [] else [Message(holders, MakeExit)]
  }

  /** Under the invariant, a kick of a name in use reaches exactly one client, and a kick of
      any other name sends nothing. */
  lemma KickReachesOne(r: Registry, words: seq<string>)
    requires Wf(r) && |words| >= 2
    ensures words[1] !in r.usernames ==> KickUser(r, words) == []
    ensures words[1] in r.usernames ==>
      exists k :: k in r.clients && KickUser(r, words) == [Send(k, MakeExit)]
  {
    LookupByName(r, words[1]);
  }

  /** What the operator's line makes the server do. */
  datatype OperatorAction =
    | Nothing                          // an empty line
    | ShutDown                         // `/end`
    | Kick(out: seq<Message>)          // `/kick NAME`
    | InvalidCommand                   // any other `/` line: only logged
    | Announce(out: seq<Message>)      // anything else, to everyone

  /** One line of `server_write`. */
  function OperatorLine(r: Registry, line: string): (a: OperatorAction)
    ensures a == Nothing <==> line == ""
    ensures line != "" && line[0] != '/' ==>
      a.Announce? && forall c :: Inbox(a.out, c) == (if c in r.clients then [ServerSpeaksText(line)] else [])
    ensures line != "" && line[0] == '/' ==> (a.ShutDown? <==> Split(line, ' ')[0] == "/end")
    ensures line != "" && line[0] == '/' && Split(line, ' ')[0] == "/kick" ==>
      a == Kick(KickUser(r, Split(line, ' ')))
    ensures line != "" && line[0] == '/' && Split(line, ' ')[0] !in {"/end", "/kick"} ==>
      a == InvalidCommand
  {
    if line == "" then Nothing
    else if line[0] == '/' then
      var words := Split(line, ' ');
      if words[0] == "/end" then ShutDown
      else if words[0] == "/kick" then Kick(KickUser(r, words))
      else InvalidCommand
    else Announce([Broadcast(r, ServerSpeaksText(line))])
  }
}
