/**
 The chat client's protocol logic: how `GUI.query_received_message` reacts to each
 payload, and what `GUI.send` / `GUI.write` put on the wire for a typed line. The
 lemmas at the end connect both ends of a connection through the frame format.
 */
module ChatClient {
  import opened Wrappers
  import opened Framing
  import opened Users
  import opened Outbox
  import opened Commands
  import opened Server

  /** The `/leave` command typed by the user. */
  const DisconnectMessage: string := "/leave"

  function NameInUseText(userName: string): string {
    "The username " + userName + " is already in use! Please close the window then try again with a new one."
  }
  const LeftServerText: string := "You have left the server. Please close the window."
  const ForcedOutText: string := "The server has forced your disconnection. Please close the window."

  /** The client's reaction to one payload: the frame it sends back, the line it displays,
      and whether its receive loop goes on. */
  datatype Reaction = Reaction(reply: Option<string>, display: Option<string>, connected: bool)

  /** `query_received_message`, for a client started with the name `userName`. */
  function React(userName: string, message: string): (a: Reaction)
    ensures a.connected <==> message != UserNameUsed && message != Disconnect && message != MakeExit
    ensures a.reply.Some? <==> message == UserNameGet || message == MakeExit
    ensures message == UserNameGet ==> a.reply == Some(Frame(userName)) && a.display == None
    ensures message == MakeExit ==> a.reply == Some(Frame(MakeExit)) && a.display == Some(ForcedOutText)
    ensures message == UserNameUsed ==> a.display == Some(NameInUseText(userName))
    ensures message == Disconnect ==> a.display == Some(LeftServerText)
    ensures message !in {UserNameGet, UserNameUsed, Disconnect, MakeExit} ==> a.display == Some(message)
  {
    if message == UserNameGet then Reaction(Some(Frame(userName)), None, true)
    else if message == UserNameUsed then Reaction(None, Some(NameInUseText(userName)), false)
    else if message == Disconnect then Reaction(None, Some(LeftServerText), false)
    else if message == MakeExit then Reaction(Some(Frame(MakeExit)), Some(ForcedOutText), false)
    else Reaction(None, Some(message), true)
  }

  /** What typing a line does: the frame sent, if any, and whether the writer then stops
      because the line was `/leave`. */
  datatype Submission = Submission(frame: Option<string>, leaving: bool)

  /** `GUI.send` followed by `GUI.write`: an empty line is ignored; any other line is sent,
      and `/leave` additionally ends the writer. */
  function Submit(input: string): (s: Submission)
    ensures s.frame.None? <==> input == ""
    ensures s.leaving <==> input == DisconnectMessage
    ensures s.frame.Some? && |input| <= MaxPayload ==> Receive(s.frame.value) == Received(input, "")
  {
    if |input| == 0 then Submission(None, false)
    else
      assert |input| <= MaxPayload ==> Receive(Frame(input)) == Received(input, "") by {
        if |input| <= MaxPayload {
          FrameRoundTrip(input, "");
          assert Frame(input) + "" == Frame(input);
        }
      }
      Submission(Some(Frame(input)), input == DisconnectMessage)
  }

  /** The client answers the name request with a frame the server decodes to the client's
      name, so the handshake admits it exactly when the name is free and not empty. */
  lemma HandshakeOverTheWire(r: Registry, conn: ClientId, userName: string)
    requires conn !in r.clients && |userName| <= MaxPayload
    ensures var a := React(userName, UserNameGet);
      && a.connected
      && Receive(a.reply.value) == Received(userName, "")
      && (Admit(r, conn, Receive(a.reply.value)).outcome == Admitted <==> userName !in r.usernames && userName != "")
  {
    FrameRoundTrip(userName, "");
    assert Frame(userName) + "" == Frame(userName);
  }

  /** A refused client, or one told `LEAVE`, shows a notice, answers nothing and disconnects. */
  lemma RefusalDisconnects(userName: string, rest: string, r: Registry, conn: ClientId)
    requires conn !in r.clients && userName in r.usernames
    ensures Admit(r, conn, Received(userName, rest)).outcome == Refused
    ensures var a := React(userName, UserNameUsed); a.reply == None && !a.connected
    ensures var a := React(userName, Disconnect); a.reply == None && !a.connected
  {
  }

  /** A kick, end to end: the server sends `END` to the one client of that name, the client
      answers with a framed `END` and disconnects, and the server, decoding that answer,
      removes the client and stops its handler. */
  lemma KickOverTheWire(r: Registry, name: string, order: seq<string>)
    requires Wf(r) && name in r.usernames
    ensures exists k :: (
      && k in r.clients && r.clients[k] == name
      && KickUser(r, ["/kick", name]) == [Send(k, MakeExit)]
      && (IsEnumeration(order, r.usernames) ==>
            var h := HandleReceived(r, k, Receive(React(name, MakeExit).reply.value), order);
            h.next == Stop && k !in h.reg.clients && name !in h.reg.usernames))
    ensures var a := React(name, MakeExit);
      !a.connected && Receive(a.reply.value) == Received(MakeExit, "")
  {
    KickReachesOne(r, ["/kick", name]);
    var k :| k in r.clients && KickUser(r, ["/kick", name]) == [Send(k, MakeExit)];
    assert Inbox([Send(k, MakeExit)], k) == [MakeExit];
    FrameRoundTrip(MakeExit, "");
    assert Frame(MakeExit) + "" == Frame(MakeExit);
    if IsEnumeration(order, r.usernames) {
      EndRemoves(r, k, Received(MakeExit, ""), order);
    }
  }

  /** `/leave`, end to end: the typed line reaches the server intact, the server removes the
      client, which receives the farewell and then `LEAVE`, and on `LEAVE` the client
      disconnects without answering. */
  lemma LeaveOverTheWire(r: Registry, id: ClientId, order: seq<string>)
    requires Wf(r) && id in r.clients && IsEnumeration(order, r.usernames)
    ensures var sub := Submit(DisconnectMessage);
      && sub.leaving
      && Receive(sub.frame.value) == Received(DisconnectMessage, "")
      && var h := HandleReceived(r, id, Receive(sub.frame.value), order);
         && h.next == Stop
         && id !in h.reg.clients
         && Inbox(h.out, id) == [GoodbyeText(r.clients[id]), Disconnect]
         && !React(r.clients[id], Disconnect).connected
  {
    LeaveLine(r, id, order);
    LeaveRemoves(r, id);
  }

  /** The typed `/leave` line is the one-word `/leave` command. */
  lemma LeaveLine(r: Registry, id: ClientId, order: seq<string>)
    requires Wf(r) && id in r.clients && IsEnumeration(order, r.usernames)
    ensures var s := Leave(r, id);
      HandleReceived(r, id, Received(DisconnectMessage, ""), order) == HandlerStep(s.reg, s.out, Stop)
  {
    Text.SplitWord(DisconnectMessage, ' ');
    assert Dispatch(r, id, ["/leave"], order) == Leave(r, id);
    LeaveRemoves(r, id);
  }

  /** A typed line of 10000 letters, sent by the standard client, desynchronises the
      server's reader: the server takes a 1000-byte message (`0` and 999 letters), which the
      original handler broadcasts as a plain line, then reads four letters as a header, and
      the handler dies on the `ValueError` with the client and its name still registered. */
  lemma LongLineStrandsClient(r: Registry, id: ClientId, order: seq<string>)
    requires Wf(r) && id in r.clients && IsEnumeration(order, r.usernames)
    ensures var line := seq(10000, _ => 'a');
      var first := Receive(Submit(line).frame.value);
      && first.Received? && |first.payload| == 1000
      && var h1 := HandleReceivedAsWritten(r, id, first, order);
         && h1.next == Continue && h1.reg == r
         && Receive(first.rest) == FramingError
         && var h2 := HandleReceivedAsWritten(h1.reg, id, Receive(first.rest), order);
            h2.next == Crash && id in h2.reg.clients && r.clients[id] in h2.reg.usernames
  {
    var line := seq(10000, _ => 'a');
    assert line[999..1003] == "aaaa";
    LongPayloadSteps(r, id, line, order);
    assert Submit(line).frame.value == Frame(line);
  }

  /** The two handler steps on the frame of any 10000-byte payload with letters at offsets
      999 to 1002. */
  lemma LongPayloadSteps(r: Registry, id: ClientId, p: string, order: seq<string>)
    requires Wf(r) && id in r.clients && IsEnumeration(order, r.usernames)
    requires |p| == 10000 && p[999..1003] == "aaaa"
    ensures var first := Receive(Frame(p));
      && first.Received? && |first.payload| == 1000
      && var h1 := HandleReceivedAsWritten(r, id, first, order);
         && h1.next == Continue && h1.reg == r
         && Receive(first.rest) == FramingError
         && var h2 := HandleReceivedAsWritten(h1.reg, id, Receive(first.rest), order);
            h2.next == Crash && id in h2.reg.clients && r.clients[id] in h2.reg.usernames
  {
    LongFrameDesynchronises(p);
    var first := Receive(Frame(p));
    assert first.payload[0] == '0' && |first.payload| == 1000;
    PlainLineContinuesAsWritten(r, id, first.payload, first.rest, order);
    MalformedFrameStrandsClient(r, id, order);
  }
}
