/**
 What a step of the server sends, in order: each message is one text delivered to
 a set of connections (one `send_server_message` to a single socket, or one
 `broadcast` to every registered client).
 */
module Outbox {
  import opened Users

  datatype Message = Message(to: set<ClientId>, text: string)

  /** `send_server_message(text, socket)` for one connection. */
  function Send(id: ClientId, text: string): Message {
    Message({id}, text)
  }

  /** `broadcast(text)`: one copy to every client registered in `r`. */
  function Broadcast(r: Registry, text: string): Message {
    Message(r.clients.Keys, text)
  }

  /** The texts `c` receives from an outbox, in sending order. */
  function Inbox(out: seq<Message>, c: ClientId): (texts: seq<string>)
    ensures |texts| <= |out|
    ensures forall t :: t in texts ==> exists m :: m in out && c in m.to && m.text == t
  {
    if |out| == 0 then []
    else (if c in out[0].to then [out[0].text] else []) + Inbox(out[1..], c)
  }

  /** Inboxes of consecutive outboxes concatenate. */
  lemma {:induction false} InboxAppend(a: seq<Message>, b: seq<Message>, c: ClientId)
    ensures Inbox(a + b, c) == Inbox(a, c) + Inbox(b, c)
    decreases |a|
  {
    if |a| > 0 {
      assert (a + b)[0] == a[0];
      assert (a + b)[1..] == a[1..] + b;
      InboxAppend(a[1..], b, c);
      var head := if c in a[0].to then [a[0].text] else [];
      assert Inbox(a + b, c) == head + Inbox(a[1..] + b, c);
      assert Inbox(a, c) == head + Inbox(a[1..], c);
    } else {
      assert a + b == b;
    }
  }

  /** A broadcast reaches every registered client once and no one else. */
  lemma BroadcastReachesAll(r: Registry, text: string)
    ensures forall c :: Inbox([Broadcast(r, text)], c) == (if c in r.clients then [text] else [])
  {
  }
}
