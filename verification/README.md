# Chat room server and client: a Dafny model

This project models the sequential core of a small TCP chat room, written in Python as
`server.py` and `client.py`. The model has four parts:

- **Framing.** Every message on the wire is a header followed by a payload. The header is
  the payload's byte count in decimal, left-justified and space-padded to `HEADER_LENGTH = 4`.
  The reader strips the header, parses it with `int` and then reads that many bytes.
- **The user registry.** These are the server's global `clients` and `usernames` sets. The
  model keeps them as an immutable `Registry`: a map from connection id to username, plus a
  name set. Transitions cover the handshake, renaming and `remove_client`. The invariant `Wf`
  says two things: `usernames` is exactly the set of the clients' names, and no two clients
  share a name.
- **The command dispatcher.** This is `Client.query_message` with its handlers (`/rename`,
  `/users`, `/whisper`, `/help`, `/leave`), plus one iteration of `client_handler`. Each step
  maps (registry, sender, line) to a new registry and an outbox. The outbox is a sequence of
  messages, each one text for a set of connections. `Outbox.Inbox` gives what one connection
  receives.
- **The client.** `GUI.query_received_message` reacts to the control tokens `GET_USERNAME`,
  `USERNAME_IN_USE`, `LEAVE` and `END`. `GUI.send`/`GUI.write` frame what the user types.
  Some lemmas connect both ends through the frame format: the handshake, `/leave` and a kick.

Modules: `Wrappers` (`Option`), `Text` (Python's `str(n)`, `int(s)`, `strip`, `split(sep)`
and `sep.join`), `Framing`, `Users`, `Outbox`, `Commands`, `Server` and `ChatClient`.

Characters stand for bytes, and the model is restricted to ASCII, so a payload's byte
length equals its string length. Sockets, threads and `recv` are replaced by values:

- A stream is the string of bytes not yet read.
- What `receive_message` returns is a `Framing.Receipt`: end of stream (`None`), a payload
  with the rest of the stream, or a framing error (the `ValueError` of `int()` on a bad
  header, or of `recv` on a negative length).
- Python's set iteration order is an explicit `order` argument. It must enumerate
  `usernames`, each name exactly once.

In these places the model follows the source as written:

- A line is split on single spaces (`split(' ')`), so two spaces make an empty word.
- `change_username` tests, in order: the same name, a taken name, then an empty name.
- A frame longer than 9999 bytes is not rejected. Its header is written in full and the
  reader misparses it (`Framing.FrameOverflow`).
- Removing an already-removed client raises `KeyError`, not the `RuntimeError` the handler
  catches.
- A malformed frame during the name handshake raises `ValueError` out of `collect_clients`.
  `start_server` catches it and shuts the whole server down, so a run ends there
  (`Server.BadHandshakeEndsRun`).

## Model

| member | source | states |
|---|---|---|
| Text.Decimal | server.py:201-202 | `str(n)` is a non-empty string of decimal digits whose value is `n`. |
| Text.DecimalLength | server.py:201-202 | a length fits in at most `k` digits exactly when it is below `10^k`; with `k = 4` this is the 9999-byte limit |
| Text.PythonInt | server.py:216 | `int()` of a blank header fails; a negative result needs a leading `-` |
| Text.DecimalParses | server.py:216 | `int(str(n)) == n` |
| Text.StripPadded | server.py:216 | `strip()` removes exactly the padding spaces after the digits |
| Text.Split | server.py:145 | `split(' ')` always yields at least one word, and no word contains the separator |
| Text.JoinSplit | server.py:161 | joining the words of a split with the separator restores the line |
| Text.SplitJoin | server.py:145 | splitting a join of separator-free words gives the words back |
| Framing.Header | server.py:199-203 | the header is exactly 4 characters iff the length is at most 9999: the decimal digits, then spaces |
| Framing.Frame | server.py:199-203 | a frame of at most 9999 bytes is the 4-byte header followed by the payload; a longer header happens only for a longer payload (the client's `encode_and_send` frames the same way) |
| Framing.Receive | server.py:213-215 | an empty header read is end of stream (`None`) and nothing else is |
| Framing.HeaderRead | server.py:214 | the header read takes at most 4 bytes, and none only at the end of the stream |
| Framing.Deliver | server.py:216-217 | the reader fails with `ValueError` exactly when `int()` rejects the header or the length is negative |
| Framing.ReceiveConsumes | server.py:213-218 | a received payload follows a header of 1 to 4 bytes that `int()` parses to a length `n`; the payload is the next `n` bytes, or all that is left if fewer remain, and the unread rest is everything after it |
| Framing.DeliverConsumes | server.py:216-218 | the payload read takes the announced number of bytes, or what is left of a shorter stream, and leaves the rest |
| Framing.DigitHeaderBound | server.py:214-216 | a header of four digits announces at most 9999 bytes |
| Framing.FrameRoundTrip | server.py:199-218 | decoding an encoded frame returns the payload and leaves the rest of the stream, for every payload of at most 9999 bytes |
| Framing.FrameOverflow | server.py:199-203 | a payload over 9999 bytes gets a longer header and never decodes to itself |
| Framing.LongFrameDesynchronises | server.py:199-218 | a 10000-byte payload with letters at offsets 999-1002 is read as a 1000-byte payload, after which the next header is four letters and reading fails |
| Users.EmptyWf | server.py:37-38 | the empty registry satisfies the invariant |
| Users.Holders | server.py:115 | the lookup `[c for c in clients if c.username == name]` finds exactly the clients with that name |
| Users.LookupByName | server.py:275 | under the invariant, a name lookup finds one client if the name is in use, and none otherwise |
| Users.Register | server.py:322-324 | registration adds the new client under its name and changes no other client; a fresh name keeps the invariant |
| Users.Remove | server.py:222-224 | removal succeeds iff the client and its name are present; it drops only that client, frees its name and keeps the invariant |
| Users.Rename | server.py:74-90 | the tests run in order (own name, taken, empty); only an accepted rename changes the registry, replacing the old name by the new one and keeping the invariant |
| Commands.ParamError | server.py:65-68 | the usage reply exists exactly for keys of the command table; any other key is a failed lookup |
| Outbox.BroadcastReachesAll | server.py:207-209 | a broadcast reaches every registered client once and no one else |
| Commands.SendAll | server.py:70-72 | every registered client, sender included, receives `"{name}> {message}"`, and the registry is unchanged |
| Commands.ChangeUsername | server.py:74-90 | a rejection sends one notice to the requester alone and changes nothing; success is `Users.Rename`'s registry: the same clients, only the requester renamed, the old name freed and the new one taken, with the rename notice to every client; the invariant is kept |
| Commands.EnumerationFacts | server.py:98-99 | an iteration order of the name set lists every name exactly once |
| Commands.ListUsers | server.py:92-100 | the reply opens with the singular heading for one user and with the count heading otherwise |
| Commands.ListUsersLines | server.py:92-100 | with one user the reply is the singular heading and that name; otherwise it is the count heading, then each name on its own line exactly once |
| Commands.Help | server.py:120-134 | an empty argument gives the command list, a known command its `Format:` entry, and anything else the not-valid error |
| Commands.HelpListNamesEveryCommand | server.py:132-133 | the command list names all five commands in the table |
| Commands.Whisper | server.py:103-118 | rejections come in order (self, unknown name, empty body), each as one reply to the sender; no one but the sender and the target ever receives anything |
| Commands.WhisperDelivers | server.py:114-117 | an accepted whisper reaches the sender as `From you to B> m` and the one client named B as `From A to you> m`, and no one else |
| Commands.Leave | server.py:136-140 | the client receives the farewell and `LEAVE`; then either it is removed and the notice goes to the remaining clients, or removal fails, nothing changes and the client gets the failure notice |
| Commands.LeaveRemoves | server.py:136-140 | `/leave` removes the client and frees its name; the client receives `Goodbye, {name}.` then `LEAVE`; each remaining client receives `{name} has left.` |
| Commands.Dispatch | server.py:144-179 | only `/rename` and `/leave` can change the registry |
| Commands.QueryMessage | server.py:143-187 | a line not starting with `/` goes to every client as `"{name}> {message}"` and changes nothing; only a `/` line can change the registry |
| Commands.AcceptedArityRuns | server.py:147-173 | a known command with an accepted word count runs its handler: `change_username(words[1])`, `list_users()`, `whisper(words[1], ' '.join(words[2:]))`, `help(words[1])` or `help('')`, or `leave()` |
| Commands.WrongArityReply | server.py:147-173 | a known command with the wrong word count sends one reply to the sender and changes nothing; for `/leave` the `leave` key lookup fails and the generic failure notice is sent |
| Commands.UnknownCommandReply | server.py:174-177 | a word not in the command table gets `"{w} is not a valid command."` and changes nothing |
| Commands.DispatchKeepsRegistry | server.py:143-179 | only `/rename` with 2 words and `/leave` with 1 word can change the registry; every command keeps the invariant |
| Commands.WhisperLine | server.py:157-161 | `/whisper B m` whispers all of `m`, spaces included, to `B` |
| Commands.HelpWhisper | server.py:162-164 | `/help /whisper` returns exactly the whisper usage and description |
| Server.Admit | server.py:313-330 | a malformed name frame fails the server; a name in use is refused and registers nothing; a fresh non-empty name is registered; the invariant is kept |
| Server.AdmitMessages | server.py:313-330 | a refused connection receives the name request and `USERNAME_IN_USE`, and no one else hears of it; an admitted one receives the request, the welcome and its join notice; every other client receives the join notice; a dropped or failed handshake sends only the name request |
| Server.BadHandshakeEndsRun | server.py:339-354 | a malformed name frame ends the run, whatever would have followed: before the shutdown, which is not modelled, only the name request was sent and the registry is unchanged |
| Server.HandleReceivedAsWritten | server.py:232-257 | as written: under the invariant, the handler dies exactly on end of stream, a malformed frame or an empty payload; a dying handler changes nothing; the invariant is kept |
| Server.EmptyPayloadStrandsClient | server.py:237-248 | as written: an empty payload kills the handler and leaves the client registered |
| Server.EndOfStreamStrandsClient | server.py:213-237 | as written: end of stream kills the handler and leaves the client and its name registered |
| Server.MalformedFrameStrandsClient | server.py:213-251 | as written: a malformed frame kills the handler and leaves the client and its name registered |
| Server.HandleReceived | server.py:232-256 | corrected loop step: it never crashes and keeps the invariant; it stops exactly when the client is no longer registered; end of stream, a malformed frame and `END` remove the client; an empty payload changes nothing |
| Server.HandleReceivedAgrees | server.py:236-250 | on every non-empty payload, the corrected step equals the original |
| Server.PlainMessageBroadcast | server.py:248-250 | a plain line goes to every registered client, sender included, as `"{name}> {msg}"`; nothing changes and the loop continues |
| Server.CommandLine | server.py:237-240 | a line starting with `/` is dispatched as a command; the loop then stops exactly when the client is no longer registered |
| Server.EndRemoves | server.py:241-247 | `END` (and, in the corrected loop, end of stream or a malformed frame) removes the client, frees its name and stops the loop; only the remaining clients receive the departure notice |
| Server.RunKeepsInvariant | server.py:37-38 | after any sequence of handshakes and received messages, `usernames` is still exactly the set of the clients' names, none shared (for the loop as written, `Server.HandleReceivedAsWritten` keeps the invariant step by step) |
| Server.InvariantFromStart | server.py:37-38 | from server start, the invariant holds after every prefix of every run |
| Server.KickUser | server.py:273-279 | `END` goes only to clients with the named username; a missing argument sends nothing |
| Server.KickReachesOne | server.py:273-279 | under the invariant, kicking a name in use reaches exactly one client; an unknown name sends nothing |
| Server.OperatorLine | server.py:283-300 | an empty operator line does nothing; a non-command line reaches every client as `[THE SERVER SPEAKS] ...`; a `/` line shuts down iff its first word is `/end`, kicks `words[1]` when it is `/kick`, and is otherwise an invalid command |
| ChatClient.React | client.py:105-129 | `GET_USERNAME` is answered with the framed name; `USERNAME_IN_USE` and `LEAVE` show a notice and disconnect without replying; `END` is answered with a framed `END`, shows the forced-disconnect notice and disconnects; anything else is shown verbatim and the client stays connected |
| ChatClient.Submit | client.py:150-177 | empty input sends nothing; other input is sent as a frame, which the server decodes back to the input when it is at most 9999 bytes; only `/leave` ends the writer |
| ChatClient.HandshakeOverTheWire | client.py:107-111 | for a name of at most 9999 bytes, the client's answer to the name request decodes to that name on the server, so it is admitted iff the name is free and non-empty |
| ChatClient.RefusalDisconnects | client.py:112-118 | after a refusal, or on `LEAVE`, the client sends nothing and disconnects |
| ChatClient.KickOverTheWire | client.py:119-126 | a kick reaches the one client with that name; its framed `END` reply decodes on the server, which removes it and stops its handler |
| ChatClient.LongLineStrandsClient | client.py:150-177 | a typed line of 10000 letters is framed and sent; the original handler broadcasts a 1000-byte message and goes on, then fails on the next header and dies with the client still registered |
| ChatClient.LeaveOverTheWire | client.py:155-158 | a typed `/leave` reaches the server intact; the server removes the client, whose inbox is the farewell and then `LEAVE`, and on `LEAVE` the client disconnects |

## Findings

| source | as written | input that shows it | evidently intended | confidence | as-written member | corrected member |
|---|---|---|---|---|---|---|
| server.py:237-248 | `message[0]` is evaluated before the `elif message:` guard, so an empty payload raises `IndexError`, which escapes `except WindowsError` and ends the handler thread while the client stays registered | a frame whose header is `0` followed by three spaces (empty payload) | skip the empty message and keep reading, as the `elif message:` guard shows | medium; not executed | Server.EmptyPayloadStrandsClient | Server.HandleReceived |
| server.py:213-251 | `receive_message` raises `ValueError` when `int()` rejects the header (or `recv` gets a negative length); it escapes `except WindowsError`, ending the handler thread while the client stays registered. Lengths over 9999 are not rejected by the sender, so the standard client triggers it | a typed line of 10000 letters: the reader takes the header `1000`, then reads `aaaa` as the next header | treat a failed read as a disconnection and remove the client, as lines 251-256 do for a reset connection | medium; not executed | ChatClient.LongLineStrandsClient | Server.HandleReceived |
| server.py:213-237 | at end of stream `receive_message` returns `None`; `None[0]` raises `TypeError`, which escapes `except WindowsError`, so the client and its name stay registered with no handler | the peer closes its socket without first sending `END` (for example, the client process is killed) | treat it as a disconnection and remove the client, as lines 251-256 do for a reset connection | medium; not executed | Server.EndOfStreamStrandsClient | Server.HandleReceived |

`Server.HandleReceivedAsWritten` models the loop body as written. `Server.HandleReceived`
is the corrected body that `Server.Run` uses. `Server.HandleReceivedAgrees` shows the two
agree on every non-empty payload.

## Left out

- Sockets, `accept`, `send`, `recv` and threads are left out. `recv(n)` takes `n` bytes when
  the stream holds them and what is left otherwise. A short read while more bytes are still
  in transit is not modelled.
- Races between threads on the shared sets are left out, as is the handshake race between
  two connections asking for the same name. The model is sequential.
- Shutdown: `shut_down` and its busy-wait drain (server.py:260-270) are not modelled. The
  model only classifies the operator's `/end` line (`Server.OperatorLine`), and a run that
  fails in a handshake simply ends (`Server.Run`) without the shutdown's messages.
- Logging to the console and `server.log` is left out; it has no effect on the protocol.
- `sys.argv` parsing, `sys.exit`, and the client's `start_client` and `GUI.receive` loops
  are left out. So are all tkinter construction and display; a displayed line is a value
  in `ChatClient.Reaction`.
- UTF-8 is left out: payloads are ASCII. `Text.IsSpace` and `Text.PythonInt` cover only
  ASCII whitespace and ASCII digits, not Unicode whitespace or digits.
- A send that fails inside a handler (a broken pipe caught by `error_handle`) is left out.
  The only handler exceptions modelled are the failed `commands['leave']` lookup and a
  `KeyError` from `remove_client`.
- Server.Admit: a dropped handshake (end of stream or an empty name) leaves the socket open
  with no handler, and the model only records the outcome `Dropped`. A framing error is the
  outcome `ServerFails`; what `shut_down` then sends is not modelled.
- Commands.Whisper: the message to the target goes to every client holding the target
  name, where the source takes the first. These are the same under the invariant.
- Server.KickUser: like `Commands.Whisper`, it sends `END` to every holder of the name
  rather than the first.
- Users.Rename: `usernames.remove` cannot raise here, because the model uses set
  difference. The source raises only when the invariant is already broken.
- Commands.ListUsersLines: the line structure is stated only for names without a newline,
  since a name containing `\n` would add lines to the listing.
- Framing.FrameRoundTrip: holds only for payloads of at most 9999 bytes. Longer payloads
  are corrupted, as `Framing.FrameOverflow` states.
