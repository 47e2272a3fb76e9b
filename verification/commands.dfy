/**
 The per-message command dispatcher: `Client.query_message` and the handlers it
 calls. Each handler maps the registry, the issuing client and its arguments to
 the new registry and the messages sent, in order.
 */
module Commands {
  import opened Wrappers
  import opened Text
  import opened Framing
  import opened Users
  import opened Outbox

  datatype CommandInfo = CommandInfo(usage: string, description: string)

  /** The server's `commands` table. */
  const CommandTable: map<string, CommandInfo> := map[
    "/rename" := CommandInfo("/rename [New Username]", "Function: Renames your username to [New Username]."),
    "/users" := CommandInfo("/users", "Function: Outputs a list of all users currently online."),
    "/whisper" := CommandInfo("/whisper [Username] [Message...]",
      "Function: Sends a private message to [Username]. Remember, usernames are case sensitive."),
    "/help" := CommandInfo("/help [/command (optional)]",
      "Function: Returns information about a specified command; "
      + "if no command is specified then outputs a list of available commands. "
      + "Commands are case sensitive."),
    "/leave" := CommandInfo("/leave", "Function: Removes you from the server.")
  ]

  /** The number of space-separated words (command word included) each command accepts. */
  predicate ArityOk(command: string, words: nat) {
    match command
    case "/rename" => words == 2
    case "/users" => words == 1
    case "/whisper" => words >= 3
    case "/help" => words == 1 || words == 2
    case "/leave" => words == 1
    case _ => true
  }

  /** A transition of the server: the new registry and what it sent. */
  datatype Step = Step(reg: Registry, out: seq<Message>)

  /* ----------------------------- reply texts ------------------------------ */

  function ChatText(name: string, message: string): string { name + "> " + message }
  function AlreadyYoursText(name: string): string { "Your username is already set as " + name + "!" }
  function NameTakenText(name: string): string { "There already exists a user called " + name + "!" }
  const EmptyNameText: string := "You can't change your username to nothing!"
  function RenameNoticeText(previous: string, name: string): string {
    "The user " + previous + " has changed their username to " + name + "."
  }
  const WhisperSelfText: string := "You can't whisper to yourself!"
  function WhisperUnknownText(name: string): string {
    "Could not locate the user " + name + "! Type /users to see who is online."
  }
  const WhisperEmptyText: string := "You can't whisper nothing! Please include a message."
  function WhisperEchoText(target: string, body: string): string { "From you to " + target + "> " + body }
  function WhisperDeliveryText(sender: string, body: string): string { "From " + sender + " to you> " + body }
  function HelpEntryText(info: CommandInfo): string { "Format: " + info.usage + ".\n" + info.description }
  function HelpUnknownText(command: string): string {
    "/help command failed, " + command + " is not a valid command!"
  }
  const HelpListText: string :=
    "List of commands: " + "/rename" + ", " + "/users" + ", " + "/whisper" + ", " + "/help" + ", " + "/leave"
    + ".\nType /help [/command] for more info about that command."
  function GoodbyeText(name: string): string { "Goodbye, " + name + "." }
  function LeftText(name: string): string { name + " has left." }
  function NotACommandText(word: string): string { word + " is not a valid command." }
  function ParamErrorText(usage: string): string {
    "Invalid parameters! Ensure command is in the form: " + usage + "."
  }
  function CommandFailedText(command: string): string {
    "An error occurred! The " + command + " command has failed for unforeseen reasons."
  }
  const ListOneHeading: string := "There is only 1 user online: "
  function ListManyHeading(count: nat): string {
    "There are " + Decimal(count) + " users currently online: "
  }

  /* ----------------------------- handlers --------------------------------- */

  /** `param_error_handle(key)`: the usage reply, or `None` where the table lookup
      `commands[key]` raises `KeyError`. */
  function ParamError(key: string): (o: Option<string>)
    ensures o.Some? <==> key in CommandTable
  {
    if key in CommandTable then Some(ParamErrorText(CommandTable[key].usage)) else None
  }

  /** A parameter error inside `query_message`'s `try`: a failed lookup is caught and
      reported through `error_handle(words[0])`. */
  function ParamErrorStep(r: Registry, id: ClientId, issued: string, key: string): Step {
    match ParamError(key)
    case Some(text) => Step(r, [Send(id, text)])
    case None => Step(r, [Send(id, CommandFailedText(issued))])
  }

  /** `send_all` and the handler's plain-message path: `"{name}> {message}"` to everyone. */
  function SendAll(r: Registry, id: ClientId, message: string): (s: Step)
    requires id in r.clients
    ensures s.reg == r
    ensures forall c :: Inbox(s.out, c) == (if c in r.clients then [ChatText(r.clients[id], message)] else [])
  {
    Step(r, [Broadcast(r, ChatText(r.clients[id], message))])
  }

  /** `change_username`. */
  function ChangeUsername(r: Registry, id: ClientId, name: string): (s: Step)
    requires id in r.clients
    ensures s.reg != r ==> Rename(r, id, name).Renamed?
    ensures !Rename(r, id, name).Renamed? ==>
      s.reg == r && |s.out| == 1 && s.out[0].to == {id}
    ensures Rename(r, id, name).Renamed? ==>
      && s.reg == Rename(r, id, name).reg
      && s.reg.clients.Keys == r.clients.Keys
      && s.reg.clients[id] == name
      && (forall c :: c in r.clients && c != id ==> s.reg.clients[c] == r.clients[c])
      && (Wf(r) ==> r.clients[id] !in s.reg.usernames && name in s.reg.usernames)
      && forall c :: Inbox(s.out, c) ==
           (if c in r.clients then [RenameNoticeText(r.clients[id], name)] else [])
    ensures Wf(r) ==> Wf(s.reg)
  {
    match Rename(r, id, name)
    case AlreadyYours => Step(r, [Send(id, AlreadyYoursText(name))])
    case NameTaken => Step(r, [Send(id, NameTakenText(name))])
    case EmptyName => Step(r, [Send(id, EmptyNameText)])
    case Renamed(r', previous) => Step(r', [Broadcast(r', RenameNoticeText(previous, name))])
  }

  /** An enumeration of a name set in iteration order: each name exactly once. */
  predicate IsEnumeration(order: seq<string>, names: set<string>) {
    multiset(order) == multiset(names)
  }

  lemma EnumerationFacts(order: seq<string>, names: set<string>)
    requires IsEnumeration(order, names)
    ensures |order| == |names|
    ensures forall n :: n in order <==> n in names
    ensures forall i, j :: 0 <= i < j < |order| ==> order[i] != order[j]
  {
    assert |multiset(order)| == |order|;
    assert |multiset(names)| == |names|;
    forall n ensures n in order <==> n in names {
      assert n in order <==> multiset(order)[n] > 0;
    }
    forall i, j | 0 <= i < j < |order| ensures order[i] != order[j] {
      var n := order[i];
      assert order == order[..i] + [n] + order[i + 1..j] + [order[j]] + order[j + 1..];
      assert multiset(order)[n] <= 1;
    }
  }

  /** `"\n" + u` for every name, in order: the body of the plural listing. */
  function Lines(order: seq<string>): string {
    if |order| == 0 then "" else "\n" + order[0] + Lines(order[1..])
  }

  /** `list_users`; `order` is the iteration order of the `usernames` set. */
  function ListUsers(r: Registry, order: seq<string>): (text: string)
    requires IsEnumeration(order, r.usernames)
    ensures |r.usernames| == 1 ==>
      |ListOneHeading| <= |text| && text[..|ListOneHeading|] == ListOneHeading
    ensures |r.usernames| != 1 ==>
      |ListManyHeading(|r.usernames|)| <= |text| && text[..|ListManyHeading(|r.usernames|)|] == ListManyHeading(|r.usernames|)
  {
    EnumerationFacts(order, r.usernames);
    if |r.usernames| == 1 then ListOneHeading + "\n" + order[0] + "."
    else ListManyHeading(|r.usernames|) + Lines(order)
  }

  /** A heading followed by the listing lines splits back into the heading and the names. */
  lemma {:induction false} SplitLines(head: string, order: seq<string>)
    requires '\n' !in head
    requires forall i :: 0 <= i < |order| ==> '\n' !in order[i]
    ensures Split(head + Lines(order), '\n') == [head] + order
    decreases |order|
  {
    if |order| == 0 {
      SplitWord(head, '\n');
      assert head + Lines(order) == head;
    } else {
      SplitLines(order[0], order[1..]);
      assert head + Lines(order) == head + ['\n'] + (order[0] + Lines(order[1..]));
      SplitHead(head, '\n', order[0] + Lines(order[1..]));
      assert [head] + ([order[0]] + order[1..]) == [head] + order;
    }
  }

  /** The listing's lines: with one user the singular heading and that name; otherwise the
      count heading and then every name in the set, each on its own line exactly once. */
  lemma ListUsersLines(r: Registry, order: seq<string>)
    requires IsEnumeration(order, r.usernames)
    requires forall n :: n in r.usernames ==> '\n' !in n
    ensures |r.usernames| == 1 ==>
      exists n :: r.usernames == {n} && Split(ListUsers(r, order), '\n') == [ListOneHeading, n + "."]
    ensures |r.usernames| != 1 ==>
      var lines := Split(ListUsers(r, order), '\n');
      && lines[0] == ListManyHeading(|r.usernames|)
      && multiset(lines[1..]) == multiset(r.usernames)
  {
    EnumerationFacts(order, r.usernames);
    if |r.usernames| == 1 {
      var n := order[0];
      assert n in r.usernames;
      assert r.usernames == {n} by {
        forall m | m in r.usernames ensures m == n {
          assert m in order;
        }
      }
      assert '\n' !in ListOneHeading;
      assert ListUsers(r, order) == ListOneHeading + ['\n'] + (n + ".");
      SplitHead(ListOneHeading, '\n', n + ".");
      SplitWord(n + ".", '\n');
    } else {
      var head := ListManyHeading(|r.usernames|);
      assert '\n' !in head by {
        var d := Decimal(|r.usernames|);
        assert head == "There are " + d + " users currently online: ";
        assert forall i :: 0 <= i < |d| ==> d[i] != '\n';
      }
      SplitLines(head, order);
      assert Split(ListUsers(r, order), '\n')[1..] == order;
    }
  }

  /** `help(command)`: the command list for `""`, the table entry for a known command. */
  function Help(command: string): (text: string)
    ensures command == "" ==> text == HelpListText
    ensures command in CommandTable ==> text == HelpEntryText(CommandTable[command])
    ensures command != "" && command !in CommandTable ==> text == HelpUnknownText(command)
  {
    if |command| > 0 then
      if command in CommandTable then HelpEntryText(CommandTable[command])
      else HelpUnknownText(command)
    else HelpListText
  }

  predicate Occurs(word: string, text: string) {
    exists i, j :: 0 <= i <= j <= |text| && text[i..j] == word
  }

  /** The command list names every command in the table. */
  lemma HelpListNamesEveryCommand()
    ensures forall command :: command in CommandTable ==> Occurs(command, HelpListText)
  {
    assert HelpListText[18..25] == "/rename";
    assert HelpListText[27..33] == "/users";
    assert HelpListText[35..43] == "/whisper";
    assert HelpListText[45..50] == "/help";
    assert HelpListText[52..58] == "/leave";
    assert CommandTable.Keys == {"/rename", "/users", "/whisper", "/help", "/leave"};
  }

  /** `whisper(target, body)`. The target is found by name. */
  function Whisper(r: Registry, id: ClientId, target: string, body: string): (out: seq<Message>)
    requires id in r.clients
    ensures target == r.clients[id] ==> out == [Send(id, WhisperSelfText)]
    ensures target != r.clients[id] && target !in r.usernames ==> out == [Send(id, WhisperUnknownText(target))]
    ensures target != r.clients[id] && target in r.usernames && body == "" ==> out == [Send(id, WhisperEmptyText)]
    ensures forall c :: c != id && c !in Holders(r, target) ==> Inbox(out, c) == []
  {
    var sender := r.clients[id];
    if target == sender then [Send(id, WhisperSelfText)]
    else if target !in r.usernames then [Send(id, WhisperUnknownText(target))]
    else if |body| == 0 then [Send(id, WhisperEmptyText)]
    else [Send(id, WhisperEchoText(target, body)), Message(Holders(r, target), WhisperDeliveryText(sender, body))]
  }

  /** An accepted whisper: the sender gets the echo, the one client called `target` gets the
      private copy, and nobody else receives anything. */
  lemma WhisperDelivers(r: Registry, id: ClientId, target: string, body: string)
    requires Wf(r) && id in r.clients
    requires target != r.clients[id] && target in r.usernames && body != ""
    ensures exists b ::
      && b in r.clients && b != id && r.clients[b] == target
      && Inbox(Whisper(r, id, target, body), id) == [WhisperEchoText(target, body)]
      && Inbox(Whisper(r, id, target, body), b) == [WhisperDeliveryText(r.clients[id], body)]
      && forall c :: c != id && c != b ==> Inbox(Whisper(r, id, target, body), c) == []
  {
    LookupByName(r, target);
    var b :| b in r.clients && Holders(r, target) == {b};
    assert b != id;
    var out := Whisper(r, id, target, body);
    assert Inbox(out, id) == [WhisperEchoText(target, body)] by {
      assert Inbox(out[1..], id) == [] by { assert out[1..][1..] == []; }
    }
    assert Inbox(out, b) == [WhisperDeliveryText(r.clients[id], body)] by {
      assert Inbox(out[1..], b) == [WhisperDeliveryText(r.clients[id], body)] by { assert out[1..][1..] == []; }
    }
  }

  /** `leave`: farewell and the `LEAVE` token to the client, then `remove_client`, whose
      departure notice goes to the clients still registered. */
  function Leave(r: Registry, id: ClientId): (s: Step)
    requires id in r.clients
    ensures |s.out| == 3 && s.out[0] == Send(id, GoodbyeText(r.clients[id])) && s.out[1] == Send(id, Disconnect)
    ensures Remove(r, id).Some? ==> s.reg == Remove(r, id).value && s.out[2].to == s.reg.clients.Keys
    ensures Remove(r, id).None? ==> s.reg == r && s.out[2] == Send(id, CommandFailedText("/leave"))
  {
    var name := r.clients[id];
    var farewell := [Send(id, GoodbyeText(name)), Send(id, Disconnect)];
    match Remove(r, id)
    case Some(r') => Step(r', farewell + [Broadcast(r', LeftText(name))])
    case None => Step(r, farewell + [Send(id, CommandFailedText("/leave"))])
  }

  /** After `/leave` the client is gone and its name is free; it receives the farewell and the
      `LEAVE` token and nothing else, and every remaining client receives the departure notice. */
  lemma LeaveRemoves(r: Registry, id: ClientId)
    requires Wf(r) && id in r.clients
    ensures var s := Leave(r, id);
      && Wf(s.reg)
      && id !in s.reg.clients
      && r.clients[id] !in s.reg.usernames
      && s.reg.clients.Keys == r.clients.Keys - {id}
      && Inbox(s.out, id) == [GoodbyeText(r.clients[id]), Disconnect]
      && forall c :: c in s.reg.clients ==> Inbox(s.out, c) == [LeftText(r.clients[id])]
  {
    var s := Leave(r, id);
    var name := r.clients[id];
    var r' := Remove(r, id).value;
    var notice := [Broadcast(r', LeftText(name))];
    assert s.out == [Send(id, GoodbyeText(name))] + [Send(id, Disconnect)] + notice;
    forall c ensures Inbox(s.out, c) ==
      (if c == id then [GoodbyeText(name), Disconnect] else []) + Inbox(notice, c)
    {
      InboxAppend([Send(id, GoodbyeText(name))], [Send(id, Disconnect)], c);
      InboxAppend([Send(id, GoodbyeText(name))] + [Send(id, Disconnect)], notice, c);
    }
    assert Inbox(notice, id) == [];
  }

  /** The slash-command half of `query_message`, on the words of the line. */
  function Dispatch(r: Registry, id: ClientId, words: seq<string>, order: seq<string>): (s: Step)
    requires id in r.clients
    requires |words| > 0
    requires IsEnumeration(order, r.usernames)
    ensures s.reg != r ==> words[0] == "/rename" || words[0] == "/leave"
  {
    var command := words[0];
    if command == "/rename" then
      if |words| != 2 then ParamErrorStep(r, id, command, "/rename")
      else ChangeUsername(r, id, words[1])
    else if command == "/users" then
      if |words| > 1 then ParamErrorStep(r, id, command, "/users")
      else Step(r, [Send(id, ListUsers(r, order))])
    else if command == "/whisper" then
      if |words| < 3 then ParamErrorStep(r, id, command, "/whisper")
      else Step(r, Whisper(r, id, words[1], Join(words[2..], ' ')))
    else if command == "/help" then
      if |words| == 2 then Step(r, [Send(id, Help(words[1]))])
      else if |words| == 1 then Step(r, [Send(id, Help(""))])
      else ParamErrorStep(r, id, command, "/help")
    else if command == "/leave" then
      if |words| > 1 then ParamErrorStep(r, id, command, "leave")
      else Leave(r, id)
    else Step(r, [Send(id, NotACommandText(command))])
  }

  /** `query_message`: a line starting with `/` is split on single spaces and dispatched,
      anything else is sent to everyone. `order` is the current iteration order of `usernames`. */
  function QueryMessage(r: Registry, id: ClientId, message: string, order: seq<string>): (s: Step)
    requires id in r.clients
    requires |message| > 0
    requires IsEnumeration(order, r.usernames)
    ensures message[0] != '/' ==> (s.reg == r &&
      forall c :: Inbox(s.out, c) == (if c in r.clients then [ChatText(r.clients[id], message)] else []))
    ensures s.reg != r ==> message[0] == '/'
  {
    if message[0] == '/' then Dispatch(r, id, Split(message, ' '), order)
    else SendAll(r, id, message)
  }

  /** A command with the wrong number of words gets one reply, to the sender only, and
      changes nothing: the usage line, except for `/leave`, whose usage lookup uses the key
      `leave` and fails, so the generic failure notice is sent instead. */
  lemma WrongArityReply(r: Registry, id: ClientId, words: seq<string>, order: seq<string>)
    requires id in r.clients && |words| > 0 && IsEnumeration(order, r.usernames)
    requires words[0] in CommandTable && !ArityOk(words[0], |words|)
    ensures var s := Dispatch(r, id, words, order);
      && s.reg == r
      && s.out == [Send(id,
           if words[0] == "/leave" then CommandFailedText("/leave")
           else ParamErrorText(CommandTable[words[0]].usage))]
  {
    assert CommandTable.Keys == {"/rename", "/users", "/whisper", "/help", "/leave"};
    var command := words[0];
    if command == "/leave" {
      assert "leave" !in CommandTable;
    } else if command == "/rename" {
      assert ParamError("/rename") == Some(ParamErrorText(CommandTable["/rename"].usage));
    } else if command == "/users" {
      assert ParamError("/users") == Some(ParamErrorText(CommandTable["/users"].usage));
    } else if command == "/whisper" {
      assert ParamError("/whisper") == Some(ParamErrorText(CommandTable["/whisper"].usage));
    } else {
      assert ParamError("/help") == Some(ParamErrorText(CommandTable["/help"].usage));
    }
  }

  /** A command with an accepted word count runs its handler on its arguments: the new name,
      the listing, the whisper of the rest of the line, the help entry (the command list
      when no argument is given) or the departure. */
  lemma AcceptedArityRuns(r: Registry, id: ClientId, words: seq<string>, order: seq<string>)
    requires id in r.clients && |words| > 0 && IsEnumeration(order, r.usernames)
    requires words[0] in CommandTable && ArityOk(words[0], |words|)
    ensures var s := Dispatch(r, id, words, order);
      && (words[0] == "/rename" ==> s == ChangeUsername(r, id, words[1]))
      && (words[0] == "/users" ==> s == Step(r, [Send(id, ListUsers(r, order))]))
      && (words[0] == "/whisper" ==> s == Step(r, Whisper(r, id, words[1], Join(words[2..], ' '))))
      && (words[0] == "/help" ==>
            s == Step(r, [Send(id, Help(if |words| == 2 then words[1] else ""))]))
      && (words[0] == "/leave" ==> s == Leave(r, id))
  {
    assert CommandTable.Keys == {"/rename", "/users", "/whisper", "/help", "/leave"};
  }

  /** A command word outside the table gets the not-a-command reply and changes nothing. */
  lemma UnknownCommandReply(r: Registry, id: ClientId, words: seq<string>, order: seq<string>)
    requires id in r.clients && |words| > 0 && IsEnumeration(order, r.usernames)
    requires words[0] !in CommandTable
    ensures Dispatch(r, id, words, order) == Step(r, [Send(id, NotACommandText(words[0]))])
  {
    assert CommandTable.Keys == {"/rename", "/users", "/whisper", "/help", "/leave"};
  }

  /** Only an accepted `/rename` or `/leave` changes the registry, and no command breaks
      the registry invariant. */
  lemma DispatchKeepsRegistry(r: Registry, id: ClientId, words: seq<string>, order: seq<string>)
    requires id in r.clients && |words| > 0 && IsEnumeration(order, r.usernames)
    ensures var s := Dispatch(r, id, words, order);
      && (s.reg != r ==>
            (words[0] == "/rename" && |words| == 2) || (words[0] == "/leave" && |words| == 1))
      && (Wf(r) ==> Wf(s.reg))
  {
    if Wf(r) && words[0] == "/leave" && |words| == 1 {
      LeaveRemoves(r, id);
    }
  }

  /** `/whisper B m...` whispers the rest of the line after the target, spaces and all. */
  lemma WhisperLine(r: Registry, id: ClientId, target: string, body: string, order: seq<string>)
    requires id in r.clients && IsEnumeration(order, r.usernames)
    requires ' ' !in target
    ensures QueryMessage(r, id, "/whisper " + target + " " + body, order) ==
      Step(r, Whisper(r, id, target, body))
  {
    var message := "/whisper " + target + " " + body;
    assert message == "/whisper" + [' '] + (target + [' '] + body);
    SplitHead("/whisper", ' ', target + [' '] + body);
    SplitHead(target, ' ', body);
    var words := Split(message, ' ');
    assert words == ["/whisper", target] + Split(body, ' ');
    assert words[2..] == Split(body, ' ');
    JoinSplit(body, ' ');
    assert Dispatch(r, id, words, order) == Step(r, Whisper(r, id, target, body));
  }

  /** `/help /whisper` returns exactly the whisper usage and description. */
  lemma HelpWhisper(r: Registry, id: ClientId, order: seq<string>)
    requires id in r.clients && IsEnumeration(order, r.usernames)
    ensures QueryMessage(r, id, "/help /whisper", order) ==
      Step(r, [Send(id, "Format: " + "/whisper [Username] [Message...]" + ".\n"
        + "Function: Sends a private message to [Username]. Remember, usernames are case sensitive.")])
  {
    var words := HelpWhisperWords();
    assert QueryMessage(r, id, "/help /whisper", order) == Dispatch(r, id, words, order);
    assert Dispatch(r, id, words, order) == Step(r, [Send(id, Help("/whisper"))]);
    WhisperEntry();
  }

  /** The line `/help /whisper` is the two words `/help` and `/whisper`. */
  lemma HelpWhisperWords() returns (words: seq<string>)
    ensures words == ["/help", "/whisper"] && Split("/help /whisper", ' ') == words
  {
    words := ["/help", "/whisper"];
    assert "/help /whisper" == Join(words, ' ');
    SplitJoin(words, ' ');
  }

  /** The table entry `help` returns for `/whisper`. */
  lemma WhisperEntry()
    ensures Help("/whisper") == "Format: " + "/whisper [Username] [Message...]" + ".\n"
      + "Function: Sends a private message to [Username]. Remember, usernames are case sensitive."
  {
    assert Help("/whisper") == HelpEntryText(CommandTable["/whisper"]);
  }
}
