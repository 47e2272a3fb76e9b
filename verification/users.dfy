/**
 The server's registry of connected users: the global `clients` set (here a map
 from a connection's id to its current username) and the global `usernames` set.
 Every operation is a pure transition on an immutable `Registry`.
 */
module Users {
  import opened Wrappers

  /** Identifies one accepted connection (one `Client` object). */
  type ClientId = nat

  datatype Registry = Registry(clients: map<ClientId, string>, usernames: set<string>)

  /** The registry when the server starts. */
  const Empty: Registry := Registry(map[], {})

  /** The registry invariant: `usernames` is exactly the set of the clients' names,
      and no two clients share a name. */
  ghost predicate Wf(r: Registry) {
    && r.usernames == r.clients.Values
    && forall a, b :: a in r.clients && b in r.clients && r.clients[a] == r.clients[b] ==> a == b
  }

  lemma EmptyWf()
    ensures Wf(Empty)
  {
  }

  /** The clients currently called `name`: `[c for c in clients if c.username == name]`. */
  function Holders(r: Registry, name: string): (hs: set<ClientId>)
    ensures forall id :: id in hs <==> id in r.clients && r.clients[id] == name
  {
    set id | id in r.clients && r.clients[id] == name
  }

  /** Under the invariant, a lookup by name finds exactly one client when the name is
      in use and none otherwise. */
  lemma LookupByName(r: Registry, name: string)
    requires Wf(r)
    ensures name !in r.usernames ==> Holders(r, name) == {}
    ensures name in r.usernames ==> exists id :: id in r.clients && Holders(r, name) == {id}
  {
    if name in r.usernames {
      var id :| id in r.clients && r.clients[id] == name;
      assert Holders(r, name) == {id};
    }
  }

  /** The registration half of the handshake: `usernames.add(name)` then
      `clients.add(client)` for a freshly accepted connection. */
  function Register(r: Registry, id: ClientId, name: string): (r': Registry)
    requires id !in r.clients
    ensures id in r'.clients && r'.clients[id] == name
    ensures forall c :: c != id ==> (c in r'.clients <==> c in r.clients)
    ensures forall c :: c in r.clients ==> r'.clients[c] == r.clients[c]
    ensures Wf(r) && name !in r.usernames ==> Wf(r')
  {
    Registry(r.clients[id := name], r.usernames + {name})
  }

  /** `remove_client`'s two removals: `usernames.remove(name)` then `clients.remove(client)`.
      Either raises `KeyError` (`None`) when its element is missing, which happens only when
      the client is no longer registered or the invariant is broken. */
  function Remove(r: Registry, id: ClientId): (o: Option<Registry>)
    ensures o.Some? <==> id in r.clients && r.clients[id] in r.usernames
    ensures Wf(r) && id in r.clients ==> o.Some?
    ensures o.Some? ==> id !in o.value.clients
    ensures o.Some? ==> forall c :: c != id ==> (c in o.value.clients <==> c in r.clients)
    ensures o.Some? ==> forall c :: c in o.value.clients ==> o.value.clients[c] == r.clients[c]
    ensures o.Some? && Wf(r) ==> Wf(o.value) && r.clients[id] !in o.value.usernames
  {
    if id !in r.clients || r.clients[id] !in r.usernames then None
    else
      var name := r.clients[id];
      var r' := Registry(r.clients - {id}, r.usernames - {name});
      assert Wf(r) ==> r'.usernames == r'.clients.Values by {
        if Wf(r) {
          forall n | n in r'.clients.Values ensures n in r'.usernames {
            var c :| c in r'.clients && r'.clients[c] == n;
            assert c != id && r.clients[c] == n;
          }
          forall n | n in r'.usernames ensures n in r'.clients.Values {
            var c :| c in r.clients && r.clients[c] == n;
            assert c != id && r'.clients[c] == n;
          }
        }
      }
      Some(r')
  }

  /** How `change_username` classifies a request, in the order it tests. */
  datatype RenameOutcome =
    | AlreadyYours                            // the new name is the client's own
    | NameTaken                               // another client holds it
    | EmptyName                               // the new name is empty
    | Renamed(reg: Registry, previous: string)     // the registry after the rename, and the old name

  /** The registry half of `change_username`. */
  function Rename(r: Registry, id: ClientId, name: string): (o: RenameOutcome)
    requires id in r.clients
    ensures o == AlreadyYours <==> name == r.clients[id]
    ensures o == NameTaken <==> name != r.clients[id] && name in r.usernames
    ensures o == EmptyName <==> name != r.clients[id] && name !in r.usernames && name == ""
    ensures o.Renamed? ==>
      && o.previous == r.clients[id]
      && o.reg.clients.Keys == r.clients.Keys
      && o.reg.clients[id] == name
      && (forall c :: c in r.clients && c != id ==> o.reg.clients[c] == r.clients[c])
    ensures o.Renamed? && Wf(r) ==> Wf(o.reg) && o.previous !in o.reg.usernames && name in o.reg.usernames
  {
    var previous := r.clients[id];
    if name == previous then AlreadyYours
    else if name in r.usernames then NameTaken
    else if |name| == 0 then EmptyName
    else
      var r' := Registry(r.clients[id := name], r.usernames - {previous} + {name});
      assert Wf(r) ==> r'.usernames == r'.clients.Values by {
        if Wf(r) {
          forall n | n in r'.usernames ensures n in r'.clients.Values {
            if n != name {
              assert n in r.clients.Values && n != previous;
              var c :| c in r.clients && r.clients[c] == n;
              assert c != id && r'.clients[c] == n;
            } else {
              assert r'.clients[id] == n;
            }
          }
          forall n | n in r'.clients.Values ensures n in r'.usernames {
            var c :| c in r'.clients && r'.clients[c] == n;
            if c != id {
              assert r.clients[c] == n && n != previous;
            }
          }
        }
      }
      Renamed(r', previous)
  }
}
