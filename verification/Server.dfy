/** The server's handlers on the heap: client records in the chained hash map, under their socket in
    decimal. Each handler is shown to be one step of Registry. */
module Server {
  import opened Wrappers
  import opened Buckets
  import opened HashMaps
  import opened Passes
  import Decimal
  import R = Registry

  /** client_t */
  class ClientRecord {
    const socket: int
    var rnti: int
    var preambleIndex: int
    var firstConnection: int
    var lastActivity: int
    var battery: int

    /** The socket is set once, from accept. The other fields have whatever values malloc's memory had. */
    constructor (socket: int, u: R.Client)
      ensures View() == u.(socket := socket)
    {
      this.socket, rnti, preambleIndex := socket, u.rnti, u.preambleIndex;
      firstConnection, lastActivity, battery := u.firstConnection, u.lastActivity, u.battery;
    }

    /** What update_client_by_ra_rnti_data writes into a record it found. */
    method UpdateByRaRnti(preambleIndex: int, now: int, raRnti: int)
      modifies this
      ensures View() == old(View()).(preambleIndex := preambleIndex, lastActivity := now, firstConnection := now,
                                     rnti := raRnti, battery := R.OK)
    {
      this.preambleIndex := preambleIndex;
      lastActivity := now;
      firstConnection := now;
      rnti := raRnti;
      battery := R.OK;
    }

    function View(): R.Client
      reads this
    {
      R.Client(socket, rnti, preambleIndex, firstConnection, lastActivity, battery)
    }
  }

  /** Every record is stored under the decimal form of its socket field and holds what records says. */
  ghost predicate Linked(contents: map<string, ClientRecord>, records: map<int, R.Client>)
    reads contents.Values
  {
    && (forall s :: s in records ==> 0 <= s <= 9999999 && Holds(contents, s, records[s]))
    && (forall k :: k in contents ==> contents[k].socket in records && k == Decimal.Print(contents[k].socket))
  }

  ghost predicate Holds(contents: map<string, ClientRecord>, s: int, r: R.Client)
    reads if Decimal.Print(s) in contents then {contents[Decimal.Print(s)]} else {}
  {
    var k := Decimal.Print(s);
    k in contents && contents[k].View() == r && contents[k].socket == s
  }

  /** What the stored records said before one of them is written. */
  ghost function Views(contents: map<string, ClientRecord>): map<string, R.Client>
    reads contents.Values
  {
    map k | k in contents :: contents[k].View()
  }

  ghost predicate Filed(views: map<string, R.Client>, records: map<int, R.Client>) {
    && (forall s :: s in records ==>
          && 0 <= s <= 9999999 && records[s].socket == s
          && Decimal.Print(s) in views && views[Decimal.Print(s)] == records[s])
    && (forall k :: k in views ==> views[k].socket in records && k == Decimal.Print(views[k].socket))
  }

  lemma LinkedIsFiled(contents: map<string, ClientRecord>, records: map<int, R.Client>)
    requires Linked(contents, records)
    ensures Filed(Views(contents), records)
  {
    hide Decimal.Print;
    forall s | s in records ensures Holds(contents, s, records[s]) {
    }
  }

  /** Only the record of socket s was written. */
  lemma Rewritten(contents: map<string, ClientRecord>, views: map<string, R.Client>, records: map<int, R.Client>,
                  s: int)
    requires Filed(views, records) && s in records && contents.Keys == views.Keys && Decimal.Print(s) in contents
    requires forall k :: k in contents ==> contents[k].socket == views[k].socket
    requires forall k :: k in contents && contents[k] != contents[Decimal.Print(s)] ==> contents[k].View() == views[k]
    ensures Linked(contents, records[s := contents[Decimal.Print(s)].View()])
  {
    hide Decimal.Print;
    var after := records[s := contents[Decimal.Print(s)].View()];
    forall t | t in after ensures 0 <= t <= 9999999 && Holds(contents, t, after[t]) {
      if t != s {
        Decimal.PrintIsInjective(t, s);
      }
    }
  }

  class Server {
    const clients: HashMap<ClientRecord>
    ghost var open: set<int>
    ghost var records: map<int, R.Client>

    ghost predicate Valid()
      reads this, clients, clients.table, clients.nodes, clients.contents.Values
    {
      && clients.Valid()
      && clients.maxSize >= 1
      && Linked(clients.contents, records)
      && open == records.Keys
    }

    ghost function View(): R.State
      reads this
    {
      R.State(open, records)
    }

    /** server_t__init */
    constructor (hash: Hash)
      ensures Valid() && View() == R.INITIAL
      ensures fresh(clients) && fresh(clients.nodes) && clients.contents == map[] && clients.hash == hash
    {
      clients := new HashMap<ClientRecord>(0, hash);
      open, records := {}, map[];
    }

    /** get_client_by_socket */
    method GetClientBySocket(socket: int) returns (client: ClientRecord?)
      requires Valid()
      ensures client != null <==> socket in records
      ensures client != null ==> client in clients.contents.Values && client.View() == records[socket]
      ensures client != null ==>
                Decimal.Print(socket) in clients.contents && clients.contents[Decimal.Print(socket)] == client
    {
      var key := Decimal.Print(socket);
      if socket in records {
        assert Holds(clients.contents, socket, records[socket]);
      } else if key in clients.contents {
        Decimal.PrintIsInjective(clients.contents[key].socket, socket);
        assert false;
      }
      var found := clients.Get(key);
      client := if found.Some? then found.value else null;
    }

    /** handle_pong */
    method HandlePong(socket: int, now: int)
      requires Valid() && socket in open
      modifies this, clients.contents.Values
      ensures Valid() && R.Next(old(View()), R.Pong(socket, now)) == Some(View())
      ensures unchanged(clients)
    {
      hide HashMap.Valid, Decimal.Print, Linked, Filed;
      LinkedIsFiled(clients.contents, records);
      ghost var views := Views(clients.contents);
      var client := GetClientBySocket(socket);
      client.lastActivity := now;
      Rewritten(clients.contents, views, records, socket);
      records := records[socket := client.View()];
    }

    /** accept_client, with the socket that accept returned and the memory that malloc returned.
        The key fits its buffer: see Decimal.KeyFits. */
    method AcceptClient(socket: int, uninitialized: R.Client) returns (client: ClientRecord, ghost grows: bool)
      requires Valid() && socket !in open && 0 <= socket <= 9999999
      modifies this, clients, clients.nodes
      ensures Valid() && R.Next(old(View()), R.Accept(socket, uninitialized)) == Some(View())
      ensures clients.buckets ==
              Apply(clients.hash, old(clients.buckets), ChangePut(Decimal.Print(socket), client, grows))
      ensures fresh(client) && fresh(clients.nodes - old(clients.nodes))
      ensures clients.contents == old(clients.contents)[Decimal.Print(socket) := client]
    {
      hide HashMap.Valid, Decimal.Print;
      hide Slot, IndexOf, ChainWithout, Insert, Doubled, Linked;
      NotYetLinked(clients.contents, records, socket);
      client := new ClientRecord(socket, uninitialized);
      grows := clients.count + 1 > clients.maxSize;
      var key := Decimal.Print(socket);
      ghost var before := clients.contents;
      var isNew := clients.Put(key, client);
      assert Linked(before, records);
      LinkMore(before, records, socket, client);
      open, records := open + {socket}, records[socket := client.View()];
    }

    /** handle_random_access_request, through update_client_by_ra_rnti_data. The response goes out first. */
    method HandleRandomAccess(socket: int, raRnti: int, now: int) returns (response: Output)
      requires Valid() && socket in open
      modifies this, clients.contents.Values
      ensures Valid() && R.Next(old(View()), R.RandomAccess(socket, raRnti, now)) == Some(View())
      ensures unchanged(clients) && response == RandomAccessResponse(socket, R.PreambleIndex(raRnti), now)
    {
      hide HashMap.Valid, Decimal.Print, Linked, Filed;
      LinkedIsFiled(clients.contents, records);
      ghost var views := Views(clients.contents);
      var preambleIndex := R.PreambleIndex(raRnti);
      response := RandomAccessResponse(socket, preambleIndex, now);
      var client := GetClientBySocket(socket);
      if client != null {
        client.UpdateByRaRnti(preambleIndex, now, raRnti);
        Rewritten(clients.contents, views, records, socket);
        records := records[socket := client.View()];
      }
    }

    /** handle_low_battery_request and handle_high_battery_request */
    method HandleBattery(socket: int, state: int)
      requires Valid() && socket in open && state in {R.OK, R.LOW}
      modifies this, clients.contents.Values
      ensures Valid() && unchanged(clients)
      ensures R.Next(old(View()), if state == R.LOW then R.BatteryLow(socket) else R.BatteryHigh(socket)) ==
              Some(View())
    {
      hide HashMap.Valid, Decimal.Print, Linked, Filed;
      LinkedIsFiled(clients.contents, records);
      ghost var views := Views(clients.contents);
      var client := GetClientBySocket(socket);
      client.battery := state;
      Rewritten(clients.contents, views, records, socket);
      records := records[socket := client.View()];
    }

    /** send_rrc_setup: the reply carries the RNTI of the record. */
    method SendRrcSetup(socket: int) returns (setup: Output)
      requires Valid() && socket in open
      ensures socket in records && setup == RrcSetup(socket, records[socket].rnti)
    {
      var client := GetClientBySocket(socket);
      setup := RrcSetup(socket, client.rnti);
    }

    /** delete_client_from_hashmap */
    method DeleteClientFromHashmap(socket: int)
      requires Valid() && socket in records
      modifies clients, clients.nodes
      ensures clients.Valid() && clients.table == old(clients.table) && clients.maxSize == old(clients.maxSize)
      ensures clients.nodes == old(clients.nodes)
      ensures clients.contents == old(clients.contents) - {Decimal.Print(socket)}
      ensures clients.contents.Values <= old(clients.contents.Values)
      ensures clients.buckets == Delete(clients.hash, old(clients.buckets), Decimal.Print(socket))
      ensures var i, key := Slot(clients.hash, |old(clients.buckets)|, Decimal.Print(socket)), Decimal.Print(socket);
              clients.chains == old(clients.chains)[i :=
                ChainWithout(old(clients.chains)[i], IndexOf(old(clients.buckets)[i].live, key))]
      ensures Linked(clients.contents, records - {socket})
    {
      hide HashMap.Valid, Decimal.Print, Slot, IndexOf, ChainWithout, Delete, Linked;
      ghost var before := clients.contents;
      LinkLess(before, records, socket);
      var found := clients.Delete(Decimal.Print(socket));
    }

    /** close and delete_client_from_hashmap, for ue_off and for a closed connection */
    method RemoveClient(socket: int)
      requires Valid() && socket in open
      modifies this, clients, clients.nodes
      ensures Valid() && R.Next(old(View()), R.Leave(socket)) == Some(View())
      ensures clients.buckets == Apply(clients.hash, old(clients.buckets), ChangeDelete(Decimal.Print(socket)))
      ensures clients.nodes == old(clients.nodes) && clients.contents.Values <= old(clients.contents.Values)
    {
      hide HashMap.Valid, Decimal.Print, Slot, IndexOf, ChainWithout, Delete, Linked;
      DeleteClientFromHashmap(socket);
      open, records := open - {socket}, records - {socket};
    }

    /** parse_packet: the dispatch on what a read from an open socket gave. Every lookup of a handler
        succeeds, because the open sockets are the registered ones. */
    method ParsePacket(socket: int, packet: Packet, now: int) returns (reply: Output)
      requires Valid() && socket in open
      modifies this, clients, clients.nodes, clients.contents.Values
      ensures Valid() && R.Next(old(View()), EventOf(socket, packet, now)) == Some(View())
      ensures socket in old(records) && reply == match packet
                case RandomAccessRequest(raRnti) => RandomAccessResponse(socket, R.PreambleIndex(raRnti), now)
                case RrcRequest => RrcSetup(socket, old(records)[socket].rnti)
                case _ => Silence
      ensures clients.nodes == old(clients.nodes) && clients.contents.Values <= old(clients.contents.Values)
      ensures clients.buckets == if packet in {Closed, UeOff}
                then Apply(clients.hash, old(clients.buckets), ChangeDelete(Decimal.Print(socket)))
                else old(clients.buckets)
    {
      hide HashMap.Valid, Decimal.Print, Linked, Apply;
      reply := Silence;
      match packet {
        case Closed => RemoveClient(socket);
        case RandomAccessRequest(raRnti) => reply := HandleRandomAccess(socket, raRnti, now);
        case RrcRequest => reply := SendRrcSetup(socket);
        case UeBatteryLow => HandleBattery(socket, R.LOW);
        case UeBatteryHigh => HandleBattery(socket, R.OK);
        case Pong => HandlePong(socket, now);
        case UeOff => RemoveClient(socket);
        case OtherType =>
      }
    }

    // ----- The ping thread -----

    /** The records that are stale at now. */
    ghost function StaleRecords(now: int): set<ClientRecord>
      reads clients, clients.contents.Values
    {
      set c | c in clients.contents.Values && R.IsStale(c.View(), now)
    }

    /** handle_client_inactivity, called for entry p of bucket i. It deletes by the socket in the
        record, and so it deletes the very entry it was called with. */
    method HandleClientInactivity(now: int, client: ClientRecord, ghost i: nat, ghost p: nat)
      requires Valid()
      requires i < |clients.buckets| && p < |clients.buckets[i].live| && client == clients.buckets[i].live[p].1
      modifies this, clients, clients.nodes
      ensures Valid() && clients.table == old(clients.table) && clients.nodes == old(clients.nodes)
      ensures client.socket in old(records)
      ensures if R.IsStale(old(client.View()), now) then
                && clients.buckets == old(clients.buckets)[i := DeleteAt(old(clients.buckets)[i], p)]
                && clients.chains == old(clients.chains)[i := ChainWithout(old(clients.chains)[i], p)]
                && records == old(records) - {client.socket}
                && clients.contents.Values <= old(clients.contents.Values)
              else unchanged(this) && unchanged(clients) && unchanged(clients.nodes)
    {
      hide HashMap.Valid, Decimal.Print;
      hide Slot, IndexOf, ChainWithout, DeleteAt, Linked;
      OwnEntry(i, p);
      var timeSinceLastActivity := now - client.lastActivity;
      if timeSinceLastActivity > R.PING_TIMEOUT {
        DeleteClientFromHashmap(client.socket);
        open, records := open - {client.socket}, records - {client.socket};
      }
    }

    lemma OwnEntry(i: nat, p: nat)
      requires Valid()
      requires i < |clients.buckets| && p < |clients.buckets[i].live|
      ensures var (key, client) := clients.buckets[i].live[p];
              && key in clients.contents && clients.contents[key] == client
              && client.socket in records && records[client.socket] == client.View()
              && key == Decimal.Print(client.socket)
              && Slot(clients.hash, |clients.buckets|, key) == i && IndexOf(clients.buckets[i].live, key) == p
    {
      var (key, client) := clients.buckets[i].live[p];
      assert BucketOk(clients.hash, |clients.buckets|, i, clients.buckets[i]);
      IndexIsUnique(clients.buckets[i].live, p);
      LookupAgrees(clients.hash, clients.buckets, clients.contents, key);
      assert Holds(clients.contents, client.socket, records[client.socket]);
    }

    /** The walk stands at entry p of bucket i, or has come to the end of its chain. */
    ghost predicate At(i: nat, p: nat, entry: Entry?<ClientRecord>)
      reads clients
    {
      && i < |clients.chains| && p <= |clients.chains[i]|
      && entry == if p < |clients.chains[i]| then clients.chains[i][p] else null
    }

    lemma AtEnd(i: nat, p: nat, entry: Entry?<ClientRecord>)
      requires Valid() && At(i, p, entry)
      ensures i < |clients.buckets| && (entry != null ==> !entry.freed && p < |clients.chains[i]|)
      ensures entry != null && entry.HasKey() <==> p < |clients.buckets[i].live|
    {
      clients.ChainAt(i);
    }

    /** S has the stale ones of the registered records. */
    ghost predicate StaleSet(S: set<ClientRecord>, now: int)
      reads clients, clients.contents.Values
    {
      forall c :: c in clients.contents.Values ==> (c in S <==> R.IsStale(c.View(), now))
    }

    /** One round of the walk of hashmap_iter: the callback, and then the step to the node that is
        next after it. That node is never a freed one. */
    method VisitEntry(i: nat, now: int, entry: Entry<ClientRecord>, ghost p: nat, ghost S: set<ClientRecord>)
      returns (next: Entry?<ClientRecord>, ghost kicked: set<int>)
      requires Valid() && StaleSet(S, now)
      requires At(i, p, entry) && p < |clients.chains[i]|
      requires i < |clients.buckets| && p < |clients.buckets[i].live| && !entry.freed
      modifies this, clients, clients.nodes
      ensures Valid() && clients.table == old(clients.table) && clients.nodes == old(clients.nodes)
      ensures StaleSet(S, now)
      ensures At(i, p + 1, next) && |clients.chains[i]| <= |old(clients.chains)[i]|
      ensures next != null ==> !next.freed
      ensures var b := old(clients.buckets)[i];
              clients.buckets == old(clients.buckets)[i := if b.live[p].1 in S then DeleteAt(b, p) else b]
      ensures kicked <= R.Stale(old(records), now)
      ensures records == old(records) - kicked
      ensures clients.contents.Values <= old(clients.contents.Values)
    {
      hide HashMap.Valid, Decimal.Print, Slot, IndexOf, DeleteAt, Linked;
      clients.ChainAt(i);
      var client := entry.value.value;
      OwnEntry(i, p);
      HandleClientInactivity(now, client, i, p);
      kicked := if R.IsStale(client.View(), now) then {client.socket} else {};
      clients.ChainAt(i);
      assert clients.chains[i][p] == entry;
      next := entry.next;
    }

    /** The walk of hashmap_iter through bucket i with that callback. */
    method InactivityInBucket(i: nat, now: int, ghost S: set<ClientRecord>) returns (ghost kicked: set<int>)
      requires Valid() && StaleSet(S, now) && i < clients.tableSize
      modifies this, clients, clients.nodes
      ensures Valid() && StaleSet(S, now) && clients.table == old(clients.table) && clients.nodes == old(clients.nodes)
      ensures clients.buckets == old(clients.buckets)[i := PassFrom(old(clients.buckets)[i], 0, S)]
      ensures kicked <= R.Stale(old(records), now)
      ensures records == old(records) - kicked
      ensures clients.contents.Values <= old(clients.contents.Values)
    {
      hide HashMap.Valid, Decimal.Print;
      hide Slot, IndexOf, DeleteAt, Linked, PassFrom, R.Stale, R.IsStale;
      kicked := {};
      ghost var p := 0;
      clients.ChainAt(i);
      ghost var b := clients.buckets[i];
      var entry: Entry?<ClientRecord> := clients.table[i];
      AtEnd(i, p, entry);
      while entry != null && entry.HasKey()
        invariant Valid() && clients.table == old(clients.table) && clients.nodes == old(clients.nodes)
        invariant At(i, p, entry) && (entry != null ==> !entry.freed)
        invariant entry != null && entry.HasKey() <==> p < |b.live|
        invariant clients.buckets == old(clients.buckets)[i := b]
        invariant PassFrom(b, p, S) == PassFrom(old(clients.buckets)[i], 0, S)
        invariant kicked <= R.Stale(old(records), now)
        invariant records == old(records) - kicked
        invariant StaleSet(S, now) && clients.contents.Values <= old(clients.contents.Values)
        decreases |clients.chains[i]| - p
      {
        PassStep(b, p, S);
        b := if b.live[p].1 in S then DeleteAt(b, p) else b;
        ghost var more;
        entry, more := VisitEntry(i, now, entry, p, S);
        KickedBoth(old(records), kicked, more, now);
        kicked := kicked + more;
        p := p + 1;
        AtEnd(i, p, entry);
      }
      PassStep(b, p, S);
    }

    /** handle_client_inactivity for every entry that the walk of hashmap_iter comes to. */
    method InactivityPass(now: int) returns (ghost kicked: set<int>)
      requires Valid()
      modifies this, clients, clients.nodes
      ensures Valid()
      ensures clients.buckets == Pass(old(clients.buckets), old(StaleRecords(now)))
      ensures kicked <= R.Stale(old(records), now) && records == old(records) - kicked
      ensures 2 * |R.Stale(records, now)| <= |R.Stale(old(records), now)|
      ensures R.Stale(records, now) == {} <==>
              forall i :: 0 <= i < |old(clients.buckets)| ==>
                StaleApart(old(clients.buckets)[i].live, old(StaleRecords(now)))
      ensures clients.nodes == old(clients.nodes) && clients.contents.Values <= old(clients.contents.Values)
    {
      hide HashMap.Valid, Decimal.Print, Linked, PassFrom, StaleApart, R.Stale, R.IsStale;
      ghost var S := StaleRecords(now);
      assert StaleSet(S, now);
      StaleCount(S, now);
      clients.ChainAt(0);
      kicked := {};
      assert old(records) - {} == old(records);
      EmptyIsStale(old(records), now);
      for i := 0 to clients.tableSize
        invariant Valid() && StaleSet(S, now)
        invariant clients.table == old(clients.table) && clients.nodes == old(clients.nodes)
        invariant clients.tableSize == |clients.buckets| == |old(clients.buckets)|
        invariant clients.contents.Values <= old(clients.contents.Values)
        invariant forall j :: 0 <= j < i ==> clients.buckets[j] == PassFrom(old(clients.buckets)[j], 0, S)
        invariant forall j :: i <= j < |clients.buckets| ==> clients.buckets[j] == old(clients.buckets)[j]
        invariant kicked <= R.Stale(old(records), now) && records == old(records) - kicked
      {
        ghost var more := InactivityInBucket(i, now, S);
        clients.ChainAt(0);
        KickedBoth(old(records), kicked, more, now);
        kicked := kicked + more;
      }
      assert clients.buckets == Pass(old(clients.buckets), S);
      PassHalves(old(clients.buckets), S);
      PassClearsIff(old(clients.buckets), S);
      StaleCount(S, now);
    }

    /** Everything a walk with a non-deleting callback comes by: every registered client, once. */
    lemma Walk(es: seq<Pair<ClientRecord>>)
      requires Valid() && es == Entries(clients.buckets)
      ensures forall j :: 0 <= j < |es| ==>
                var (key, c) := es[j];
                c.socket in records && records[c.socket] == c.View() && key == Decimal.Print(c.socket)
      ensures forall s :: s in records ==> exists j :: 0 <= j < |es| && es[j].1.socket == s
      ensures forall i, j :: 0 <= i < j < |es| ==> es[i].1.socket != es[j].1.socket
    {
      hide ShapeExcept, Shape, Chain, BucketsOk, Represents, Decimal.Print, LookupIn;
      EntriesAreTheMap(clients.hash, clients.buckets, clients.contents);
      forall j | 0 <= j < |es|
        ensures var (key, c) := es[j];
                c.socket in records && records[c.socket] == c.View() && key == Decimal.Print(c.socket)
      {
        WalkedEntry(es, j);
        assert Holds(clients.contents, es[j].1.socket, records[es[j].1.socket]);
      }
      forall s | s in records ensures exists j :: 0 <= j < |es| && es[j].1.socket == s {
        assert Holds(clients.contents, s, records[s]);
        FoundInWalk(es, s);
      }
    }

    lemma FoundInWalk(es: seq<Pair<ClientRecord>>, s: int)
      requires Valid() && s in records && Holds(clients.contents, s, records[s])
      requires LookupIn(es, Decimal.Print(s)) == MapLookup(clients.contents, Decimal.Print(s))
      ensures exists j :: 0 <= j < |es| && es[j].1.socket == s
    {
      assert es[IndexOf(es, Decimal.Print(s))].1.socket == s;
    }

    /** hashmap_iter with ping_client: the sockets that get a ping. */
    method PingPass(now: int) returns (pinged: seq<int>)
      requires Valid()
      ensures forall s :: s in pinged <==> s in records && R.ShouldPing(records[s], now)
      ensures forall i, j :: 0 <= i < j < |pinged| ==> pinged[i] != pinged[j]
    {
      hide HashMap.Valid, Decimal.Print, Linked, R.ShouldPing;
      var r, calls := clients.Iterate((key, c) => 0);
      Walk(calls);
      pinged := [];
      for j := 0 to |calls|
        invariant forall s :: s in pinged ==> s in records && R.ShouldPing(records[s], now)
        invariant forall s :: s in pinged ==> exists i :: 0 <= i < j && calls[i].1.socket == s
        invariant forall i, k :: 0 <= i < k < |pinged| ==> pinged[i] != pinged[k]
        invariant forall i :: 0 <= i < j && R.ShouldPing(records[calls[i].1.socket], now) ==>
                    calls[i].1.socket in pinged
      {
        var client := calls[j].1;
        assert records[client.socket] == client.View();
        assert client.socket !in pinged;
        assert forall i :: 0 <= i < |pinged| ==> pinged[i] in pinged;
        if R.ShouldPing(client.View(), now) {
          pinged := pinged + [client.socket];
        }
      }
    }

    /** One round of ping_and_timeout_in_thread, with one reading of the clock. */
    method Tick(now: int) returns (pinged: seq<int>, ghost kicked: set<int>)
      requires Valid()
      modifies this, clients, clients.nodes
      ensures Valid()
      ensures R.Enabled(old(View()), R.Tick(now, kicked)) && R.Next(old(View()), R.Tick(now, kicked)) == Some(View())
      ensures clients.buckets == Apply(clients.hash, old(clients.buckets), ChangePass(old(StaleRecords(now))))
      ensures forall s :: s in pinged <==> s in old(records) && R.ShouldPing(old(records)[s], now)
      ensures forall i, j :: 0 <= i < j < |pinged| ==> pinged[i] != pinged[j]
      ensures forall s :: s in kicked ==>
                s in old(records) && (s in pinged <==> old(records)[s].battery in {R.OK, R.LOW})
      ensures clients.nodes == old(clients.nodes) && clients.contents.Values <= old(clients.contents.Values)
    {
      hide HashMap.Valid, Linked, Pass, StaleApart;
      pinged := PingPass(now);
      kicked := InactivityPass(now);
    }

    /** close_clients_sockets: each socket is read back from its key with atoi. */
    method CloseClientsSockets() returns (closed: seq<int>)
      requires Valid()
      ensures forall s :: s in closed <==> s in open
      ensures forall i, j :: 0 <= i < j < |closed| ==> closed[i] != closed[j]
    {
      hide HashMap.Valid, Decimal.Print, Decimal.Atoi, Linked;
      var r, calls := clients.Iterate((key, c) => 0);
      Walk(calls);
      closed := [];
      for j := 0 to |calls|
        invariant |closed| == j && forall i :: 0 <= i < j ==> closed[i] == calls[i].1.socket
      {
        Decimal.AtoiUndoesPrint(calls[j].1.socket);
        closed := closed + [Decimal.Atoi(calls[j].0)];
      }
    }

    lemma StaleCount(S: set<ClientRecord>, now: int)
      requires Valid() && StaleSet(S, now)
      ensures StaleTotal(clients.buckets, S) == |R.Stale(records, now)|
    {
      hide ShapeExcept, Shape, Chain, BucketsOk, Represents, Decimal.Print, LookupIn;
      var es := Entries(clients.buckets);
      EntriesAreTheMap(clients.hash, clients.buckets, clients.contents);
      StaleTotalIsStaleIn(clients.buckets, S);
      forall j | 0 <= j < |es| ensures es[j].0 in clients.contents && clients.contents[es[j].0] == es[j].1 {
        WalkedEntry(es, j);
      }
      StaleInIsStaleSockets(es, S);
      forall s ensures s in StaleSockets(es, S) <==> s in R.Stale(records, now) {
        StaleSocket(S, now, s);
      }
      assert StaleSockets(es, S) == R.Stale(records, now);
    }

    lemma WalkedEntry(es: seq<Pair<ClientRecord>>, j: nat)
      requires DistinctKeys(es) && j < |es|
      requires LookupIn(es, es[j].0) == MapLookup(clients.contents, es[j].0)
      ensures es[j].0 in clients.contents && clients.contents[es[j].0] == es[j].1
    {
      IndexIsUnique(es, j);
    }

    lemma StaleSocket(S: set<ClientRecord>, now: int, s: int)
      requires Valid() && StaleSet(S, now)
      requires var es := Entries(clients.buckets);
               && (forall j :: 0 <= j < |es| ==> es[j].0 in clients.contents && clients.contents[es[j].0] == es[j].1)
               && LookupIn(es, Decimal.Print(s)) == MapLookup(clients.contents, Decimal.Print(s))
      ensures s in StaleSockets(Entries(clients.buckets), S) <==> s in R.Stale(records, now)
    {
      hide ShapeExcept, Shape, Chain, BucketsOk, Represents, Decimal.Print;
      var es := Entries(clients.buckets);
      if s in StaleSockets(es, S) {
        assert Holds(clients.contents, s, records[s]);
      }
      if s in R.Stale(records, now) {
        assert Holds(clients.contents, s, records[s]);
        var c := clients.contents[Decimal.Print(s)];
        assert c in S && c.socket == s;
        assert es[IndexOf(es, Decimal.Print(s))].1 == c;
      }
    }
  }

  ghost function StaleSockets(live: seq<Pair<ClientRecord>>, S: set<ClientRecord>): set<int> {
    set j | 0 <= j < |live| && live[j].1 in S :: live[j].1.socket
  }

  lemma {:induction false} StaleInIsStaleSockets(live: seq<Pair<ClientRecord>>, S: set<ClientRecord>)
    requires forall i, j :: 0 <= i < j < |live| ==> live[i].1.socket != live[j].1.socket
    ensures StaleIn(live, S) == |StaleSockets(live, S)|
  {
    if live != [] {
      var rest := StaleSockets(live[1..], S);
      StaleInIsStaleSockets(live[1..], S);
      assert live[0].1.socket !in rest;
      forall k ensures k in StaleSockets(live, S) <==> k in rest || (live[0].1 in S && k == live[0].1.socket) {
        if k in StaleSockets(live, S) {
          var j :| 0 <= j < |live| && live[j].1 in S && live[j].1.socket == k;
          if j > 0 {
            assert live[1..][j - 1] == live[j];
          }
        }
        if k in rest {
          var j :| 0 <= j < |live[1..]| && live[1..][j].1 in S && live[1..][j].1.socket == k;
          assert live[j + 1] == live[1..][j];
        }
        if live[0].1 in S && k == live[0].1.socket {
          assert k in StaleSockets(live, S);
        }
      }
      assert StaleSockets(live, S) == if live[0].1 in S then rest + {live[0].1.socket} else rest;
    }
  }

  lemma EmptyIsStale(records: map<int, R.Client>, now: int)
    ensures {} <= R.Stale(records, now)
  {
  }

  lemma KickedBoth(records: map<int, R.Client>, a: set<int>, b: set<int>, now: int)
    requires a <= R.Stale(records, now) && b <= R.Stale(records - a, now)
    ensures a + b <= R.Stale(records, now)
    ensures records - a - b == records - (a + b)
  {
  }

  /** A read of 0 bytes, or a message by its type. */
  datatype Packet =
    | Closed
    | RandomAccessRequest(raRnti: int)
    | RrcRequest
    | UeBatteryLow
    | UeBatteryHigh
    | Pong
    | UeOff
    | OtherType

  /** What the server sends in one step: nothing, an answer to the socket it read from, or pings. */
  datatype Output =
    | Silence
    | RandomAccessResponse(socket: int, rapid: int, timestamp: int)
    | RrcSetup(socket: int, rnti: int)
    | Pings(sockets: seq<int>)

  function EventOf(socket: int, packet: Packet, now: int): R.Event {
    match packet
    case Closed => R.Leave(socket)
    case RandomAccessRequest(raRnti) => R.RandomAccess(socket, raRnti, now)
    case RrcRequest => R.RrcRequest(socket)
    case UeBatteryLow => R.BatteryLow(socket)
    case UeBatteryHigh => R.BatteryHigh(socket)
    case Pong => R.Pong(socket, now)
    case UeOff => R.Leave(socket)
    case OtherType => R.Ignored(socket)
  }

  lemma NotYetLinked(contents: map<string, ClientRecord>, records: map<int, R.Client>, s: int)
    requires Linked(contents, records) && s !in records
    ensures Decimal.Print(s) !in contents
  {
    hide Decimal.Print;
    var k := Decimal.Print(s);
    if k in contents {
      Decimal.PrintIsInjective(contents[k].socket, s);
      assert false;
    }
  }

  lemma LinkMore(contents: map<string, ClientRecord>, records: map<int, R.Client>, s: int, c: ClientRecord)
    requires Linked(contents, records)
    requires s !in records && c.socket == s && 0 <= s <= 9999999
    ensures Linked(contents[Decimal.Print(s) := c], records[s := c.View()])
  {
    hide Decimal.Print;
    var k := Decimal.Print(s);
    var more := contents[k := c];
    forall t | t in records ensures Holds(more, t, records[t]) {
      assert Holds(contents, t, records[t]);
      Decimal.PrintIsInjective(s, t);
    }
    assert Holds(more, s, c.View());
  }

  lemma LinkLess(contents: map<string, ClientRecord>, records: map<int, R.Client>, s: int)
    requires Linked(contents, records) && s in records
    ensures Decimal.Print(s) in contents && Linked(contents - {Decimal.Print(s)}, records - {s})
    ensures (contents - {Decimal.Print(s)}).Values <= contents.Values
  {
    hide Decimal.Print;
    var k := Decimal.Print(s);
    var less := contents - {k};
    forall t | t in records && t != s ensures Holds(less, t, records[t]) {
      assert Holds(contents, t, records[t]);
      Decimal.PrintIsInjective(s, t);
    }
    assert Holds(contents, s, records[s]);
  }
}
