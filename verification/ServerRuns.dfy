/** Whole runs of the server on the heap: every such run is a run of Registry, and a client that falls
    silent leaves within a bounded number of ticks. */
module ServerRuns {
  import opened Bits
  import opened Wrappers
  import opened Buckets
  import opened HashMaps
  import opened Passes
  import opened Server
  import Decimal
  import R = Registry

  /** What reaches the server: a connection, a read from a socket, or one more round of the ping thread. */
  datatype Input =
    | Connect(socket: int, uninitialized: R.Client)
    | Receive(socket: int, packet: Packet, now: int)
    | Clock(now: int)

  /** What the operating system can do: accept gives a socket that is not open and that key[8] can
      print, and only open sockets are read. Any other input does not happen. */
  ghost predicate Possible(s: R.State, input: Input) {
    match input
    case Connect(socket, _) => socket !in s.open && 0 <= socket <= 9999999
    case Receive(socket, _, _) => socket in s.open
    case Clock(_) => true
  }

  ghost predicate Becomes(input: Input, e: R.Event) {
    match input
    case Connect(socket, u) => e == R.Accept(socket, u)
    case Receive(socket, packet, now) => e == EventOf(socket, packet, now)
    case Clock(now) => e.Tick? && e.now == now
  }

  /** The events of the steps that happened. */
  ghost function Happened(steps: seq<Option<R.Event>>): seq<R.Event> {
    if steps == [] then [] else
      Happened(steps[..|steps| - 1]) + if steps[|steps| - 1].Some? then [steps[|steps| - 1].value] else []
  }

  /** After the run past, step i is the event of input i, and there is one exactly if it is possible. */
  ghost predicate Plays(past: seq<R.Event>, inputs: seq<Input>, steps: seq<Option<R.Event>>) {
    && |steps| == |inputs|
    && forall i :: 0 <= i < |inputs| ==>
         var s := R.After(past + Happened(steps[..i]));
         && s.Some?
         && (steps[i].Some? <==> Possible(s.value, inputs[i]))
         && (steps[i].Some? ==> Becomes(inputs[i], steps[i].value))
  }

  // ----- What is sent -----

  /** The RNTI of a record: that of the latest random access, if there was one. */
  function RntiOf(memory: R.Client, access: Option<(int, int)>): int {
    if access.Some? then access.value.0 else memory.rnti
  }

  ghost predicate Distinct(a: seq<int>) {
    forall i, j :: 0 <= i < j < |a| ==> a[i] != a[j]
  }

  /** What step sends after the run es. Random access and RRC requests are answered. A tick pings exactly
      the clients that are due, each once, and of the clients that it kicks exactly those whose battery
      state is known. */
  ghost predicate SentOf(es: seq<R.Event>, step: Option<R.Event>, sent: Output) {
    if step.None? then sent == Silence else
      match step.value
      case RandomAccess(k, raRnti, now) => sent == RandomAccessResponse(k, R.PreambleIndex(raRnti), now)
      case RrcRequest(k) => sent == RrcSetup(k, RntiOf(R.MemoryOf(es, k), R.LastAccess(es, k)))
      case Tick(now, kicked) =>
        && sent.Pings? && Distinct(sent.sockets)
        && (forall k :: k in sent.sockets <==>
              R.Connected(es, k) && R.Due(R.MemoryOf(es, k), R.LastHeard(es, k), R.LastBattery(es, k), now))
        && (forall k :: k in kicked ==> (k in sent.sockets <==> R.BatteryKnown(es, k)))
      case _ => sent == Silence
  }

  ghost predicate AllSent(past: seq<R.Event>, steps: seq<Option<R.Event>>, sent: seq<Output>) {
    && |sent| == |steps|
    && forall i :: 0 <= i < |steps| ==> SentOf(past + Happened(steps[..i]), steps[i], sent[i])
  }

  /** What one step sends, in terms of the records before it. */
  ghost predicate SentNow(s: R.State, step: Option<R.Event>, sent: Output) {
    if step.None? then sent == Silence else
      match step.value
      case RandomAccess(k, raRnti, now) => sent == RandomAccessResponse(k, R.PreambleIndex(raRnti), now)
      case RrcRequest(k) => k in s.clients && sent == RrcSetup(k, s.clients[k].rnti)
      case Tick(now, _) =>
        && sent.Pings? && Distinct(sent.sockets)
        && (forall k :: k in sent.sockets <==> k in s.clients && R.ShouldPing(s.clients[k], now))
      case _ => sent == Silence
  }

  lemma SentIs(es: seq<R.Event>, step: Option<R.Event>, sent: Output, v: R.State)
    requires SentNow(v, step, sent)
    requires R.IsRun(es) && R.After(es) == Some(v) && (step.Some? ==> R.Enabled(v, step.value))
    ensures SentOf(es, step, sent)
  {
    hide R.IsRun, R.After, R.Enabled, R.ShouldPing, R.BatteryKnown, R.HasRandomAccess, R.PreambleIndex;
    hide R.Connected, R.Due, R.MemoryOf, R.LastHeard, R.LastBattery, R.LastAccess;
    if step.Some? && step.value.RrcRequest? {
      R.RecordsAreTheHistory(es, step.value.socket);
    }
    if step.Some? && step.value.Tick? {
      R.Extend(es, v, step.value);
      forall k ensures k in sent.sockets <==>
                       R.Connected(es, k)
                       && R.Due(R.MemoryOf(es, k), R.LastHeard(es, k), R.LastBattery(es, k), step.value.now)
      {
        R.RecordsAreTheHistory(es, k);
        if R.Connected(es, k) {
          R.PingedWhenDue(es, k, step.value.now);
        }
      }
      forall k | k in step.value.kicked ensures k in sent.sockets <==> R.BatteryKnown(es, k) {
        R.PingedBeforeKicked(es, step.value.now, step.value.kicked, k);
      }
    }
  }

  lemma SentGoesOn(past: seq<R.Event>, steps: seq<Option<R.Event>>, all: seq<Output>, step: Option<R.Event>,
                   sent: Output)
    requires AllSent(past, steps, all) && SentOf(past + Happened(steps), step, sent)
    ensures AllSent(past, steps + [step], all + [sent])
  {
    hide SentOf, Happened;
    assert (steps + [step])[..|steps|] == steps;
    forall i | 0 <= i < |steps| ensures (steps + [step])[..i] == steps[..i] {
    }
  }

  // ----- What the inputs say of a client -----

  // The steps only say which inputs happened and whom a tick kicked.

  predicate ConnectedIn(inputs: seq<Input>, steps: seq<Option<R.Event>>, k: int)
    requires |inputs| == |steps|
  {
    if inputs == [] then false else
      var n := |inputs| - 1;
      var before := ConnectedIn(inputs[..n], steps[..n], k);
      if steps[n].None? then before else
        match inputs[n]
        case Connect(socket, _) => socket == k || before
        case Receive(socket, packet, _) => before && !(socket == k && packet in {Closed, UeOff})
        case Clock(_) => before && !(steps[n].value.Tick? && k in steps[n].value.kicked)
  }

  function MemoryIn(inputs: seq<Input>, steps: seq<Option<R.Event>>, k: int): R.Client
    requires |inputs| == |steps|
  {
    if inputs == [] then R.Client(k, 0, 0, 0, 0, 0) else
      var n := |inputs| - 1;
      if steps[n].Some? && inputs[n].Connect? && inputs[n].socket == k then inputs[n].uninitialized
      else MemoryIn(inputs[..n], steps[..n], k)
  }

  /** When the latest random access request or pong of the connection came. */
  function HeardIn(inputs: seq<Input>, steps: seq<Option<R.Event>>, k: int): Option<int>
    requires |inputs| == |steps|
  {
    if inputs == [] then None else
      var n := |inputs| - 1;
      var before := HeardIn(inputs[..n], steps[..n], k);
      if steps[n].None? || inputs[n].Clock? || inputs[n].socket != k then before
      else if inputs[n].Connect? then None
      else if inputs[n].packet.RandomAccessRequest? || inputs[n].packet.Pong? then Some(inputs[n].now)
      else before
  }

  /** What the latest battery report or random access request of the connection says of its battery. */
  function BatteryIn(inputs: seq<Input>, steps: seq<Option<R.Event>>, k: int): Option<int>
    requires |inputs| == |steps|
  {
    if inputs == [] then None else
      var n := |inputs| - 1;
      var before := BatteryIn(inputs[..n], steps[..n], k);
      if steps[n].None? || inputs[n].Clock? || inputs[n].socket != k then before
      else if inputs[n].Connect? then None
      else if inputs[n].packet.UeBatteryLow? then Some(R.LOW)
      else if inputs[n].packet.UeBatteryHigh? || inputs[n].packet.RandomAccessRequest? then Some(R.OK)
      else before
  }

  /** The RA-RNTI in the latest random access request of the connection, and when it came. */
  function AccessIn(inputs: seq<Input>, steps: seq<Option<R.Event>>, k: int): Option<(int, int)>
    requires |inputs| == |steps|
  {
    if inputs == [] then None else
      var n := |inputs| - 1;
      var before := AccessIn(inputs[..n], steps[..n], k);
      if steps[n].None? || inputs[n].Clock? || inputs[n].socket != k then before
      else if inputs[n].Connect? then None
      else if inputs[n].packet.RandomAccessRequest? then Some((inputs[n].packet.raRnti, inputs[n].now))
      else before
  }

  /** Which inputs happen: no connection on a socket that is connected, no packet from one that is not. */
  predicate HappensAfter(inputs: seq<Input>, steps: seq<Option<R.Event>>, input: Input)
    requires |inputs| == |steps|
  {
    match input
    case Connect(socket, _) => !ConnectedIn(inputs, steps, socket) && 0 <= socket <= 9999999
    case Receive(socket, _, _) => ConnectedIn(inputs, steps, socket)
    case Clock(_) => true
  }

  /** The run has nothing to say of a client that the packets have not said. */
  lemma {:induction false} InputsAreTheHistory(inputs: seq<Input>, steps: seq<Option<R.Event>>, k: int)
    requires Plays([], inputs, steps)
    ensures R.Connected(Happened(steps), k) == ConnectedIn(inputs, steps, k)
    ensures R.MemoryOf(Happened(steps), k) == MemoryIn(inputs, steps, k)
    ensures R.LastHeard(Happened(steps), k) == HeardIn(inputs, steps, k)
    ensures R.LastBattery(Happened(steps), k) == BatteryIn(inputs, steps, k)
    ensures R.LastAccess(Happened(steps), k) == AccessIn(inputs, steps, k)
  {
    hide Plays, R.Connected, R.MemoryOf, R.LastHeard, R.LastBattery, R.LastAccess;
    PlaysBefore([], inputs, steps, |inputs|);
    if inputs == [] {
      NoHistory(k);
    } else {
      var n := |inputs| - 1;
      PlaysBefore([], inputs, steps, n);
      InputsAreTheHistory(inputs[..n], steps[..n], k);
      var es := Happened(steps[..n]);
      if steps[n].Some? {
        assert Happened(steps) == es + [steps[n].value];
        InputIsHistory(inputs[n], es, steps[n].value, k);
      } else {
        assert Happened(steps) == es;
      }
    }
  }

  lemma PlaysBefore(past: seq<R.Event>, inputs: seq<Input>, steps: seq<Option<R.Event>>, n: nat)
    requires Plays(past, inputs, steps) && n <= |inputs|
    ensures |steps| == |inputs| && Plays(past, inputs[..n], steps[..n])
    ensures n < |inputs| && steps[n].Some? ==> Becomes(inputs[n], steps[n].value)
  {
    hide R.After, Possible, Becomes, Happened;
    forall i | 0 <= i < n
      ensures inputs[..n][i] == inputs[i] && steps[..n][i] == steps[i] && steps[..n][..i] == steps[..i]
    {
    }
  }

  lemma NoHistory(k: int)
    ensures !R.Connected([], k) && R.MemoryOf([], k) == R.Client(k, 0, 0, 0, 0, 0)
    ensures R.LastHeard([], k) == None == R.LastBattery([], k) && R.LastAccess([], k) == None
  {
  }

  lemma InputIsHistory(input: Input, es: seq<R.Event>, e: R.Event, k: int)
    requires Becomes(input, e)
    ensures var fs, mine := es + [e], !input.Clock? && input.socket == k;
            && (R.Connected(fs, k) <==>
                match input
                case Connect(socket, _) => socket == k || R.Connected(es, k)
                case Receive(socket, packet, _) => R.Connected(es, k) && !(mine && packet in {Closed, UeOff})
                case Clock(_) => R.Connected(es, k) && !(e.Tick? && k in e.kicked))
            && R.MemoryOf(fs, k) == (if mine && input.Connect? then input.uninitialized else R.MemoryOf(es, k))
            && R.LastHeard(fs, k) ==
               (if mine && input.Connect? then None
                else if mine && (input.packet.RandomAccessRequest? || input.packet.Pong?) then Some(input.now)
                else R.LastHeard(es, k))
            && R.LastBattery(fs, k) ==
               (if mine && input.Connect? then None
                else if mine && input.packet.UeBatteryLow? then Some(R.LOW)
                else if mine && (input.packet.UeBatteryHigh? || input.packet.RandomAccessRequest?) then Some(R.OK)
                else R.LastBattery(es, k))
            && R.LastAccess(fs, k) ==
               (if mine && input.Connect? then None
                else if mine && input.packet.RandomAccessRequest? then Some((input.packet.raRnti, input.now))
                else R.LastAccess(es, k))
  {
    assert (es + [e])[..|es|] == es;
  }

  /** What one input makes the server send, in terms of the inputs before it. A tick kicks only clients
      that were quiet for more than 4000 seconds. */
  ghost predicate SentFor(inputs: seq<Input>, steps: seq<Option<R.Event>>, input: Input, step: Option<R.Event>,
                          sent: Output)
    requires |inputs| == |steps|
  {
    if step.None? then sent == Silence else
      match input
      case Connect(_, _) => sent == Silence
      case Receive(k, RandomAccessRequest(raRnti), now) =>
        sent == RandomAccessResponse(k, R.PreambleIndex(raRnti), now)
      case Receive(k, RrcRequest, _) =>
        sent == RrcSetup(k, RntiOf(MemoryIn(inputs, steps, k), AccessIn(inputs, steps, k)))
      case Receive(_, _, _) => sent == Silence
      case Clock(now) =>
        && sent.Pings? && Distinct(sent.sockets) && step.value.Tick?
        && (forall k :: k in sent.sockets <==>
              && ConnectedIn(inputs, steps, k)
              && R.Due(MemoryIn(inputs, steps, k), HeardIn(inputs, steps, k), BatteryIn(inputs, steps, k), now))
        && (forall k :: k in step.value.kicked ==>
              && ConnectedIn(inputs, steps, k)
              && R.Quiet(MemoryIn(inputs, steps, k), HeardIn(inputs, steps, k), now) > 4000
              && (k in sent.sockets <==>
                  BatteryIn(inputs, steps, k).Some? || MemoryIn(inputs, steps, k).battery in {R.OK, R.LOW}))
  }

  lemma SentIsFor(inputs: seq<Input>, steps: seq<Option<R.Event>>, input: Input, step: Option<R.Event>, sent: Output)
    requires |inputs| == |steps| && Plays([], inputs, steps) && SentOf(Happened(steps), step, sent)
    requires step.Some? ==> Becomes(input, step.value) && R.IsRun(Happened(steps) + [step.value])
    ensures SentFor(inputs, steps, input, step, sent)
  {
    hide Plays, R.IsRun, R.Due, R.Quiet, R.PreambleIndex, R.BatteryKnown;
    hide R.Connected, R.MemoryOf, R.LastHeard, R.LastBattery, R.LastAccess;
    hide ConnectedIn, MemoryIn, HeardIn, BatteryIn, AccessIn;
    var es := Happened(steps);
    forall k ensures R.Connected(es, k) == ConnectedIn(inputs, steps, k)
                     && R.MemoryOf(es, k) == MemoryIn(inputs, steps, k)
                     && R.LastHeard(es, k) == HeardIn(inputs, steps, k)
                     && R.LastBattery(es, k) == BatteryIn(inputs, steps, k)
                     && R.LastAccess(es, k) == AccessIn(inputs, steps, k)
    {
      InputsAreTheHistory(inputs, steps, k);
    }
    if step.Some? && step.value.Tick? {
      forall k | k in step.value.kicked
        ensures R.Connected(es, k) && R.Quiet(R.MemoryOf(es, k), R.LastHeard(es, k), step.value.now) > 4000
        ensures R.BatteryKnown(es, k) <==> R.LastBattery(es, k).Some? || R.MemoryOf(es, k).battery in {R.OK, R.LOW}
      {
        R.KickedOnlyWhenQuiet(es, step.value.now, step.value.kicked, k);
        R.KnownMeansReported(es, k);
      }
    }
  }

  // ----- Silent clients -----

  /** The input is no sign of life of client k, whose record was c, and no tick before it is stale. */
  predicate Silent(input: Input, k: int, c: R.Client) {
    match input
    case Connect(socket, _) => socket != k
    case Receive(socket, packet, _) => socket == k ==> !packet.RandomAccessRequest? && !packet.Pong?
    case Clock(now) => now - c.lastActivity > 4000
  }

  function Clocks(inputs: seq<Input>): nat {
    if inputs == [] then 0 else Clocks(inputs[..|inputs| - 1]) + if inputs[|inputs| - 1].Clock? then 1 else 0
  }

  /** How many clients are in front of client k in its bucket. */
  ghost function PositionOf(s: Server, k: int): nat
    requires s.Valid()
    reads s, s.clients, s.clients.table, s.clients.nodes, s.clients.contents.Values
  {
    Position(s.clients.hash, s.clients.buckets, Decimal.Print(k))
  }

  lemma EventKeepsActivity(s: R.State, e: R.Event, input: Input, k: int, c: R.Client)
    requires Becomes(input, e) && R.Next(s, e).Some? && Silent(input, k, c)
    ensures var t := R.Next(s, e).value;
            k in t.clients ==> k in s.clients && t.clients[k].lastActivity == s.clients[k].lastActivity
  {
  }

  /** One change of the table, seen from the entry under key. */
  lemma KeyMovesUp<V>(h: Hash, bs: seq<Bucket<V>>, cs: seq<Bucket<V>>, m: map<string, V>, n: map<string, V>,
                      change: Option<Change<V>>, key: string)
    requires BucketsOk(h, bs) && Represents(h, bs, m) && |cs| > 0 && Represents(h, cs, n)
    requires cs == if change.Some? then Apply(h, bs, change.value) else bs
    requires key in m
    requires change.Some? && change.value.ChangePut? ==> change.value.key != key
    requires change.Some? && change.value.ChangePass? ==> m[key] in change.value.S
    ensures key in n ==>
              Position(h, cs, key) + (if change.Some? && change.value.ChangePass? then 1 else 0) <= Position(h, bs, key)
  {
    hide BucketOk, Represents, Apply, Position, Lookup;
    LookupAgrees(h, bs, m, key);
    LookupAgrees(h, cs, n, key);
    if change.Some? {
      ChangeMovesUp(h, bs, change.value, key, m[key]);
    }
  }

  lemma AcceptIsEnabled(s: R.State, socket: int, u: R.Client)
    requires Possible(s, Connect(socket, u))
    ensures R.Enabled(s, R.Accept(socket, u))
  {
  }

  lemma ReadIsEnabled(s: R.State, socket: int, packet: Packet, now: int)
    requires socket in s.open
    ensures R.Enabled(s, EventOf(socket, packet, now))
  {
  }

  lemma SentOnRead(s: R.State, socket: int, packet: Packet, now: int, reply: Output)
    requires socket in s.clients && reply == match packet
               case RandomAccessRequest(raRnti) => RandomAccessResponse(socket, R.PreambleIndex(raRnti), now)
               case RrcRequest => RrcSetup(socket, s.clients[socket].rnti)
               case _ => Silence
    ensures SentNow(s, Some(EventOf(socket, packet, now)), reply)
  {
  }

  /** One input. */
  method Advance(s: Server, input: Input)
    returns (sent: Output, ghost step: Option<R.Event>, ghost change: Option<Change<ClientRecord>>)
    requires s.Valid()
    modifies s, s.clients, s.clients.nodes, s.clients.contents.Values
    ensures s.Valid()
    ensures fresh(s.clients.nodes - old(s.clients.nodes))
    ensures fresh(s.clients.contents.Values - old(s.clients.contents.Values))
    ensures step.Some? <==> Possible(old(s.View()), input)
    ensures if step.Some?
            then Becomes(input, step.value) && R.Enabled(old(s.View()), step.value)
                 && R.Next(old(s.View()), step.value) == Some(s.View())
            else s.View() == old(s.View())
    ensures s.clients.buckets ==
            if change.Some? then Apply(s.clients.hash, old(s.clients.buckets), change.value) else old(s.clients.buckets)
    ensures change.Some? && change.value.ChangePut? ==>
              input.Connect? && change.value.key == Decimal.Print(input.socket)
    ensures change.Some? && change.value.ChangePass? <==> input.Clock?
    ensures input.Clock? ==> change.value.S == old(s.StaleRecords(input.now))
    ensures SentNow(old(s.View()), step, sent)
  {
    hide HashMap.Valid, Linked, Apply, EventOf, R.Next, R.Enabled, R.ShouldPing, Decimal.Print;
    sent, step, change := Silence, None, None;
    match input {
      case Connect(socket, u) =>
        var client := s.GetClientBySocket(socket);
        if client == null && 0 <= socket <= 9999999 {
          AcceptIsEnabled(s.View(), socket, u);
          var accepted;
          ghost var grows;
          accepted, grows := s.AcceptClient(socket, u);
          step, change := Some(R.Accept(socket, u)), Some(ChangePut(Decimal.Print(socket), accepted, grows));
        }
      case Receive(socket, packet, now) =>
        var client := s.GetClientBySocket(socket);
        if client != null {
          ReadIsEnabled(s.View(), socket, packet, now);
          ghost var before := s.View();
          sent := s.ParsePacket(socket, packet, now);
          SentOnRead(before, socket, packet, now, sent);
          step := Some(EventOf(socket, packet, now));
          change := if packet in {Closed, UeOff} then Some(ChangeDelete(Decimal.Print(socket))) else None;
        }
      case Clock(now) =>
        ghost var S := s.StaleRecords(now);
        var pinged;
        ghost var kicked;
        pinged, kicked := s.Tick(now);
        sent := Pings(pinged);
        step, change := Some(R.Tick(now, kicked)), Some(ChangePass(S));
    }
  }

  /** A client is registered exactly when its printed socket is a key of the table. */
  lemma RegisteredIsKey(s: Server, k: int)
    requires s.Valid()
    ensures k in s.records <==> Decimal.Print(k) in s.clients.contents
    ensures k in s.records ==> s.clients.contents[Decimal.Print(k)].View() == s.records[k]
  {
    hide ShapeExcept, Shape, Chain, BucketsOk, Represents, Roomy, Decimal.Print;
    if k in s.records {
      assert Holds(s.clients.contents, k, s.records[k]);
    } else {
      NotYetLinked(s.clients.contents, s.records, k);
    }
  }

  lemma {:induction false} DistinctFit(a: seq<int>, X: set<int>)
    requires forall i, j :: 0 <= i < j < |a| ==> a[i] != a[j]
    requires forall i :: 0 <= i < |a| ==> a[i] in X
    ensures |a| <= |X|
  {
    if a != [] {
      forall i | 0 <= i < |a[1..]| ensures a[1..][i] in X - {a[0]} {
        assert a[1..][i] == a[i + 1];
      }
      DistinctFit(a[1..], X - {a[0]});
    }
  }

  /** A client has fewer clients in front of it than are registered. */
  lemma PositionIsBelowCount(s: Server, k: int)
    requires s.Valid() && k in s.records
    ensures PositionOf(s, k) < |s.records|
  {
    hide HashMap.Valid, Linked, Decimal.Print, IndexOf;
    s.clients.ChainAt(0);
    var i := Slot(s.clients.hash, |s.clients.buckets|, Decimal.Print(k));
    var live := s.clients.buckets[i].live;
    var sockets := seq(|live|, p requires 0 <= p < |live| => live[p].1.socket);
    forall p | 0 <= p < |live|
      ensures sockets[p] in s.records && live[p].0 == Decimal.Print(sockets[p]) && IndexOf(live, live[p].0) == p
    {
      s.OwnEntry(i, p);
    }
    DistinctFit(sockets, s.records.Keys);
    InItsBucket(s, k);
  }

  lemma InItsBucket(s: Server, k: int)
    requires s.Valid() && k in s.records
    ensures s.clients.Valid() && |s.clients.buckets| > 0
    ensures PositionOf(s, k) < |s.clients.buckets[Slot(s.clients.hash, |s.clients.buckets|, Decimal.Print(k))].live|
  {
    hide Chain, BucketsOk, Represents, Decimal.Print;
    RegisteredIsKey(s, k);
    LookupAgrees(s.clients.hash, s.clients.buckets, s.clients.contents, Decimal.Print(k));
  }

  /** The silent client k stays where it is or moves up, by at least one place if the input is a tick. */
  ghost predicate MovedUp(input: Input, k: int, before: R.Client, position: nat, after: R.Client, position': nat) {
    && after.lastActivity == before.lastActivity
    && position' + (if input.Clock? then 1 else 0) <= position
  }

  /** One input, with what it means for the clients that are silent. */
  method Step(s: Server, input: Input)
    returns (sent: Output, ghost step: Option<R.Event>, ghost change: Option<Change<ClientRecord>>)
    requires s.Valid()
    modifies s, s.clients, s.clients.nodes, s.clients.contents.Values
    ensures s.Valid()
    ensures fresh(s.clients.nodes - old(s.clients.nodes))
    ensures fresh(s.clients.contents.Values - old(s.clients.contents.Values))
    ensures step.Some? <==> Possible(old(s.View()), input)
    ensures if step.Some?
            then Becomes(input, step.value) && R.Enabled(old(s.View()), step.value)
                 && R.Next(old(s.View()), step.value) == Some(s.View())
            else s.View() == old(s.View())
    ensures s.clients.buckets ==
            if change.Some? then Apply(s.clients.hash, old(s.clients.buckets), change.value) else old(s.clients.buckets)
    ensures forall k :: k in s.records && k !in old(s.records) ==> input.Connect? && input.socket == k
    ensures forall k :: k in s.records && k in old(s.records) && Silent(input, k, old(s.records)[k]) ==>
              MovedUp(input, k, old(s.records)[k], old(PositionOf(s, k)), s.records[k], PositionOf(s, k))
    ensures SentNow(old(s.View()), step, sent)
  {
    hide ShapeExcept, Shape, Chain, BucketOk, Represents, Roomy, Linked, Apply, R.Next, R.Enabled, Decimal.Print;
    hide Position, Possible, Becomes, Silent, SentNow;
    ghost var h, bs, m, r, v := s.clients.hash, s.clients.buckets, s.clients.contents, s.records, s.View();
    assert BucketsOk(h, bs) && Represents(h, bs, m);
    forall k ensures k in r <==> Decimal.Print(k) in m {
      RegisteredIsKey(s, k);
    }
    forall k | k in r && input.Clock? && Silent(input, k, r[k])
      ensures m[Decimal.Print(k)] in s.StaleRecords(input.now)
    {
      RegisteredIsKey(s, k);
      SilentIsStale(input, k, r[k]);
    }
    sent, step, change := Advance(s, input);
    forall k | k in s.records && k !in r ensures input.Connect? && input.socket == k {
      NewcomerConnects(v, step, input, k, s.View());
    }
    forall k | k in s.records && k in r && Silent(input, k, r[k])
      ensures MovedUp(input, k, r[k], Position(h, bs, Decimal.Print(k)), s.records[k], PositionOf(s, k))
    {
      RegisteredIsKey(s, k);
      SilentIsOther(input, k, r[k]);
      KeyMovesUp(h, bs, s.clients.buckets, m, s.clients.contents, change, Decimal.Print(k));
      if step.Some? {
        EventKeepsActivity(v, step.value, input, k, r[k]);
      }
    }
  }

  lemma SilentIsStale(input: Input, k: int, c: R.Client)
    requires Silent(input, k, c) && input.Clock?
    ensures R.IsStale(c, input.now)
  {
  }

  lemma SilentIsOther(input: Input, k: int, c: R.Client)
    requires Silent(input, k, c)
    ensures input.Connect? ==> Decimal.Print(input.socket) != Decimal.Print(k)
  {
    if input.Connect? {
      Decimal.PrintIsInjective(input.socket, k);
    }
  }

  lemma NewcomerConnects(v: R.State, step: Option<R.Event>, input: Input, k: int, w: R.State)
    requires if step.Some? then Becomes(input, step.value) && R.Next(v, step.value) == Some(w) else w == v
    requires k in w.clients && k !in v.clients
    ensures input.Connect? && input.socket == k
  {
  }

  // ----- Runs -----

  ghost predicate AllSilent(inputs: seq<Input>, k: int, c: R.Client) {
    forall i :: 0 <= i < |inputs| ==> Silent(inputs[i], k, c)
  }

  lemma RunGoesOn(past: seq<R.Event>, inputs: seq<Input>, steps: seq<Option<R.Event>>, i: nat, step: Option<R.Event>,
                  v: R.State, w: R.State)
    requires i < |inputs| && Plays(past, inputs[..i], steps)
    requires R.IsRun(past + Happened(steps)) && R.After(past + Happened(steps)) == Some(v)
    requires step.Some? <==> Possible(v, inputs[i])
    requires if step.Some?
             then Becomes(inputs[i], step.value) && R.Enabled(v, step.value) && R.Next(v, step.value) == Some(w)
             else w == v
    ensures Plays(past, inputs[..i + 1], steps + [step])
    ensures R.IsRun(past + Happened(steps + [step])) && R.After(past + Happened(steps + [step])) == Some(w)
  {
    hide R.IsRun, R.After, R.Next, R.Enabled, Possible, Becomes;
    var es := past + Happened(steps);
    assert (steps + [step])[..i] == steps;
    if step.Some? {
      R.Extend(es, v, step.value);
      assert es + [step.value] == past + Happened(steps + [step]);
    } else {
      assert es == past + Happened(steps + [step]);
    }
    forall j | 0 <= j < i ensures inputs[..i + 1][j] == inputs[..i][j] && (steps + [step])[..j] == steps[..j] {
    }
  }

  lemma SilenceSoFar(inputs: seq<Input>, i: nat, k: int, c: R.Client, d: R.Client)
    requires i < |inputs| && AllSilent(inputs[..i + 1], k, c)
    ensures AllSilent(inputs[..i], k, c) && Silent(inputs[i], k, c)
    ensures !(inputs[i].Connect? && inputs[i].socket == k)
    ensures c.lastActivity == d.lastActivity ==> Silent(inputs[i], k, d)
    ensures Clocks(inputs[..i + 1]) == Clocks(inputs[..i]) + if inputs[i].Clock? then 1 else 0
  {
    assert inputs[..i + 1][i] == inputs[i] && inputs[..i + 1][..i] == inputs[..i];
    forall j | 0 <= j < i ensures inputs[..i][j] == inputs[..i + 1][j] {
    }
  }

  /** Playing inputs after the run past. The result is the run of Registry that the inputs make; the
      table goes through the changes cs; and every client that is silent for more ticks than there were
      clients in front of it in its bucket is gone, whatever the other clients do. As many ticks as there
      were clients are always enough. */
  method Play(s: Server, inputs: seq<Input>, ghost past: seq<R.Event>)
    returns (all: seq<Output>, ghost steps: seq<Option<R.Event>>, ghost cs: seq<Change<ClientRecord>>)
    requires s.Valid() && R.IsRun(past) && R.After(past) == Some(s.View())
    modifies s, s.clients, s.clients.nodes, s.clients.contents.Values
    ensures s.Valid()
    ensures fresh(s.clients.nodes - old(s.clients.nodes))
    ensures fresh(s.clients.contents.Values - old(s.clients.contents.Values))
    ensures Plays(past, inputs, steps)
    ensures R.IsRun(past + Happened(steps)) && R.After(past + Happened(steps)) == Some(s.View())
    ensures s.clients.buckets == ApplyAll(s.clients.hash, old(s.clients.buckets), cs)
    ensures forall k :: (k in old(s.records) && AllSilent(inputs, k, old(s.records)[k])
                         && Clocks(inputs) > old(PositionOf(s, k))) ==> k !in s.records && k !in s.open
    ensures forall k :: (k in old(s.records) && AllSilent(inputs, k, old(s.records)[k])
                         && Clocks(inputs) >= |old(s.records)|) ==> k !in s.records && k !in s.open
    ensures AllSent(past, steps, all)
  {
    hide HashMap.Valid, Linked, Apply, Decimal.Print;
    hide Position, Possible, Becomes, Silent, AllSilent, Clocks, Plays, R.Next, R.Enabled, R.IsRun, R.After;
    hide SentNow, SentOf, AllSent;
    s.clients.ChainAt(0);
    all, steps, cs := [], [], [];
    ghost var bs, r := s.clients.buckets, s.records;
    ghost var place := map k | k in s.records :: PositionOf(s, k);
    assert past + Happened([]) == past;
    NothingPlayed(past, inputs);
    forall k | k in s.records ensures PositionOf(s, k) < |s.records| {
      PositionIsBelowCount(s, k);
    }
    for i := 0 to |inputs|
      invariant s.Valid()
      invariant fresh(s.clients.nodes - old(s.clients.nodes))
      invariant fresh(s.clients.contents.Values - old(s.clients.contents.Values))
      invariant Plays(past, inputs[..i], steps) && AllSent(past, steps, all)
      invariant R.IsRun(past + Happened(steps)) && R.After(past + Happened(steps)) == Some(s.View())
      invariant s.clients.buckets == ApplyAll(s.clients.hash, bs, cs)
      invariant forall k :: k in r && k in s.records && AllSilent(inputs[..i], k, r[k]) ==>
                  s.records[k].lastActivity == r[k].lastActivity && PositionOf(s, k) + Clocks(inputs[..i]) <= place[k]
    {
      ghost var v, r' := s.View(), s.records;
      var sent;
      ghost var step, change;
      sent, step, change := Step(s, inputs[i]);
      SentIs(past + Happened(steps), step, sent, v);
      SentGoesOn(past, steps, all, step, sent);
      RunGoesOn(past, inputs, steps, i, step, v, s.View());
      forall k | k in r && k in s.records && AllSilent(inputs[..i + 1], k, r[k])
        ensures s.records[k].lastActivity == r[k].lastActivity && PositionOf(s, k) + Clocks(inputs[..i + 1]) <= place[k]
      {
        SilenceSoFar(inputs, i, k, r[k], if k in r' then r'[k] else r[k]);
      }
      all, steps := all + [sent], steps + [step];
      if change.Some? {
        assert (cs + [change.value])[..|cs|] == cs;
        cs := cs + [change.value];
      }
    }
    assert inputs[..|inputs|] == inputs;
  }

  lemma NothingPlayed(past: seq<R.Event>, inputs: seq<Input>)
    ensures Plays(past, inputs[..0], []) && AllSent(past, [], []) && Clocks(inputs[..0]) == 0
  {
  }

  lemma {:induction false} RunBefore(steps: seq<Option<R.Event>>, n: nat)
    requires R.IsRun(Happened(steps)) && n <= |steps|
    ensures R.IsRun(Happened(steps[..n]))
    decreases |steps|
  {
    if n < |steps| {
      var m := |steps| - 1;
      var es := Happened(steps[..m]);
      if steps[m].Some? {
        assert Happened(steps) == es + [steps[m].value] && (es + [steps[m].value])[..|es|] == es;
      } else {
        assert Happened(steps) == es;
      }
      RunBefore(steps[..m], n);
      assert steps[..m][..n] == steps[..n];
    } else {
      assert steps[..n] == steps;
    }
  }

  lemma HappensAtStep(inputs: seq<Input>, steps: seq<Option<R.Event>>, i: nat)
    requires Plays([], inputs, steps) && R.IsRun(Happened(steps)) && i < |inputs|
    ensures steps[i].Some? <==> HappensAfter(inputs[..i], steps[..i], inputs[i])
  {
    hide R.IsRun, R.After, R.Connected, ConnectedIn, Becomes, Happened;
    PlaysBefore([], inputs, steps, i);
    RunBefore(steps, i);
    var es := Happened(steps[..i]);
    assert [] + es == es;
    R.ReachableStates(es);
    if !inputs[i].Clock? {
      R.RecordsAreTheHistory(es, inputs[i].socket);
      InputsAreTheHistory(inputs[..i], steps[..i], inputs[i].socket);
    }
  }

  lemma SentAtStep(inputs: seq<Input>, steps: seq<Option<R.Event>>, all: seq<Output>, i: nat)
    requires Plays([], inputs, steps) && AllSent([], steps, all) && R.IsRun(Happened(steps)) && i < |inputs|
    ensures SentFor(inputs[..i], steps[..i], inputs[i], steps[i], all[i])
  {
    hide R.IsRun, R.After, SentOf, SentFor, Possible, Becomes;
    PlaysBefore([], inputs, steps, i);
    RunBefore(steps, i + 1);
    assert steps[..i + 1][..i] == steps[..i];
    assert [] + Happened(steps[..i]) == Happened(steps[..i]);
    SentIsFor(inputs[..i], steps[..i], inputs[i], steps[i], all[i]);
  }

  /** Every run of the server from its start, with any hash function and any inputs, is a run of
      Registry, so that what Registry says of runs holds of the server on the heap. Who is registered,
      every field of each record, and all that is sent are told by the inputs. */
  method Run(hash: Hash, inputs: seq<Input>)
    returns (s: Server, all: seq<Output>, ghost steps: seq<Option<R.Event>>)
    ensures fresh(s) && s.Valid()
    ensures Plays([], inputs, steps) && AllSent([], steps, all)
    ensures R.IsRun(Happened(steps)) && R.After(Happened(steps)) == Some(s.View())
    ensures forall i :: 0 <= i < |inputs| ==> (steps[i].Some? <==> HappensAfter(inputs[..i], steps[..i], inputs[i]))
    ensures forall i :: 0 <= i < |inputs| ==> SentFor(inputs[..i], steps[..i], inputs[i], steps[i], all[i])
    ensures forall k :: k in s.records <==> ConnectedIn(inputs, steps, k)
    ensures forall k :: k in s.records ==>
              R.Recorded(s.records[k], MemoryIn(inputs, steps, k), HeardIn(inputs, steps, k),
                         BatteryIn(inputs, steps, k), AccessIn(inputs, steps, k))
  {
    hide HashMap.Valid, Linked, Plays, AllSent, SentFor, HappensAfter, R.IsRun, R.After, R.Recorded;
    s := new Server(hash);
    ghost var cs;
    NothingHappened();
    all, steps, cs := Play(s, inputs, []);
    assert [] + Happened(steps) == Happened(steps);
    PlayedAll(inputs, steps, all);
    forall i | 0 <= i < |inputs|
      ensures steps[i].Some? <==> HappensAfter(inputs[..i], steps[..i], inputs[i])
      ensures SentFor(inputs[..i], steps[..i], inputs[i], steps[i], all[i])
    {
      HappensAtStep(inputs, steps, i);
      SentAtStep(inputs, steps, all, i);
    }
    forall k ensures k in s.records <==> ConnectedIn(inputs, steps, k)
             ensures k in s.records ==>
                       R.Recorded(s.records[k], MemoryIn(inputs, steps, k), HeardIn(inputs, steps, k),
                                  BatteryIn(inputs, steps, k), AccessIn(inputs, steps, k))
    {
      R.RecordsAreTheHistory(Happened(steps), k);
      InputsAreTheHistory(inputs, steps, k);
    }
  }

  lemma NothingHappened()
    ensures R.IsRun([]) && R.After([]) == Some(R.INITIAL)
  {
  }

  lemma PlayedAll(inputs: seq<Input>, steps: seq<Option<R.Event>>, all: seq<Output>)
    requires Plays([], inputs, steps) && AllSent([], steps, all)
    ensures |inputs| == |steps| == |all|
  {
  }

  /** k ticks in a row at one clock reading are a run of Registry on the heap, and leave at most n / 2^k
      of n stale clients. */
  method TickRepeatedly(s: Server, now: int, k: nat, ghost past: seq<R.Event>) returns (ghost ticks: seq<R.Event>)
    requires s.Valid() && R.IsRun(past) && R.After(past) == Some(s.View())
    modifies s, s.clients, s.clients.nodes, s.clients.contents.Values
    ensures s.Valid()
    ensures |ticks| == k && forall j :: 0 <= j < k ==> ticks[j].Tick? && ticks[j].now == now
    ensures R.IsRun(past + ticks) && R.After(past + ticks) == Some(s.View())
    ensures Pow2(k) * |R.Stale(s.records, now)| <= |R.Stale(old(s.records), now)|
    ensures |R.Stale(old(s.records), now)| < Pow2(k) ==> R.Stale(s.records, now) == {}
  {
    hide HashMap.Valid, Linked, Apply;
    hide R.Stale, R.IsRun, R.After, R.Enabled, R.Next, Pow2;
    ticks := [];
    assert past + [] == past;
    for i := 0 to k
      invariant s.Valid()
      invariant s.clients.nodes == old(s.clients.nodes)
      invariant s.clients.contents.Values <= old(s.clients.contents.Values)
      invariant |ticks| == i && forall j :: 0 <= j < i ==> ticks[j].Tick? && ticks[j].now == now
      invariant R.IsRun(past + ticks) && R.After(past + ticks) == Some(s.View())
    {
      ghost var v := s.View();
      var pinged;
      ghost var kicked;
      pinged, kicked := s.Tick(now);
      R.Extend(past + ticks, v, R.Tick(now, kicked));
      assert past + ticks + [R.Tick(now, kicked)] == past + (ticks + [R.Tick(now, kicked)]);
      ticks := ticks + [R.Tick(now, kicked)];
    }
    R.TicksHalve(past, ticks, now);
    if |R.Stale(old(s.records), now)| < Pow2(k) {
      R.TicksFinish(past, ticks, now);
    }
  }
}
