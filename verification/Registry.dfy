/** The server's client registry as a step machine (serverLTE): each handler and each tick of the
    ping thread is one atomic step. */
module Registry {
  import opened Arithmetic
  import opened Bits
  import opened Wrappers

  const PING_TIME_NORMAL := 5
  const PING_TIME_LOW_BATTERY := 10
  const PING_TIMEOUT := 4000

  const OK := 0
  const LOW := 1

  /** client_t. Memory from malloc is not cleared, so until random access every field but the socket
      can have any value, also battery states that are neither OK nor LOW. */
  datatype Client = Client(socket: int, rnti: int, preambleIndex: int,
                           firstConnection: int, lastActivity: int, battery: int)

  /** The sockets that are open, and the records under their keys. */
  datatype State = State(open: set<int>, clients: map<int, Client>)

  datatype Event =
    | Accept(socket: int, uninitialized: Client)
    | RandomAccess(socket: int, raRnti: int, now: int)
    | RrcRequest(socket: int)
    | Pong(socket: int, now: int)
    | BatteryLow(socket: int)
    | BatteryHigh(socket: int)
    | Ignored(socket: int)
    | Leave(socket: int)
    | Tick(now: int, kicked: set<int>)

  /** extractPreambleIndex: the two top bits of the 16-bit RA-RNTI, moved down by 8, as an int8_t. */
  function PreambleIndex(raRnti: int): int {
    var v := raRnti % 0x1_0000 / 0x4000 * 0x40;
    if v >= 0x80 then v - 0x100 else v
  }

  /** The index tells the four quarters of the int16_t range apart, as signed numbers. */
  lemma PreambleIsTopBits(raRnti: int)
    requires -0x8000 <= raRnti < 0x8000
    ensures PreambleIndex(raRnti) == if raRnti < -0x4000 then -128 else if raRnti < 0 then -64
                                     else if raRnti < 0x4000 then 0 else 64
  {
    if raRnti < 0 {
      assert raRnti % 0x1_0000 == raRnti + 0x1_0000;
    }
  }

  predicate IsStale(c: Client, now: int) { now - c.lastActivity > PING_TIMEOUT }

  function Stale(clients: map<int, Client>, now: int): set<int> {
    set s | s in clients && IsStale(clients[s], now)
  }

  /** ping_client */
  predicate ShouldPing(c: Client, now: int) {
    || (c.battery == OK && now - c.lastActivity > PING_TIME_NORMAL)
    || (c.battery == LOW && now - c.lastActivity > PING_TIME_LOW_BATTERY)
  }

  /** What the operating system and the epoll loop guarantee: accept returns a socket that is not open
      and that key[8] can print, and messages come from open sockets. What one tick may kick is
      what its pass over the table was shown to do. */
  ghost predicate Enabled(s: State, e: Event) {
    match e
    case Accept(socket, _) => socket !in s.open && 0 <= socket <= 9999999
    case Tick(now, kicked) =>
      && kicked <= Stale(s.clients, now)
      && 2 * |Stale(s.clients - kicked, now)| <= |Stale(s.clients, now)|
    case _ => e.socket in s.open
  }

  /** One step. None is the null dereference of the handlers that use a looked-up record unchecked. */
  function Next(s: State, e: Event): Option<State> {
    match e
    case Accept(socket, u) => Some(State(s.open + {socket}, s.clients[socket := u.(socket := socket)]))
    case RandomAccess(socket, raRnti, now) =>
      if socket in s.clients then
        var c := s.clients[socket].(rnti := raRnti, preambleIndex := PreambleIndex(raRnti), firstConnection := now,
                                    lastActivity := now, battery := OK);
        Some(s.(clients := s.clients[socket := c]))
      else Some(s)
    case RrcRequest(socket) => if socket in s.clients then Some(s) else None
    case Pong(socket, now) =>
      if socket in s.clients then Some(s.(clients := s.clients[socket := s.clients[socket].(lastActivity := now)]))
      else None
    case BatteryLow(socket) =>
      if socket in s.clients then Some(s.(clients := s.clients[socket := s.clients[socket].(battery := LOW)]))
      else None
    case BatteryHigh(socket) =>
      if socket in s.clients then Some(s.(clients := s.clients[socket := s.clients[socket].(battery := OK)]))
      else None
    case Ignored(socket) => Some(s)
    case Leave(socket) => Some(State(s.open - {socket}, s.clients - {socket}))
    case Tick(now, kicked) => Some(State(s.open - kicked, s.clients - kicked))
  }

  const INITIAL := State({}, map[])

  /** Runs from the start of the server. */
  ghost function After(es: seq<Event>): Option<State> {
    if es == [] then Some(INITIAL) else
      match After(es[..|es| - 1])
      case None => None
      case Some(s) => Next(s, es[|es| - 1])
  }

  ghost predicate IsRun(es: seq<Event>) {
    es == [] ||
    (IsRun(es[..|es| - 1]) && After(es[..|es| - 1]).Some? && Enabled(After(es[..|es| - 1]).value, es[|es| - 1]))
  }

  lemma Extend(es: seq<Event>, s: State, e: Event)
    requires IsRun(es) && After(es) == Some(s) && Enabled(s, e)
    ensures IsRun(es + [e]) && After(es + [e]) == Next(s, e)
  {
    assert (es + [e])[..|es|] == es;
  }

  // ----- What every reachable state is like -----

  function Accepts(es: seq<Event>): nat {
    if es == [] then 0 else Accepts(es[..|es| - 1]) + if es[|es| - 1].Accept? then 1 else 0
  }

  function Removals(es: seq<Event>): nat {
    if es == [] then 0 else
      var e := es[|es| - 1];
      Removals(es[..|es| - 1]) + (if e.Leave? then 1 else if e.Tick? then |e.kicked| else 0)
  }

  /** Exactly the open sockets are registered, each record under its own socket. */
  ghost predicate Sound(s: State) {
    && s.open == s.clients.Keys
    && (forall k :: k in s.clients ==> 0 <= k <= 9999999 && s.clients[k].socket == k)
  }

  /** No run dereferences NULL; exactly the open sockets are registered, each record under its own
      socket; and the number of entries is the number of accepts minus the number of removals. */
  lemma {:induction false} ReachableStates(es: seq<Event>)
    requires IsRun(es)
    ensures After(es).Some?
    ensures var s := After(es).value;
            && Sound(s)
            && |s.clients| == Accepts(es) - Removals(es)
  {
    hide Next;
    if es != [] {
      var rest, e := es[..|es| - 1], es[|es| - 1];
      ReachableStates(rest);
      NextIsSound(After(rest).value, e);
    }
  }

  lemma NextIsSound(s: State, e: Event)
    requires Sound(s) && Enabled(s, e)
    ensures Next(s, e).Some? && Sound(Next(s, e).value)
    ensures |Next(s, e).value.clients| ==
            |s.clients| + (if e.Accept? then 1 else if e.Leave? then -1 else if e.Tick? then -|e.kicked| else 0)
  {
    var t := Next(s, e).value;
    match e
    case Accept(socket, u) =>
      assert |t.clients| == |s.clients| + 1;
    case Leave(socket) =>
      Removed(s.clients, {socket});
    case Tick(now, kicked) =>
      Removed(s.clients, kicked);
    case _ =>
      assert t.clients.Keys == s.clients.Keys;
      assert |t.clients.Keys| == |t.clients|;
  }

  lemma Removed(m: map<int, Client>, gone: set<int>)
    requires gone <= m.Keys
    ensures |m - gone| == |m| - |gone|
  {
    assert (m - gone).Keys == m.Keys - gone;
    assert |m.Keys - gone| == |m.Keys| - |gone|;
    assert |(m - gone).Keys| == |m - gone| && |m.Keys| == |m|;
  }

  // ----- What a record holds -----

  /** When the server last heard of a connection by random access or pong. */
  function LastHeard(es: seq<Event>, socket: int): Option<int> {
    if es == [] then None else
      match es[|es| - 1]
      case Accept(k, _) => if k == socket then None else LastHeard(es[..|es| - 1], socket)
      case RandomAccess(k, _, now) => if k == socket then Some(now) else LastHeard(es[..|es| - 1], socket)
      case Pong(k, now) => if k == socket then Some(now) else LastHeard(es[..|es| - 1], socket)
      case _ => LastHeard(es[..|es| - 1], socket)
  }

  /** Whether the connection has done random access since it was accepted. */
  predicate HasRandomAccess(es: seq<Event>, socket: int) {
    es != [] &&
    match es[|es| - 1]
    case Accept(k, _) => k != socket && HasRandomAccess(es[..|es| - 1], socket)
    case RandomAccess(k, _, _) => k == socket || HasRandomAccess(es[..|es| - 1], socket)
    case _ => HasRandomAccess(es[..|es| - 1], socket)
  }

  /** Whether the socket was accepted and has not left or been kicked since. */
  predicate Connected(es: seq<Event>, socket: int) {
    es != [] &&
    match es[|es| - 1]
    case Accept(k, _) => k == socket || Connected(es[..|es| - 1], socket)
    case Leave(k) => k != socket && Connected(es[..|es| - 1], socket)
    case Tick(_, kicked) => socket !in kicked && Connected(es[..|es| - 1], socket)
    case _ => Connected(es[..|es| - 1], socket)
  }

  /** What malloc's memory held when the connection was accepted. */
  function MemoryOf(es: seq<Event>, socket: int): Client {
    if es == [] then Client(socket, 0, 0, 0, 0, 0)
    else if es[|es| - 1].Accept? && es[|es| - 1].socket == socket then es[|es| - 1].uninitialized
    else MemoryOf(es[..|es| - 1], socket)
  }

  /** The latest battery state of the connection: random access counts as a report of OK. */
  function LastBattery(es: seq<Event>, socket: int): Option<int> {
    if es == [] then None else
      match es[|es| - 1]
      case Accept(k, _) => if k == socket then None else LastBattery(es[..|es| - 1], socket)
      case RandomAccess(k, _, _) => if k == socket then Some(OK) else LastBattery(es[..|es| - 1], socket)
      case BatteryLow(k) => if k == socket then Some(LOW) else LastBattery(es[..|es| - 1], socket)
      case BatteryHigh(k) => if k == socket then Some(OK) else LastBattery(es[..|es| - 1], socket)
      case _ => LastBattery(es[..|es| - 1], socket)
  }

  /** RA-RNTI and time of the connection's latest random access. */
  function LastAccess(es: seq<Event>, socket: int): Option<(int, int)> {
    if es == [] then None else
      match es[|es| - 1]
      case Accept(k, _) => if k == socket then None else LastAccess(es[..|es| - 1], socket)
      case RandomAccess(k, raRnti, now) =>
        if k == socket then Some((raRnti, now)) else LastAccess(es[..|es| - 1], socket)
      case _ => LastAccess(es[..|es| - 1], socket)
  }

  /** A record in terms of what happened to its connection. What nothing has set is what malloc returned. */
  predicate Recorded(c: Client, memory: Client, heard: Option<int>, battery: Option<int>, access: Option<(int, int)>) {
    && c.lastActivity == (if heard.Some? then heard.value else memory.lastActivity)
    && c.battery == (if battery.Some? then battery.value else memory.battery)
    && c.rnti == (if access.Some? then access.value.0 else memory.rnti)
    && c.firstConnection == (if access.Some? then access.value.1 else memory.firstConnection)
    && c.preambleIndex == (if access.Some? then PreambleIndex(access.value.0) else memory.preambleIndex)
  }

  /** In every run exactly the connected sockets are registered, and every field of a record is the last
      thing that the connection did to it. */
  lemma {:induction false} RecordsAreTheHistory(es: seq<Event>, socket: int)
    requires IsRun(es)
    ensures After(es).Some?
    ensures socket in After(es).value.clients <==> Connected(es, socket)
    ensures socket in After(es).value.clients ==>
              Recorded(After(es).value.clients[socket], MemoryOf(es, socket), LastHeard(es, socket),
                       LastBattery(es, socket), LastAccess(es, socket))
  {
    hide Next, Recorded, Enabled, Sound;
    if es != [] {
      var rest := es[..|es| - 1];
      ReachableStates(es);
      RecordsAreTheHistory(rest, socket);
      HistoryGoesOn(rest, es[|es| - 1], After(rest).value, socket);
      assert es == rest + [es[|es| - 1]];
    }
  }

  lemma HistoryGoesOn(rest: seq<Event>, e: Event, s: State, socket: int)
    requires Next(s, e).Some?
    requires socket in s.clients <==> Connected(rest, socket)
    requires socket in s.clients ==>
               Recorded(s.clients[socket], MemoryOf(rest, socket), LastHeard(rest, socket),
                        LastBattery(rest, socket), LastAccess(rest, socket))
    ensures var es, t := rest + [e], Next(s, e).value;
            && (socket in t.clients <==> Connected(es, socket))
            && (socket in t.clients ==>
                  Recorded(t.clients[socket], MemoryOf(es, socket), LastHeard(es, socket),
                           LastBattery(es, socket), LastAccess(es, socket)))
  {
    hide PreambleIndex;
    assert (rest + [e])[..|rest|] == rest;
  }

  /** In every run the stored battery state is the one that was last reported. */
  lemma BatteryIsLastReport(es: seq<Event>, socket: int)
    requires IsRun(es) && Connected(es, socket) && LastBattery(es, socket).Some?
    ensures After(es).Some? && socket in After(es).value.clients
    ensures After(es).value.clients[socket].battery == LastBattery(es, socket).value
  {
    RecordsAreTheHistory(es, socket);
  }

  /** The client has been quiet for more than 5 seconds with a good battery, or more than 10 with a low
      one. A battery state that is neither asks for no ping. */
  predicate Due(memory: Client, heard: Option<int>, battery: Option<int>, now: int) {
    var state := if battery.Some? then battery.value else memory.battery;
    (state == OK && Quiet(memory, heard, now) > 5) || (state == LOW && Quiet(memory, heard, now) > 10)
  }

  /** The seconds since the server last heard of a connection, or, if it has not, since the time that
      the new record happened to hold. */
  function Quiet(memory: Client, heard: Option<int>, now: int): int {
    now - if heard.Some? then heard.value else memory.lastActivity
  }

  /** When a registered client is pinged, in every run. */
  lemma PingedWhenDue(es: seq<Event>, socket: int, now: int)
    requires IsRun(es) && Connected(es, socket)
    ensures After(es).Some? && socket in After(es).value.clients
    ensures ShouldPing(After(es).value.clients[socket], now) <==>
            Due(MemoryOf(es, socket), LastHeard(es, socket), LastBattery(es, socket), now)
    ensures LastHeard(es, socket).Some? && LastBattery(es, socket).Some? ==>
              (ShouldPing(After(es).value.clients[socket], now) <==>
               now - LastHeard(es, socket).value > if LastBattery(es, socket).value == LOW then 10 else 5)
  {
    RecordsAreTheHistory(es, socket);
    ReportedStates(es, socket);
  }

  lemma {:induction false} ReportedStates(es: seq<Event>, socket: int)
    ensures LastBattery(es, socket) in {None, Some(OK), Some(LOW)}
  {
    if es != [] {
      ReportedStates(es[..|es| - 1], socket);
    }
  }

  lemma {:induction false} RecordsFollowTheRun(es: seq<Event>, socket: int)
    requires IsRun(es)
    requires After(es).Some? && socket in After(es).value.clients
    ensures var c := After(es).value.clients[socket];
            && (LastHeard(es, socket).Some? ==> c.lastActivity == LastHeard(es, socket).value)
            && (HasRandomAccess(es, socket) ==> LastHeard(es, socket).Some? && c.battery in {OK, LOW})
  {
    if es != [] {
      var rest, e := es[..|es| - 1], es[|es| - 1];
      ReachableStates(rest);
      if socket in After(rest).value.clients {
        RecordsFollowTheRun(rest, socket);
      }
    }
  }

  // ----- Who gets kicked -----

  /** A tick kicks no client that was heard of, by random access or pong, at most 4000 s before. */
  lemma KickedOnlyWhenSilent(es: seq<Event>, now: int, kicked: set<int>, socket: int)
    requires IsRun(es + [Tick(now, kicked)])
    requires socket in kicked && LastHeard(es, socket).Some?
    ensures now - LastHeard(es, socket).value > PING_TIMEOUT
  {
    assert (es + [Tick(now, kicked)])[..|es|] == es;
    RecordsFollowTheRun(es, socket);
  }

  /** The same for every client that is kicked, also for one that was never heard of. */
  lemma KickedOnlyWhenQuiet(es: seq<Event>, now: int, kicked: set<int>, socket: int)
    requires IsRun(es + [Tick(now, kicked)])
    requires socket in kicked
    ensures Connected(es, socket) && Quiet(MemoryOf(es, socket), LastHeard(es, socket), now) > 4000
  {
    assert (es + [Tick(now, kicked)])[..|es|] == es;
    RecordsAreTheHistory(es, socket);
  }

  /** Whether the battery state of the connection is one that the server knows: it was set by random
      access or a battery report since accept, or malloc's memory happened to hold such a value. */
  predicate BatteryKnown(es: seq<Event>, socket: int) {
    es != [] &&
    match es[|es| - 1]
    case Accept(k, u) => if k == socket then u.battery in {OK, LOW} else BatteryKnown(es[..|es| - 1], socket)
    case RandomAccess(k, _, _) => k == socket || BatteryKnown(es[..|es| - 1], socket)
    case BatteryLow(k) => k == socket || BatteryKnown(es[..|es| - 1], socket)
    case BatteryHigh(k) => k == socket || BatteryKnown(es[..|es| - 1], socket)
    case _ => BatteryKnown(es[..|es| - 1], socket)
  }

  lemma {:induction false} KnownMeansReported(es: seq<Event>, socket: int)
    requires Connected(es, socket)
    ensures BatteryKnown(es, socket) <==> LastBattery(es, socket).Some? || MemoryOf(es, socket).battery in {OK, LOW}
  {
    var rest := es[..|es| - 1];
    if Connected(rest, socket) {
      KnownMeansReported(rest, socket);
    }
  }

  lemma {:induction false} BatteryFollowsTheRun(es: seq<Event>, socket: int)
    requires IsRun(es)
    requires After(es).Some? && socket in After(es).value.clients
    ensures After(es).value.clients[socket].battery in {OK, LOW} <==> BatteryKnown(es, socket)
    ensures HasRandomAccess(es, socket) ==> BatteryKnown(es, socket)
  {
    if es != [] {
      var rest, e := es[..|es| - 1], es[|es| - 1];
      ReachableStates(rest);
      if socket in After(rest).value.clients {
        BatteryFollowsTheRun(rest, socket);
      }
    }
  }

  /** A stale client is pinged if and only if its battery state is one of the two that the server knows. */
  lemma StaleIsPinged(c: Client, now: int)
    requires IsStale(c, now)
    ensures ShouldPing(c, now) <==> c.battery in {OK, LOW}
  {
  }

  /** Whoever is kicked was pinged in the same tick, before, if and only if its battery state was known
      by then. After random access it always is. */
  lemma PingedBeforeKicked(es: seq<Event>, now: int, kicked: set<int>, socket: int)
    requires IsRun(es + [Tick(now, kicked)])
    requires socket in kicked
    ensures After(es).Some? && socket in After(es).value.clients
    ensures ShouldPing(After(es).value.clients[socket], now) <==> BatteryKnown(es, socket)
    ensures HasRandomAccess(es, socket) ==> BatteryKnown(es, socket)
  {
    assert (es + [Tick(now, kicked)])[..|es|] == es;
    BatteryFollowsTheRun(es, socket);
    StaleIsPinged(After(es).value.clients[socket], now);
  }

  /** Without random access the rest of the record is what malloc returned, and then a client can be
      kicked without a ping. */
  lemma KickedWithoutPing()
    ensures var u := Client(0, 0, 0, 0, 0, 7);
            var es := [Accept(5, u)];
            && IsRun(es + [Tick(4001, {5})])
            && 5 in After(es).value.clients && !ShouldPing(After(es).value.clients[5], 4001)
  {
    var u := Client(0, 0, 0, 0, 0, 7);
    var es := [Accept(5, u)];
    assert es[..0] == [] && (es + [Tick(4001, {5})])[..1] == es;
    var s := State({5}, map[5 := u.(socket := 5)]);
    assert After(es) == Some(s) by { assert {} + {5} == {5}; }
    assert IsRun(es) by { assert IsRun([]) && Enabled(INITIAL, es[0]); }
    assert Stale(s.clients, 4001) == {5} && Stale(s.clients - {5}, 4001) == {};
    assert Enabled(s, Tick(4001, {5}));
  }

  // ----- Ticks in a row -----

  lemma TickHalves(es: seq<Event>, e: Event)
    requires IsRun(es + [e]) && e.Tick?
    ensures IsRun(es) && After(es).Some? && After(es + [e]).Some?
    ensures 2 * |Stale(After(es + [e]).value.clients, e.now)| <= |Stale(After(es).value.clients, e.now)|
  {
    assert (es + [e])[..|es|] == es;
  }

  /** k ticks at one clock reading leave at most n / 2^k of n stale clients. */
  lemma {:induction false} TicksHalve(es: seq<Event>, ticks: seq<Event>, now: int)
    requires IsRun(es + ticks)
    requires forall j :: 0 <= j < |ticks| ==> ticks[j].Tick? && ticks[j].now == now
    ensures After(es).Some? && After(es + ticks).Some?
    ensures Pow2(|ticks|) * |Stale(After(es + ticks).value.clients, now)| <= |Stale(After(es).value.clients, now)|
  {
    hide After, IsRun, Stale;
    ReachableStates(es + ticks);
    if ticks == [] {
      assert es + ticks == es;
    } else {
      var n := |ticks| - 1;
      assert es + ticks == es + ticks[..n] + [ticks[n]];
      TickHalves(es + ticks[..n], ticks[n]);
      TicksHalve(es, ticks[..n], now);
      HalvedAgain(Pow2(n), |Stale(After(es + ticks).value.clients, now)|,
                  |Stale(After(es + ticks[..n]).value.clients, now)|);
    }
  }

  /** So fewer than 2^k stale clients are all gone after k such ticks. */
  lemma TicksFinish(es: seq<Event>, ticks: seq<Event>, now: int)
    requires IsRun(es + ticks)
    requires forall j :: 0 <= j < |ticks| ==> ticks[j].Tick? && ticks[j].now == now
    requires After(es).Some? && |Stale(After(es).value.clients, now)| < Pow2(|ticks|)
    ensures After(es + ticks).Some? && Stale(After(es + ticks).value.clients, now) == {}
  {
    TicksHalve(es, ticks, now);
    var x := |Stale(After(es + ticks).value.clients, now)|;
    if x >= 1 {
      MulStep(Pow2(|ticks|), 0, x);
      assert false;
    }
  }
}
