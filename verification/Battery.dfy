/** The battery of the simulated user equipment (clientLTE/user_equipment.c): it runs down and charges
    up in steps, and may notify the server once on its way down and once on its way up. With working
    sends every charge notifies; a discharge does so exactly if some check meets a level in the window
    that belongs to its step, and pings can make all checks miss. */
module Battery {
  import opened Int8s

  const LOW_BATTERY_THRESHOLD := 20
  const STEP := 12
  const DECREASE_AMOUNT := 2

  datatype Note = Silent | LowSent | HighSent

  datatype State = State(power: int8, low: bool, charging: bool, sent: bool)

  /** An update of the main loop (with or without an elapsed second) or a ping from the server. sendOk
      is the outcome of a write to the socket, if there is one. */
  datatype Event = Update(tick: bool, sendOk: bool) | Ping(sendOk: bool)

  const INITIAL := State(100, false, false, false)

  // ----- The steps as functions -----

  /** check_battery_status */
  function Check(s: State, step: int, sendOk: bool): (State, Note) {
    if s.power <= LOW_BATTERY_THRESHOLD && LOW_BATTERY_THRESHOLD - step < s.power && !s.charging then
      var t := s.(low := true);
      if !s.sent && sendOk then (t.(sent := true), LowSent) else (t, Silent)
    else if s.power >= LOW_BATTERY_THRESHOLD && LOW_BATTERY_THRESHOLD + step > s.power && s.charging then
      var t := s.(low := false);
      if !s.sent && sendOk then (t.(sent := true), HighSent) else (t, Silent)
    else (s, Silent)
  }

  /** The level after the charge or discharge of a tick, as an int and before it is stored. */
  function RawLevel(s: State): int {
    if s.charging then s.power + STEP else s.power - STEP
  }

  /** An empty battery starts to charge, a full one to discharge. */
  function Bounce(s: State, raw: int8): State {
    if raw <= 0 then s.(power := 0, charging := true, sent := false)
    else if raw >= 100 then s.(power := 100, charging := false, sent := false)
    else s.(power := raw)
  }

  function Next(s: State, e: Event): (State, Note) {
    match e
    case Update(tick, sendOk) =>
      var (t, note) := Check(s, STEP, sendOk);
      (Bounce(t, if tick then Int8(RawLevel(t)) else t.power), note)
    case Ping(sendOk) =>
      var (t, note) := Check(s, DECREASE_AMOUNT, sendOk);
      (t.(power := if t.power - DECREASE_AMOUNT < 0 then 0 else Int8(t.power - DECREASE_AMOUNT)), note)
  }

  // ----- The object -----

  class UeBattery {
    var powerPercentage: int8
    var powerIsLow: bool
    var charging: bool
    var sentNotification: bool
    var startingTime: int

    function View(): State
      reads this
    {
      State(powerPercentage, powerIsLow, charging, sentNotification)
    }

    /** initialize_battery_life */
    constructor (now: int)
      ensures View() == INITIAL && startingTime == now
    {
      powerPercentage, powerIsLow, charging, sentNotification := 100, false, false, false;
      startingTime := now;
    }

    method CheckBatteryStatus(step: int, sendOk: bool) returns (note: Note)
      modifies this
      ensures (View(), note) == Check(old(View()), step, sendOk) && startingTime == old(startingTime)
    {
      note := Silent;
      if powerPercentage <= LOW_BATTERY_THRESHOLD && LOW_BATTERY_THRESHOLD - step < powerPercentage && !charging {
        powerIsLow := true;
        if !sentNotification {
          if sendOk {
            sentNotification := true;
            note := LowSent;
          }
        }
      } else if powerPercentage >= LOW_BATTERY_THRESHOLD && LOW_BATTERY_THRESHOLD + step > powerPercentage && charging {
        powerIsLow := false;
        if !sentNotification {
          if sendOk {
            sentNotification := true;
            note := HighSent;
          }
        }
      }
    }

    /** update_battery, with the clock as its two readings give it. */
    method UpdateBattery(now: int, later: int, sendOk: bool) returns (note: Note)
      modifies this
      ensures var tick := now - old(startingTime) >= 1;
              && (View(), note) == Next(old(View()), Update(tick, sendOk))
              && startingTime == if tick then later else old(startingTime)
    {
      note := CheckBatteryStatus(STEP, sendOk);
      if now - startingTime >= 1 {
        if !charging {
          powerPercentage := Int8(powerPercentage - STEP);
        } else {
          powerPercentage := Int8(powerPercentage + STEP);
        }
        startingTime := later;
      }
      if powerPercentage <= 0 {
        sentNotification := false;
        powerPercentage := 0;
        charging := true;
      } else if powerPercentage >= 100 {
        sentNotification := false;
        powerPercentage := 100;
        charging := false;
      }
    }

    /** decrease_after_ping */
    method DecreaseAfterPing(sendOk: bool) returns (note: Note)
      modifies this
      ensures (View(), note) == Next(old(View()), Ping(sendOk)) && startingTime == old(startingTime)
    {
      note := CheckBatteryStatus(DECREASE_AMOUNT, sendOk);
      if powerPercentage - DECREASE_AMOUNT < 0 {
        powerPercentage := 0;
      } else if powerPercentage != 0 && powerPercentage - DECREASE_AMOUNT >= 0 {
        powerPercentage := Int8(powerPercentage - DECREASE_AMOUNT);
      }
    }
  }

  // ----- Runs -----

  function After(es: seq<Event>): State {
    if es == [] then INITIAL else Next(After(es[..|es| - 1]), es[|es| - 1]).0
  }

  /** The notification of step j. */
  function NoteAt(es: seq<Event>, j: nat): Note
    requires j < |es|
  {
    Next(After(es[..j]), es[j]).1
  }

  predicate InRange(s: State) { 0 <= s.power <= 100 && s.power % 2 == 0 }

  lemma CheckKeeps(s: State, step: int, sendOk: bool)
    ensures Check(s, step, sendOk).0.power == s.power && Check(s, step, sendOk).0.charging == s.charging
  {
  }

  lemma NextStaysInRange(s: State, e: Event)
    requires InRange(s)
    ensures InRange(Next(s, e).0)
  {
    hide Int8, Check;
    var t := Check(s, if e.Update? then STEP else DECREASE_AMOUNT, e.sendOk).0;
    CheckKeeps(s, if e.Update? then STEP else DECREASE_AMOUNT, e.sendOk);
    Int8Fits(RawLevel(t));
    Int8Fits(t.power - DECREASE_AMOUNT);
    assert (s.power - STEP) % 2 == 0 && (s.power + STEP) % 2 == 0 && (s.power - DECREASE_AMOUNT) % 2 == 0;
  }

  /** In every reachable state the level is even and within 0..100, and the sums that a step stores
      fit into int8_t before they are cut. */
  lemma {:induction false} LevelStaysInRange(es: seq<Event>)
    ensures InRange(After(es))
    ensures Int8(RawLevel(After(es))) == RawLevel(After(es))
    ensures Int8(After(es).power - DECREASE_AMOUNT) == After(es).power - DECREASE_AMOUNT
  {
    hide Next, Int8;
    if es != [] {
      LevelStaysInRange(es[..|es| - 1]);
      NextStaysInRange(After(es[..|es| - 1]), es[|es| - 1]);
    }
    Int8Fits(RawLevel(After(es)));
    Int8Fits(After(es).power - DECREASE_AMOUNT);
  }

  /** Step j is an update that ends at a full or an empty battery. */
  ghost predicate Turns(es: seq<Event>, j: nat) {
    j < |es| && es[j].Update? && After(es[..j + 1]).power in {0, 100}
  }

  /** An update that ends at 0 leaves the battery charging, one that ends at 100 discharging. */
  lemma TurningDirection(es: seq<Event>, j: nat)
    requires Turns(es, j)
    ensures After(es[..j + 1]).charging <==> After(es[..j + 1]).power == 0
    ensures !After(es[..j + 1]).sent
  {
    assert es[..j + 1][..j] == es[..j];
    LevelStaysInRange(es[..j]);
  }

  lemma SentStep(s: State, e: Event)
    requires InRange(s)
    ensures var (t, note) := Next(s, e);
            t.sent <==> (s.sent || note != Silent) && !(e.Update? && t.power in {0, 100})
  {
    var t := Check(s, if e.Update? then STEP else DECREASE_AMOUNT, e.sendOk).0;
    assert t.power == s.power;
    if e.Update? && e.tick {
      assert Int8(RawLevel(t)) == RawLevel(t);
    }
  }

  /** Step i sent a notification, and no update from it on turned the battery before step n. */
  ghost predicate NotedSince(es: seq<Event>, i: nat, n: nat)
    requires n <= |es|
  {
    i < n && NoteAt(es, i) != Silent && forall k :: i <= k < n ==> !Turns(es, k)
  }

  /** The flag is set exactly when a notification went out and no update has turned the battery since. */
  lemma {:induction false} SentMeans(es: seq<Event>, n: nat)
    requires n <= |es|
    ensures After(es[..n]).sent <==> exists i: nat :: NotedSince(es, i, n)
  {
    hide Next, InRange;
    if n > 0 {
      SentMeans(es, n - 1);
      assert es[..n][..n - 1] == es[..n - 1];
      LevelStaysInRange(es[..n - 1]);
      SentStep(After(es[..n - 1]), es[n - 1]);
      if After(es[..n]).sent {
        if NoteAt(es, n - 1) != Silent {
          assert NotedSince(es, n - 1, n);
        } else {
          var i: nat :| NotedSince(es, i, n - 1);
          assert NotedSince(es, i, n);
        }
      }
      forall i: nat | NotedSince(es, i, n) ensures After(es[..n]).sent {
        assert i < n - 1 ==> NotedSince(es, i, n - 1);
        assert !Turns(es, n - 1);
      }
    }
  }

  lemma NoteNeedsFlag(s: State, e: Event)
    ensures Next(s, e).1 != Silent ==> !s.sent
  {
  }

  /** Between two notifications some update ended at 0 or at 100. */
  lemma NotesAreSeparated(es: seq<Event>, i: nat, j: nat)
    requires i < j < |es| && NoteAt(es, i) != Silent && NoteAt(es, j) != Silent
    ensures exists k :: i <= k < j && Turns(es, k)
  {
    if forall k :: i <= k < j ==> !Turns(es, k) {
      SentMeans(es, j);
      assert NotedSince(es, i, j);
      NoteNeedsFlag(After(es[..j]), es[j]);
      assert false;
    }
  }

  // ----- Which charges and discharges notify -----

  ghost predicate SendsWork(es: seq<Event>) {
    forall i :: 0 <= i < |es| ==> es[i].sendOk
  }

  function StepOf(e: Event): int { if e.Update? then STEP else DECREASE_AMOUNT }

  /** The battery discharges and its level is in the low window of the step: 9..20 for an update, 19..20
      for a ping. */
  predicate InLowWindow(s: State, e: Event) {
    !s.charging && LOW_BATTERY_THRESHOLD - StepOf(e) < s.power <= LOW_BATTERY_THRESHOLD
  }

  /** The battery charges and its level is in the high window of the step: 20..31 for an update, 20..21
      for a ping. */
  predicate InHighWindow(s: State, e: Event) {
    s.charging && LOW_BATTERY_THRESHOLD <= s.power < LOW_BATTERY_THRESHOLD + StepOf(e)
  }

  ghost predicate MeetsLowWindow(es: seq<Event>, k: nat)
    requires k < |es|
  {
    InLowWindow(After(es[..k]), es[k])
  }

  ghost predicate MeetsHighWindow(es: seq<Event>, k: nat)
    requires k < |es|
  {
    InHighWindow(After(es[..k]), es[k])
  }

  /** No update turns the battery from step i on, before step j. */
  ghost predicate SameWay(es: seq<Event>, i: nat, j: nat) {
    i <= j <= |es| && forall k :: i <= k < j ==> !Turns(es, k)
  }

  lemma WayStep(s: State, e: Event)
    requires InRange(s)
    ensures var (t, note) := Next(s, e);
            && (t.charging != s.charging ==> e.Update? && t.power in {0, 100})
            && (note == LowSent <==> InLowWindow(s, e) && e.sendOk && !s.sent)
            && (note == HighSent <==> InHighWindow(s, e) && e.sendOk && !s.sent)
            && (t.low <==> InLowWindow(s, e) || (s.low && !InHighWindow(s, e)))
  {
    hide Int8;
    var t := Check(s, StepOf(e), e.sendOk).0;
    assert t.power == s.power && t.charging == s.charging;
    Int8Fits(RawLevel(t));
  }

  /** A step notifies exactly if its check meets the window for the direction, its send works, and
      nothing has been sent since the battery last turned. */
  lemma NotesExactly(es: seq<Event>, k: nat)
    requires k < |es|
    ensures NoteAt(es, k) == LowSent <==>
            MeetsLowWindow(es, k) && es[k].sendOk && !exists i: nat :: NotedSince(es, i, k)
    ensures NoteAt(es, k) == HighSent <==>
            MeetsHighWindow(es, k) && es[k].sendOk && !exists i: nat :: NotedSince(es, i, k)
  {
    hide Next;
    LevelStaysInRange(es[..k]);
    WayStep(After(es[..k]), es[k]);
    SentMeans(es, k);
  }

  /** Before step n, the last check that met a window was that of step k and met the low one. */
  ghost predicate LowSince(es: seq<Event>, k: nat, n: nat)
    requires n <= |es|
  {
    k < n && MeetsLowWindow(es, k) && forall m :: k < m < n ==> !MeetsHighWindow(es, m)
  }

  /** The flag powerIsLow says which of the two windows a check met last. */
  lemma {:induction false} LowMeans(es: seq<Event>, n: nat)
    requires n <= |es|
    ensures After(es[..n]).low <==> exists k: nat :: LowSince(es, k, n)
  {
    hide Next, InLowWindow, InHighWindow;
    if n > 0 {
      LowMeans(es, n - 1);
      assert es[..n][..n - 1] == es[..n - 1];
      LevelStaysInRange(es[..n - 1]);
      WayStep(After(es[..n - 1]), es[n - 1]);
      OneWindow(After(es[..n - 1]), es[n - 1]);
      if After(es[..n]).low {
        var k: nat := if MeetsLowWindow(es, n - 1) then n - 1 else (var k: nat :| LowSince(es, k, n - 1); k);
        assert LowSince(es, k, n);
      }
      forall k: nat | LowSince(es, k, n) ensures After(es[..n]).low {
        assert k < n - 1 ==> LowSince(es, k, n - 1) && !MeetsHighWindow(es, n - 1);
      }
    }
  }

  lemma OneWindow(s: State, e: Event)
    ensures !(InLowWindow(s, e) && InHighWindow(s, e))
  {
  }

  lemma {:induction false} SameDirection(es: seq<Event>, i: nat, j: nat)
    requires SameWay(es, i, j)
    ensures After(es[..i]).charging == After(es[..j]).charging
    decreases j
  {
    hide Next;
    if i < j {
      assert !Turns(es, j - 1);
      SameDirection(es, i, j - 1);
      assert es[..j][..j - 1] == es[..j - 1];
      LevelStaysInRange(es[..j - 1]);
      WayStep(After(es[..j - 1]), es[j - 1]);
    }
  }

  /** A discharging battery has notified since it last turned exactly if some check since then met its low
      window and could send; a charging one exactly if some check met its high window and could. */
  lemma DischargeNotifies(es: seq<Event>, n: nat)
    requires n <= |es| && !After(es[..n]).charging
    ensures (exists i: nat :: i < n && SameWay(es, i, n) && NoteAt(es, i) == LowSent)
       <==> (exists k: nat :: k < n && SameWay(es, k, n) && MeetsLowWindow(es, k) && es[k].sendOk)
  {
    hide Next, InLowWindow, InHighWindow;
    forall i: nat | i < n && SameWay(es, i, n) && NoteAt(es, i) == LowSent
      ensures MeetsLowWindow(es, i) && es[i].sendOk
    {
      NotesExactly(es, i);
    }
    forall k: nat | k < n && SameWay(es, k, n) && MeetsLowWindow(es, k) && es[k].sendOk
      ensures exists i: nat :: i < n && SameWay(es, i, n) && NoteAt(es, i) == LowSent
    {
      SomeNote(es, k, n);
    }
  }

  lemma ChargeNotifies(es: seq<Event>, n: nat)
    requires n <= |es| && After(es[..n]).charging
    ensures (exists i: nat :: i < n && SameWay(es, i, n) && NoteAt(es, i) == HighSent)
       <==> (exists k: nat :: k < n && SameWay(es, k, n) && MeetsHighWindow(es, k) && es[k].sendOk)
  {
    hide Next, InLowWindow, InHighWindow;
    forall i: nat | i < n && SameWay(es, i, n) && NoteAt(es, i) == HighSent
      ensures MeetsHighWindow(es, i) && es[i].sendOk
    {
      NotesExactly(es, i);
    }
    forall k: nat | k < n && SameWay(es, k, n) && MeetsHighWindow(es, k) && es[k].sendOk
      ensures exists i: nat :: i < n && SameWay(es, i, n) && NoteAt(es, i) == HighSent
    {
      SomeNote(es, k, n);
    }
  }

  /** A window that is met when a send works leaves a notification on this way. */
  lemma SomeNote(es: seq<Event>, k: nat, n: nat)
    requires k < n && SameWay(es, k, n) && es[k].sendOk && (MeetsLowWindow(es, k) || MeetsHighWindow(es, k))
    ensures exists i: nat ::
              i < n && SameWay(es, i, n) && NoteAt(es, i) == if After(es[..n]).charging then HighSent else LowSent
  {
    hide Next, InLowWindow, InHighWindow;
    NotesExactly(es, k);
    var i: nat := if NoteAt(es, k) != Silent then k else (var i: nat :| NotedSince(es, i, k); i);
    NoteOnTheWay(es, i, n);
  }

  /** A notification since the last turn is of the kind that the direction says. */
  lemma NoteOnTheWay(es: seq<Event>, i: nat, n: nat)
    requires i < n && SameWay(es, i, n) && NoteAt(es, i) != Silent
    ensures NoteAt(es, i) == if After(es[..n]).charging then HighSent else LowSent
  {
    hide Next;
    SameDirection(es, i, n);
    NotesExactly(es, i);
  }

  /** A charge cannot jump over the window 20..31 of an update: above it, the flag is set. */
  ghost predicate ChargeNoted(s: State) {
    s.charging && s.power >= LOW_BATTERY_THRESHOLD + STEP ==> s.sent
  }

  lemma ChargeStep(s: State, e: Event)
    requires InRange(s) && ChargeNoted(s) && e.sendOk
    ensures ChargeNoted(Next(s, e).0)
  {
    var t := Check(s, StepOf(e), true).0;
    assert t.power == s.power && t.charging == s.charging;
    if e.Update? && e.tick {
      assert Int8(RawLevel(t)) == RawLevel(t);
    }
  }

  lemma {:induction false} ChargesAreNoted(es: seq<Event>)
    requires SendsWork(es)
    ensures ChargeNoted(After(es))
  {
    hide Next, ChargeNoted, InRange;
    if es == [] {
      assert ChargeNoted(INITIAL) by { FullIsNoted(); }
    } else {
      var n := |es| - 1;
      ChargesAreNoted(es[..n]);
      LevelStaysInRange(es[..n]);
      ChargeStep(After(es[..n]), es[n]);
    }
  }

  lemma FullIsNoted()
    ensures ChargeNoted(INITIAL)
  {
  }

  /** With working sends every charge that gets to 100 has sent its high notification, however many pings
      came in between. */
  lemma EveryChargeNotifies(es: seq<Event>, j: nat)
    requires SendsWork(es) && Turns(es, j) && After(es[..j]).charging && After(es[..j + 1]).power == 100
    ensures exists i: nat :: i < j && SameWay(es, i, j) && NoteAt(es, i) == HighSent
  {
    var s := After(es[..j]);
    LevelStaysInRange(es[..j]);
    assert es[..j + 1][..j] == es[..j];
    assert s.power >= LOW_BATTERY_THRESHOLD + STEP by { AlmostFull(s, es[j]); }
    ChargesAreNoted(es[..j]);
    SentMeans(es, j);
    var i: nat :| NotedSince(es, i, j);
    NoteOnTheWay(es, i, j);
  }

  lemma AlmostFull(s: State, e: Event)
    requires InRange(s) && s.charging && e.Update? && Next(s, e).0.power == 100
    ensures s.power >= LOW_BATTERY_THRESHOLD + STEP
  {
    var t := Check(s, STEP, e.sendOk).0;
    assert t.power == s.power && t.charging == s.charging;
    if e.tick {
      assert Int8(RawLevel(t)) == RawLevel(t);
    }
  }

  // ----- The level -----

  function TicksIn(es: seq<Event>, i: nat, j: nat): nat
    requires j <= |es|
  {
    if j <= i then 0 else TicksIn(es, i, j - 1) + if es[j - 1].Update? && es[j - 1].tick then 1 else 0
  }

  function PingsIn(es: seq<Event>, i: nat, j: nat): nat
    requires j <= |es|
  {
    if j <= i then 0 else PingsIn(es, i, j - 1) + if es[j - 1].Ping? then 1 else 0
  }

  lemma LevelStep(s: State, e: Event)
    requires InRange(s)
    ensures var t := Next(s, e).0;
            var level := s.power + if e.Ping? || !e.tick then 0 else if s.charging then 12 else -12;
            if e.Ping? then t.power == if s.power == 0 then 0 else s.power - 2
            else t.power == if level <= 0 then 0 else if level >= 100 then 100 else level
  {
    hide Int8, Check;
    var t := Check(s, StepOf(e), e.sendOk).0;
    CheckKeeps(s, StepOf(e), e.sendOk);
    Int8Fits(RawLevel(t));
    Int8Fits(t.power - DECREASE_AMOUNT);
  }

  /** As long as the battery does not turn and no ping finds it empty, the level is accounted for: 12 for
      every tick, up or down as the direction says, and always 2 down for every ping. */
  lemma {:induction false} LevelAccounts(es: seq<Event>, i: nat, j: nat)
    requires SameWay(es, i, j)
    requires forall k :: i <= k < j && es[k].Ping? ==> After(es[..k]).power > 0
    ensures After(es[..j]).power ==
            After(es[..i]).power + (if After(es[..i]).charging then 12 else -12) * TicksIn(es, i, j)
            - 2 * PingsIn(es, i, j)
    decreases j
  {
    hide Next, InRange;
    if i < j {
      LevelAccounts(es, i, j - 1);
      SameDirection(es, i, j - 1);
      assert es[..j][..j - 1] == es[..j - 1];
      assert !Turns(es, j - 1);
      LevelStaysInRange(es[..j - 1]);
      LevelStep(After(es[..j - 1]), es[j - 1]);
    }
  }

  /** A ping that finds the battery empty leaves it so. */
  lemma EmptyStaysEmpty(es: seq<Event>, k: nat)
    requires k < |es| && es[k].Ping? && After(es[..k]).power == 0
    ensures After(es[..k + 1]).power == 0 && After(es[..k + 1]).charging == After(es[..k]).charging
  {
    hide Next, InRange;
    assert es[..k + 1][..k] == es[..k];
    LevelStaysInRange(es[..k]);
    LevelStep(After(es[..k]), es[k]);
    WayStep(After(es[..k]), es[k]);
  }

  /** The battery turns exactly in the updates whose level, with 12 up or down if there was a tick, is not
      strictly between 0 and 100. It stops at these two. */
  lemma TurnsExactly(es: seq<Event>, j: nat)
    requires j < |es| && es[j].Update?
    ensures var s := After(es[..j]);
            var level := s.power + if !es[j].tick then 0 else if s.charging then 12 else -12;
            && (Turns(es, j) <==> level <= 0 || level >= 100)
            && After(es[..j + 1]).power == if level <= 0 then 0 else if level >= 100 then 100 else level
  {
    hide Next, InRange;
    assert es[..j + 1][..j] == es[..j];
    LevelStaysInRange(es[..j]);
    LevelStep(After(es[..j]), es[j]);
  }

  /** The states of a run, one by one. */
  ghost predicate StatesOf(es: seq<Event>, states: seq<State>) {
    && |states| == |es| + 1 && states[0] == INITIAL
    && forall k :: 0 <= k < |es| ==> Next(states[k], es[k]) == (states[k + 1], Silent)
  }

  lemma {:induction false} SilentStates(es: seq<Event>, states: seq<State>, n: nat)
    requires StatesOf(es, states) && n <= |es|
    ensures After(es[..n]) == states[n]
    ensures forall k :: 0 <= k < n ==> NoteAt(es, k) == Silent
  {
    hide Next;
    if n > 0 {
      SilentStates(es, states, n - 1);
      assert es[..n][..n - 1] == es[..n - 1];
    }
  }

  const TICK := Update(true, true)
  const PING := Ping(true)

  /** A run with working sends that empties the battery without any notification: the level passes the
      update's window 9..20 while pings are checked, and the ping's window 19..20 while updates are. */
  const SILENT_DISCHARGE := [TICK, TICK, TICK, TICK, TICK, TICK, PING, PING, PING, TICK, PING, TICK]

  /** A discharging battery at level p that has not notified. */
  function Down(p: int8): State { State(p, false, false, false) }

  lemma UnseenTick(p: int8)
    requires InRange(Down(p)) && !(8 < p <= 20)
    ensures Next(Down(p), TICK) == (if p > 12 then Down(p - 12) else State(0, false, true, false), Silent)
  {
    assert Int8(p - 12) == p - 12;
  }

  lemma UnseenPing(p: int8)
    requires InRange(Down(p)) && !(18 < p <= 20) && p >= 2
    ensures Next(Down(p), PING) == (Down(p - 2), Silent)
  {
    assert Int8(p - 2) == p - 2;
  }

  lemma SilentDischarge()
    ensures var es := SILENT_DISCHARGE;
            && SendsWork(es)
            && After(es).power == 0 && After(es).charging
            && forall k :: 0 <= k < |es| ==> NoteAt(es, k) == Silent
  {
    hide Next, After;
    var es := SILENT_DISCHARGE;
    var states := [Down(100), Down(88), Down(76), Down(64), Down(52), Down(40), Down(28), Down(26), Down(24), Down(22),
                   Down(10), Down(8), State(0, false, true, false)];
    UnseenTick(100);
    UnseenTick(88);
    UnseenTick(76);
    UnseenTick(64);
    UnseenTick(52);
    UnseenTick(40);
    UnseenPing(28);
    UnseenPing(26);
    UnseenPing(24);
    UnseenTick(22);
    UnseenPing(10);
    UnseenTick(8);
    SilentStates(es, states, |es|);
    assert es[..|es|] == es;
  }

  // ----- The undisturbed cycle -----

  function Updates(ticks: seq<bool>): seq<Event> {
    seq(|ticks|, i requires 0 <= i < |ticks| => Update(ticks[i], true))
  }

  function TickCount(ticks: seq<bool>): nat {
    if ticks == [] then 0 else TickCount(ticks[..|ticks| - 1]) + if ticks[|ticks| - 1] then 1 else 0
  }

  function Count(es: seq<Event>, note: Note): nat {
    if es == [] then 0 else
      var n := |es| - 1;
      Count(es[..n], note) + if Next(After(es[..n]), es[n]).1 == note then 1 else 0
  }

  /** Level, direction and flag in phase p of the cycle of 18 ticks. The flag is open only in the two
      phases at whose first update the notification goes out. */
  ghost predicate InPhase(s: State, p: nat) {
    && s.power == (if p < 9 then 100 - 12 * p else 12 * (p - 9))
    && (s.charging <==> p >= 9)
    && (p in {0, 1, 2, 3, 4, 5, 6, 9, 10} ==> !s.sent)
    && (p in {8, 12, 13, 14, 15, 16, 17} ==> s.sent)
  }

  lemma CycleStep(s: State, p: nat, tick: bool)
    requires p < 18 && InPhase(s, p)
    ensures var (t, note) := Next(s, Update(tick, true));
            && InPhase(t, if !tick then p else if p == 17 then 0 else p + 1)
            && (note == LowSent <==> p == 7 && !s.sent)
            && (note == HighSent <==> p == 11 && !s.sent)
            && (!tick && p in {7, 11} ==> t.sent)
            && (tick && p in {6, 10} ==> !t.sent)
  {
    var t := Check(s, STEP, true).0;
    assert t.power == s.power && Int8(RawLevel(t)) == RawLevel(t);
  }

  /** How many notifications n ticks make: one a cycle, at the first update of phase p. */
  function Expected(n: nat, p: nat, sent: bool): nat {
    n / 18 + if n % 18 > p || (n % 18 == p && sent) then 1 else 0
  }

  lemma CycleGoesOn(s: State, n: nat, tick: bool)
    requires InPhase(s, n % 18)
    ensures var (t, note) := Next(s, Update(tick, true));
            var m := n + if tick then 1 else 0;
            && InPhase(t, m % 18)
            && Expected(m, 7, t.sent) == Expected(n, 7, s.sent) + (if note == LowSent then 1 else 0)
            && Expected(m, 11, t.sent) == Expected(n, 11, s.sent) + (if note == HighSent then 1 else 0)
  {
    hide InPhase, Next;
    NextPhase(n);
    CycleStep(s, n % 18, tick);
  }

  /** Without pings and with working sends, the battery repeats a cycle of 18 ticks, however many
      updates fall between two ticks. Each cycle sends one low notification, at level 16, and one high
      notification, at level 24. */
  lemma {:induction false} UndisturbedCycle(ticks: seq<bool>)
    ensures var es, n := Updates(ticks), TickCount(ticks);
            var s := After(es);
            && InPhase(s, n % 18)
            && Count(es, LowSent) == Expected(n, 7, s.sent)
            && Count(es, HighSent) == Expected(n, 11, s.sent)
  {
    hide InPhase, Next, Expected;
    if ticks == [] {
      StartsInPhase();
    } else {
      var m := |ticks| - 1;
      UndisturbedCycle(ticks[..m]);
      assert Updates(ticks)[..m] == Updates(ticks[..m]);
      CycleGoesOn(After(Updates(ticks[..m])), TickCount(ticks[..m]), ticks[m]);
    }
  }

  lemma NextPhase(n: nat)
    ensures (n + 1) % 18 == if n % 18 == 17 then 0 else n % 18 + 1
    ensures (n + 1) / 18 == n / 18 + if n % 18 == 17 then 1 else 0
  {
  }

  lemma StartsInPhase()
    ensures InPhase(INITIAL, 0)
    ensures Expected(0, 7, INITIAL.sent) == 0 == Expected(0, 11, INITIAL.sent)
  {
  }

  lemma PhaseLevels(s: State, p: nat)
    requires InPhase(s, p)
    ensures (p == 7 ==> s.power == 16) && (p == 11 ==> s.power == 24)
  {
  }

  /** The levels at which an undisturbed battery sends. */
  lemma UndisturbedLevels(ticks: seq<bool>, j: nat)
    requires j < |ticks|
    ensures var es := Updates(ticks);
            && (NoteAt(es, j) == LowSent ==> After(es[..j]).power == 16)
            && (NoteAt(es, j) == HighSent ==> After(es[..j]).power == 24)
  {
    hide Next, InPhase;
    UndisturbedCycle(ticks[..j]);
    assert Updates(ticks)[..j] == Updates(ticks[..j]);
    CycleStep(After(Updates(ticks)[..j]), TickCount(ticks[..j]) % 18, ticks[j]);
    PhaseLevels(After(Updates(ticks)[..j]), TickCount(ticks[..j]) % 18);
  }

  // ----- Runs of the object -----

  /** A call from the client's two threads: an update with its two clock readings, or a ping. */
  datatype Call = UpdateAt(now: int, later: int, sendOk: bool) | PingIn(sendOk: bool)

  function StartAfter(start: int, calls: seq<Call>): int {
    if calls == [] then start else
      var n := |calls| - 1;
      var t := StartAfter(start, calls[..n]);
      if calls[n].UpdateAt? && calls[n].now - t >= 1 then calls[n].later else t
  }

  /** The calls as events: an update ticks when a second has passed. */
  function EventsOf(start: int, calls: seq<Call>): (es: seq<Event>)
    ensures |es| == |calls|
  {
    if calls == [] then [] else
      var n := |calls| - 1;
      EventsOf(start, calls[..n]) +
      [match calls[n]
       case UpdateAt(now, _, sendOk) => Update(now - StartAfter(start, calls[..n]) >= 1, sendOk)
       case PingIn(sendOk) => Ping(sendOk)]
  }

  predicate TicksAt(start: int, calls: seq<Call>, j: nat)
    requires j < |calls|
  {
    EventsOf(start, calls)[j].Update? && EventsOf(start, calls)[j].tick
  }

  lemma {:induction false} EventAt(start: int, calls: seq<Call>, j: nat)
    requires j < |calls|
    ensures EventsOf(start, calls)[j] ==
            match calls[j]
            case UpdateAt(now, _, sendOk) => Update(now - StartAfter(start, calls[..j]) >= 1, sendOk)
            case PingIn(sendOk) => Ping(sendOk)
    decreases |calls|
  {
    var n := |calls| - 1;
    if j < n {
      EventAt(start, calls[..n], j);
      assert calls[..n][..j] == calls[..j];
    }
  }

  /** No call from i on ticks before call j. */
  ghost predicate QuietFrom(start: int, calls: seq<Call>, i: nat, j: nat) {
    j <= |calls| && forall k: nat :: i <= k < j ==> !TicksAt(start, calls, k)
  }

  lemma {:induction false} StartIsKept(start: int, calls: seq<Call>, i: nat, j: nat)
    requires i <= j && QuietFrom(start, calls, i, j)
    ensures StartAfter(start, calls[..j]) == StartAfter(start, calls[..i])
    decreases j
  {
    hide EventsOf;
    if i < j {
      StartIsKept(start, calls, i, j - 1);
      EventAt(start, calls, j - 1);
      assert !TicksAt(start, calls, j - 1);
      assert calls[..j][..j - 1] == calls[..j - 1];
    }
  }

  /** An update ticks exactly if a full second has passed since the second clock reading of the last
      update that ticked, or since the start if none has. */
  lemma TickSpacing(start: int, calls: seq<Call>, j: nat)
    requires j < |calls| && calls[j].UpdateAt?
    ensures QuietFrom(start, calls, 0, j) ==> (TicksAt(start, calls, j) <==> calls[j].now - start >= 1)
    ensures forall i: nat :: i < j && TicksAt(start, calls, i) && QuietFrom(start, calls, i + 1, j) ==>
              calls[i].UpdateAt? && (TicksAt(start, calls, j) <==> calls[j].now - calls[i].later >= 1)
  {
    hide EventsOf;
    EventAt(start, calls, j);
    if QuietFrom(start, calls, 0, j) {
      StartIsKept(start, calls, 0, j);
    }
    forall i: nat | i < j && TicksAt(start, calls, i) && QuietFrom(start, calls, i + 1, j)
      ensures calls[i].UpdateAt? && StartAfter(start, calls[..j]) == calls[i].later
    {
      EventAt(start, calls, i);
      StartIsKept(start, calls, i + 1, j);
      assert calls[..i + 1][..i] == calls[..i];
    }
  }

  /** Any sequence of calls on a new battery sends the notifications that the run theorems speak of. */
  method Run(start: int, calls: seq<Call>) returns (notes: seq<Note>)
    ensures |notes| == |calls|
    ensures forall j :: 0 <= j < |calls| ==> notes[j] == NoteAt(EventsOf(start, calls), j)
  {
    hide Next;
    var battery := new UeBattery(start);
    notes := [];
    for i := 0 to |calls|
      invariant fresh(battery) && battery.startingTime == StartAfter(start, calls[..i])
      invariant battery.View() == After(EventsOf(start, calls[..i]))
      invariant |notes| == i && forall j :: 0 <= j < i ==> notes[j] == NoteAt(EventsOf(start, calls[..i]), j)
    {
      ghost var es, fs := EventsOf(start, calls[..i]), EventsOf(start, calls[..i + 1]);
      assert calls[..i + 1][..i] == calls[..i];
      assert fs[..i] == es && forall j :: 0 <= j < i ==> fs[..j] == es[..j];
      var note;
      match calls[i] {
        case UpdateAt(now, later, sendOk) => note := battery.UpdateBattery(now, later, sendOk);
        case PingIn(sendOk) => note := battery.DecreaseAfterPing(sendOk);
      }
      notes := notes + [note];
    }
    assert calls[..|calls|] == calls;
  }
}
