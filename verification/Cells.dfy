/** The measured cells of the simulated user equipment (clientLTE/user_equipment.c): two reflecting
    walks of the signal power, and the measurement events A1 to A4 (sections 5.5.4.2 to 5.5.4.5 of
    3GPP TS 36.331) without offsets or time to trigger. */
module Cells {
  import opened Int8s

  const NUMBER_OF_CELLS := 2
  const THRESHOLD_LOW: int8 := 19
  const THRESHOLD_HIGH: int8 := 77
  const MAX_RSRP: int8 := 97
  const COURSE: int8 := 5

  // ----- The walk of one cell -----

  datatype Cell = Cell(rsrp: int8, course: int8)

  /** One round of the loop in update_rsrps. */
  function Step(c: Cell): Cell {
    var r := Int8(c.rsrp as int + c.course as int);
    var r := if r > MAX_RSRP then MAX_RSRP else r;
    var r := if r < 0 then 0 else r;
    Cell(r, if r >= MAX_RSRP || r <= 0 then Int8(-(c.course as int)) else c.course)
  }

  function Steps(c: Cell, n: nat): Cell {
    if n == 0 then c else Step(Steps(c, n - 1))
  }

  /** The power is within 0..97, the course has one of two values and points inward at a boundary. */
  predicate Reflecting(c: Cell) {
    && 0 <= c.rsrp <= MAX_RSRP
    && (c.course == COURSE || c.course == -COURSE)
    && (c.rsrp == MAX_RSRP ==> c.course == -COURSE)
    && (c.rsrp == 0 ==> c.course == COURSE)
  }

  /** No sum of an update is cut. */
  lemma StepIs(c: Cell)
    requires Reflecting(c)
    ensures Int8(c.rsrp as int + c.course as int) == c.rsrp + c.course
    ensures var r := c.rsrp + c.course;
            Step(c) == if r >= MAX_RSRP then Cell(MAX_RSRP, -COURSE)
                       else if r <= 0 then Cell(0, COURSE)
                       else Cell(r, c.course)
  {
    hide Int8;
    Int8Fits(c.rsrp as int + c.course as int);
    Int8Fits(-(c.course as int));
  }

  /** Every update keeps that and needs no more than 8 bits. */
  lemma StepReflects(c: Cell)
    requires Reflecting(c)
    ensures Reflecting(Step(c))
    ensures Int8(c.rsrp as int + c.course as int) == c.rsrp + c.course
  {
    hide Step, Int8;
    StepIs(c);
  }

  /** The same over any number of updates: every reachable power and course is like that. */
  lemma {:induction false} WalkReflects(r: int8, n: nat)
    requires 0 <= r < MAX_RSRP
    ensures var c := Steps(Cell(r, COURSE), n);
            Reflecting(c) && Int8(c.rsrp as int + c.course as int) == c.rsrp + c.course
  {
    hide Step;
    if n == 0 {
      StepReflects(Cell(r, COURSE));
    } else {
      WalkReflects(r, n - 1);
      StepReflects(Steps(Cell(r, COURSE), n - 1));
      StepReflects(Steps(Cell(r, COURSE), n));
    }
  }

  /** Updates that a cell starting at r needs to reach the upper boundary for the first time. */
  function FirstHit(r: int): int { (MAX_RSRP - r + 4) / 5 }

  /** The walk that has just been reflected at the upper boundary: 20 updates down, 20 up. */
  function Wave(k: nat): Cell {
    WaveAt(k % 40)
  }

  /** The closed form of a cell: straight up to the first boundary, then a wave of period 40. */
  lemma {:induction false} ClosedForm(r: int8, n: nat)
    requires 0 <= r < MAX_RSRP
    ensures Steps(Cell(r, COURSE), n) ==
            if n < FirstHit(r) then Cell(r + 5 * n, COURSE) else Wave(n - FirstHit(r))
  {
    hide Wave, FirstHit, Step;
    if n == 0 {
      Climb(r, 0);
    } else {
      ClosedForm(r, n - 1);
      if n - 1 < FirstHit(r) {
        Climb(r, n - 1);
      } else {
        WaveStep(n - 1 - FirstHit(r));
      }
    }
  }

  lemma Climb(r: int8, n: nat)
    requires 0 <= r < MAX_RSRP && (n < FirstHit(r) || n == 0)
    ensures FirstHit(r) > 0
    ensures Step(Cell(r + 5 * n, COURSE)) == if n + 1 < FirstHit(r) then Cell(r + 5 * (n + 1), COURSE) else Wave(0)
  {
    hide Step;
    StepIs(Cell(r + 5 * n, COURSE));
  }

  lemma WaveStep(k: nat)
    ensures Step(Wave(k)) == Wave(k + 1)
  {
    hide Step;
    assert (k + 1) % 40 == if k % 40 == 39 then 0 else k % 40 + 1;
    WaveStepIn(k % 40);
  }

  /** The wave at place j of its period. */
  function WaveAt(j: nat): Cell
    requires j < 40
  {
    if j < 20 then Cell(MAX_RSRP - 5 * j, -COURSE) else Cell(5 * (j - 20), COURSE)
  }

  lemma WaveStepIn(j: nat)
    requires j < 40
    ensures Step(WaveAt(j)) == WaveAt(if j == 39 then 0 else j + 1)
  {
    hide Step;
    StepIs(WaveAt(j));
  }

  // ----- The measurement events -----

  datatype Event = A1 | A2 | A3 | A4 | NoEvent

  /** The static variables of check_events. */
  datatype Flags = Flags(eventChange: int8, a3Checked: bool, a4Checked: bool)

  /** One measurement: the power of the serving cell and of the neighbour. */
  datatype Measurement = Measurement(serving: int8, neighbour: int8)

  const INITIAL_FLAGS := Flags(5, false, false)

  function Arm(f: Flags, m: Measurement): Flags {
    var f := if m.serving < THRESHOLD_LOW && f.eventChange == 5 then f.(eventChange := 1) else f;
    if m.serving > THRESHOLD_HIGH && f.eventChange == 5 then f.(eventChange := 2) else f
  }

  /** check_events */
  function Check(f: Flags, m: Measurement): (Flags, Event) {
    var f := Arm(f, m);
    if m.serving > THRESHOLD_LOW && f.eventChange == 1 then (f.(eventChange := 5), A1)
    else if m.serving < THRESHOLD_HIGH && f.eventChange == 2 then (f.(eventChange := 5), A2)
    else
      var f := if m.neighbour < m.serving then f.(a3Checked := false) else f;
      if m.neighbour > m.serving && !f.a3Checked then (f.(eventChange := 5, a3Checked := true), A3)
      else
        var f := if m.neighbour < THRESHOLD_HIGH then f.(a4Checked := false) else f;
        if m.neighbour > THRESHOLD_HIGH && !f.a4Checked then (f.(eventChange := 5, a4Checked := true), A4)
        else (f, NoEvent)
  }

  function After(ms: seq<Measurement>): Flags {
    if ms == [] then INITIAL_FLAGS else Check(After(ms[..|ms| - 1]), ms[|ms| - 1]).0
  }

  /** What step j of a run of measurements reports. */
  function Report(ms: seq<Measurement>, j: nat): Event
    requires j < |ms|
  {
    Check(After(ms[..j]), ms[j]).1
  }

  ghost predicate Quiet(ms: seq<Measurement>, i: nat, j: nat)
    requires j <= |ms|
  {
    forall k :: i <= k < j ==> Report(ms, k) == NoEvent
  }

  /** Step i saw the serving cell below 19 (above 77), and nothing was reported from it on, up to j. */
  ghost predicate LowSince(ms: seq<Measurement>, i: nat, j: nat)
    requires j <= |ms|
  {
    i < j && ms[i].serving < THRESHOLD_LOW && Quiet(ms, i, j)
  }

  ghost predicate HighSince(ms: seq<Measurement>, i: nat, j: nat)
    requires j <= |ms|
  {
    i < j && ms[i].serving > THRESHOLD_HIGH && Quiet(ms, i, j)
  }

  lemma ArmStep(f: Flags, m: Measurement)
    requires f.eventChange in {1, 2, 5}
    ensures var (g, e) := Check(f, m);
            && g.eventChange in {1, 2, 5}
            && (g.eventChange == 1 <==> e == NoEvent && (f.eventChange == 1 || m.serving < THRESHOLD_LOW))
            && (g.eventChange == 2 <==> e == NoEvent && (f.eventChange == 2 || m.serving > THRESHOLD_HIGH))
            && (e == A1 <==> m.serving > THRESHOLD_LOW && f.eventChange == 1)
            && (e == A2 <==> m.serving < THRESHOLD_HIGH && f.eventChange == 2)
  {
  }

  lemma {:induction false} ArmedMeans(ms: seq<Measurement>, n: nat)
    requires n <= |ms|
    ensures After(ms[..n]).eventChange in {1, 2, 5}
    ensures After(ms[..n]).eventChange == 1 <==> exists i: nat :: LowSince(ms, i, n)
    ensures After(ms[..n]).eventChange == 2 <==> exists i: nat :: HighSince(ms, i, n)
  {
    hide Check;
    if n > 0 {
      ArmedMeans(ms, n - 1);
      assert ms[..n][..n - 1] == ms[..n - 1];
      var f, g := After(ms[..n - 1]), After(ms[..n]);
      ArmStep(f, ms[n - 1]);
      if g.eventChange == 1 {
        var i: nat := if f.eventChange == 1 then (var i: nat :| LowSince(ms, i, n - 1); i) else n - 1;
        assert LowSince(ms, i, n);
      }
      if g.eventChange == 2 {
        var i: nat := if f.eventChange == 2 then (var i: nat :| HighSince(ms, i, n - 1); i) else n - 1;
        assert HighSince(ms, i, n);
      }
      forall i: nat | LowSince(ms, i, n) ensures g.eventChange == 1 {
        assert i < n - 1 ==> LowSince(ms, i, n - 1);
        assert Report(ms, n - 1) == NoEvent;
      }
      forall i: nat | HighSince(ms, i, n) ensures g.eventChange == 2 {
        assert i < n - 1 ==> HighSince(ms, i, n - 1);
        assert Report(ms, n - 1) == NoEvent;
      }
    }
  }

  /** A1 is reported exactly when the serving cell is above 19 and was below 19 at an earlier step
      since which nothing was reported. */
  lemma A1Reports(ms: seq<Measurement>, j: nat)
    requires j < |ms|
    ensures Report(ms, j) == A1 <==> ms[j].serving > THRESHOLD_LOW && exists i: nat :: LowSince(ms, i, j)
  {
    ArmedMeans(ms, j);
    ArmStep(After(ms[..j]), ms[j]);
  }

  /** A2 is reported exactly when the serving cell is below 77 and was above 77 at an earlier step
      since which nothing was reported. */
  lemma A2Reports(ms: seq<Measurement>, j: nat)
    requires j < |ms|
    ensures Report(ms, j) == A2 <==> ms[j].serving < THRESHOLD_HIGH && exists i: nat :: HighSince(ms, i, j)
  {
    ArmedMeans(ms, j);
    ArmStep(After(ms[..j]), ms[j]);
  }

  /** Step k clears the A3 flag: the neighbour is below the serving cell. A step that reports A1 or A2
      returns before it looks. */
  ghost predicate Clears3(ms: seq<Measurement>, k: nat)
    requires k < |ms|
  {
    ms[k].neighbour < ms[k].serving && Report(ms, k) !in {A1, A2}
  }

  /** Step k clears the A4 flag: the neighbour is below 77, and no earlier return is taken. */
  ghost predicate Clears4(ms: seq<Measurement>, k: nat)
    requires k < |ms|
  {
    ms[k].neighbour < THRESHOLD_HIGH && Report(ms, k) !in {A1, A2, A3}
  }

  ghost predicate Reported3Since(ms: seq<Measurement>, i: nat, n: nat)
    requires n <= |ms|
  {
    i < n && Report(ms, i) == A3 && forall k :: i < k < n ==> !Clears3(ms, k)
  }

  ghost predicate Reported4Since(ms: seq<Measurement>, i: nat, n: nat)
    requires n <= |ms|
  {
    i < n && Report(ms, i) == A4 && forall k :: i < k < n ==> !Clears4(ms, k)
  }

  lemma FlagStep(f: Flags, m: Measurement)
    ensures var (g, e) := Check(f, m);
            && (g.a3Checked <==> e == A3 || (f.a3Checked && !(m.neighbour < m.serving && e !in {A1, A2})))
            && (g.a4Checked <==> e == A4 || (f.a4Checked && !(m.neighbour < THRESHOLD_HIGH && e !in {A1, A2, A3})))
            && (e == A3 <==> e !in {A1, A2} && m.neighbour > m.serving && !f.a3Checked)
            && (e == A4 <==> e !in {A1, A2, A3} && m.neighbour > THRESHOLD_HIGH && !f.a4Checked)
  {
  }

  lemma {:induction false} Checked3Means(ms: seq<Measurement>, n: nat)
    requires n <= |ms|
    ensures After(ms[..n]).a3Checked <==> exists i: nat :: Reported3Since(ms, i, n)
  {
    hide Check;
    if n > 0 {
      Checked3Means(ms, n - 1);
      assert ms[..n][..n - 1] == ms[..n - 1];
      FlagStep(After(ms[..n - 1]), ms[n - 1]);
      if After(ms[..n]).a3Checked {
        var i: nat := if Report(ms, n - 1) == A3 then n - 1 else (var i: nat :| Reported3Since(ms, i, n - 1); i);
        assert Reported3Since(ms, i, n);
      }
      forall i: nat | Reported3Since(ms, i, n) ensures After(ms[..n]).a3Checked {
        assert i < n - 1 ==> Reported3Since(ms, i, n - 1) && !Clears3(ms, n - 1);
      }
    }
  }

  lemma {:induction false} Checked4Means(ms: seq<Measurement>, n: nat)
    requires n <= |ms|
    ensures After(ms[..n]).a4Checked <==> exists i: nat :: Reported4Since(ms, i, n)
  {
    hide Check;
    if n > 0 {
      Checked4Means(ms, n - 1);
      assert ms[..n][..n - 1] == ms[..n - 1];
      FlagStep(After(ms[..n - 1]), ms[n - 1]);
      if After(ms[..n]).a4Checked {
        var i: nat := if Report(ms, n - 1) == A4 then n - 1 else (var i: nat :| Reported4Since(ms, i, n - 1); i);
        assert Reported4Since(ms, i, n);
      }
      forall i: nat | Reported4Since(ms, i, n) ensures After(ms[..n]).a4Checked {
        assert i < n - 1 ==> Reported4Since(ms, i, n - 1) && !Clears4(ms, n - 1);
      }
    }
  }

  /** A3 is reported exactly when no A1 or A2 is, the neighbour is above the serving cell, and since
      every earlier A3 some step cleared the flag. */
  lemma A3Reports(ms: seq<Measurement>, j: nat)
    requires j < |ms|
    ensures Report(ms, j) == A3 <==>
            && Report(ms, j) !in {A1, A2}
            && ms[j].neighbour > ms[j].serving
            && forall i :: 0 <= i < j && Report(ms, i) == A3 ==> exists k :: i < k < j && Clears3(ms, k)
  {
    Checked3Means(ms, j);
    FlagStep(After(ms[..j]), ms[j]);
    forall i | 0 <= i < j && Report(ms, i) == A3
      ensures Reported3Since(ms, i, j) <==> !exists k :: i < k < j && Clears3(ms, k)
    {
    }
  }

  /** A4 is reported exactly when no A1, A2 or A3 is, the neighbour is above 77, and since every
      earlier A4 some step cleared the flag. */
  lemma A4Reports(ms: seq<Measurement>, j: nat)
    requires j < |ms|
    ensures Report(ms, j) == A4 <==>
            && Report(ms, j) !in {A1, A2, A3}
            && ms[j].neighbour > THRESHOLD_HIGH
            && forall i :: 0 <= i < j && Report(ms, i) == A4 ==> exists k :: i < k < j && Clears4(ms, k)
  {
    Checked4Means(ms, j);
    FlagStep(After(ms[..j]), ms[j]);
    forall i | 0 <= i < j && Report(ms, i) == A4
      ensures Reported4Since(ms, i, j) <==> !exists k :: i < k < j && Clears4(ms, k)
    {
    }
  }

  // ----- The object -----

  /** s_cells, with the static variables of check_events. */
  class UeCells {
    const rsrp: array<int8>
    const course: array<int8>
    var startingTime: int
    var flags: Flags
    var currentEvent: Event

    ghost predicate Valid() {
      rsrp.Length == NUMBER_OF_CELLS && course.Length == NUMBER_OF_CELLS && rsrp != course
    }

    function CellAt(i: int): Cell
      requires Valid() && 0 <= i < NUMBER_OF_CELLS
      reads rsrp, course
    {
      Cell(rsrp[i], course[i])
    }

    /** initialize_cells, with the numbers that rand() % 97 gave. */
    constructor (r0: int8, r1: int8, now: int)
      requires 0 <= r0 < MAX_RSRP && 0 <= r1 < MAX_RSRP
      ensures Valid() && fresh(rsrp) && fresh(course)
      ensures CellAt(0) == Cell(r0, COURSE) && CellAt(1) == Cell(r1, COURSE)
      ensures flags == INITIAL_FLAGS && currentEvent == NoEvent && startingTime == now
    {
      rsrp := new int8[NUMBER_OF_CELLS](i => if i == 0 then r0 else r1);
      course := new int8[NUMBER_OF_CELLS](_ => COURSE);
      flags, currentEvent, startingTime := INITIAL_FLAGS, NoEvent, now;
    }

    /** One round of the loop in update_rsrps. */
    method UpdateCell(i: int)
      requires Valid() && 0 <= i < NUMBER_OF_CELLS
      modifies rsrp, course
      ensures CellAt(i) == Step(old(CellAt(i)))
      ensures forall j :: 0 <= j < NUMBER_OF_CELLS && j != i ==> CellAt(j) == old(CellAt(j))
    {
      rsrp[i] := Int8(rsrp[i] as int + course[i] as int);
      if rsrp[i] > MAX_RSRP {
        rsrp[i] := MAX_RSRP;
      }
      if rsrp[i] < 0 {
        rsrp[i] := 0;
      }
      if rsrp[i] >= MAX_RSRP || rsrp[i] <= 0 {
        course[i] := Int8(course[i] as int * -1);
      }
    }

    /** update_rsrps, with the clock as its two readings give it. */
    method UpdateRsrps(now: int, later: int)
      requires Valid()
      modifies rsrp, course, this`startingTime
      ensures var due := now - old(startingTime) > 1;
              && startingTime == (if due then later else old(startingTime))
              && forall i :: 0 <= i < NUMBER_OF_CELLS ==>
                   CellAt(i) == if due then Step(old(CellAt(i))) else old(CellAt(i))
    {
      if now - startingTime > 1 {
        for i := 0 to NUMBER_OF_CELLS
          invariant forall j :: 0 <= j < i ==> CellAt(j) == Step(old(CellAt(j)))
          invariant forall j :: i <= j < NUMBER_OF_CELLS ==> CellAt(j) == old(CellAt(j))
        {
          UpdateCell(i);
        }
        startingTime := later;
      }
    }

    /** check_events */
    method CheckEvents() returns (e: Event)
      requires Valid()
      modifies this`flags
      ensures (flags, e) == Check(old(flags), Measurement(rsrp[0], rsrp[1]))
    {
      if rsrp[0] < THRESHOLD_LOW && flags.eventChange == 5 {
        flags := flags.(eventChange := 1);
      }
      if rsrp[0] > THRESHOLD_HIGH && flags.eventChange == 5 {
        flags := flags.(eventChange := 2);
      }
      if rsrp[0] > THRESHOLD_LOW && flags.eventChange == 1 {
        flags := flags.(eventChange := 5);
        return A1;
      }
      if rsrp[0] < THRESHOLD_HIGH && flags.eventChange == 2 {
        flags := flags.(eventChange := 5);
        return A2;
      }
      if rsrp[1] < rsrp[0] {
        flags := flags.(a3Checked := false);
      }
      if rsrp[1] > rsrp[0] && !flags.a3Checked {
        flags := flags.(eventChange := 5, a3Checked := true);
        return A3;
      }
      if rsrp[1] < THRESHOLD_HIGH {
        flags := flags.(a4Checked := false);
      }
      if rsrp[1] > THRESHOLD_HIGH && !flags.a4Checked {
        flags := flags.(eventChange := 5, a4Checked := true);
        return A4;
      }
      return NoEvent;
    }

    /** set_current_signal_event */
    method SetCurrentSignalEvent(now: int, later: int)
      requires Valid()
      modifies this, rsrp, course
      ensures var due := now - old(startingTime) > 1;
              && startingTime == (if due then later else old(startingTime))
              && forall i :: 0 <= i < NUMBER_OF_CELLS ==>
                   CellAt(i) == if due then Step(old(CellAt(i))) else old(CellAt(i))
      ensures (flags, currentEvent) == Check(old(flags), Measurement(rsrp[0], rsrp[1]))
    {
      UpdateRsrps(now, later);
      currentEvent := CheckEvents();
    }
  }

  // ----- Runs of the object -----

  /** Two readings of the clock by update_rsrps. */
  datatype Reading = Reading(now: int, later: int)

  /** The starting time after some readings. */
  function StartAfter(start: int, readings: seq<Reading>): int {
    if readings == [] then start else
      var n := |readings| - 1;
      var t := StartAfter(start, readings[..n]);
      if readings[n].now - t > 1 then readings[n].later else t
  }

  /** How many of the readings made an update due. */
  function Updates(start: int, readings: seq<Reading>): nat {
    if readings == [] then 0 else
      var n := |readings| - 1;
      Updates(start, readings[..n]) + if readings[n].now - StartAfter(start, readings[..n]) > 1 then 1 else 0
  }

  /** The power of a cell that started at r with course +5, after n updates. */
  function Power(r: int8, n: nat): int8
    requires 0 <= r < MAX_RSRP
  {
    ClosedForm(r, n);
    if n < FirstHit(r) then r + 5 * n else Wave(n - FirstHit(r)).rsrp
  }

  function Measured(r0: int8, r1: int8, start: int, readings: seq<Reading>): Measurement
    requires 0 <= r0 < MAX_RSRP && 0 <= r1 < MAX_RSRP
  {
    Measurement(Power(r0, Updates(start, readings)), Power(r1, Updates(start, readings)))
  }

  function Measurements(r0: int8, r1: int8, start: int, readings: seq<Reading>): seq<Measurement>
    requires 0 <= r0 < MAX_RSRP && 0 <= r1 < MAX_RSRP
  {
    seq(|readings|, i requires 0 <= i < |readings| => Measured(r0, r1, start, readings[..i + 1]))
  }

  predicate DueAt(start: int, readings: seq<Reading>, j: nat)
    requires j < |readings|
  {
    Updates(start, readings[..j + 1]) == Updates(start, readings[..j]) + 1
  }

  /** No reading from i on makes an update due before reading j. */
  ghost predicate NoneDue(start: int, readings: seq<Reading>, i: nat, j: nat) {
    j <= |readings| && forall k: nat :: i <= k < j ==> !DueAt(start, readings, k)
  }

  lemma DueIs(start: int, readings: seq<Reading>, j: nat)
    requires j < |readings|
    ensures DueAt(start, readings, j) <==> readings[j].now - StartAfter(start, readings[..j]) > 1
    ensures StartAfter(start, readings[..j + 1]) ==
            if DueAt(start, readings, j) then readings[j].later else StartAfter(start, readings[..j])
  {
    assert readings[..j + 1][..j] == readings[..j];
  }

  lemma {:induction false} StartIsKept(start: int, readings: seq<Reading>, i: nat, j: nat)
    requires i <= j && NoneDue(start, readings, i, j)
    ensures StartAfter(start, readings[..j]) == StartAfter(start, readings[..i])
    decreases j
  {
    hide StartAfter, DueAt;
    if i < j {
      StartIsKept(start, readings, i, j - 1);
      DueIs(start, readings, j - 1);
    }
  }

  /** An update is due exactly if more than a second has passed since the second clock reading of the last
      update that was, or since the start if none was. */
  lemma UpdateSpacing(start: int, readings: seq<Reading>, j: nat)
    requires j < |readings|
    ensures NoneDue(start, readings, 0, j) ==> (DueAt(start, readings, j) <==> readings[j].now - start > 1)
    ensures forall i: nat :: i < j && DueAt(start, readings, i) && NoneDue(start, readings, i + 1, j) ==>
              (DueAt(start, readings, j) <==> readings[j].now - readings[i].later > 1)
  {
    hide DueAt;
    DueIs(start, readings, j);
    if NoneDue(start, readings, 0, j) {
      StartIsKept(start, readings, 0, j);
    }
    forall i: nat | i < j && DueAt(start, readings, i) && NoneDue(start, readings, i + 1, j)
      ensures StartAfter(start, readings[..j]) == readings[i].later
    {
      DueIs(start, readings, i);
      StartIsKept(start, readings, i + 1, j);
    }
  }

  /** A run of the main loop's calls of set_current_signal_event. Its reports are those of the
      measurements that the closed form gives, so that A1Reports to A4Reports say when they come. */
  method Run(r0: int8, r1: int8, start: int, readings: seq<Reading>) returns (reports: seq<Event>)
    requires 0 <= r0 < MAX_RSRP && 0 <= r1 < MAX_RSRP
    ensures |reports| == |readings|
    ensures forall j :: 0 <= j < |readings| ==> reports[j] == Report(Measurements(r0, r1, start, readings), j)
  {
    hide Step, Check, Power;
    ghost var ms := Measurements(r0, r1, start, readings);
    var cells := new UeCells(r0, r1, start);
    reports := [];
    for i := 0 to |readings|
      invariant cells.Valid() && fresh(cells) && fresh(cells.rsrp) && fresh(cells.course)
      invariant cells.startingTime == StartAfter(start, readings[..i])
      invariant cells.CellAt(0) == Steps(Cell(r0, COURSE), Updates(start, readings[..i]))
      invariant cells.CellAt(1) == Steps(Cell(r1, COURSE), Updates(start, readings[..i]))
      invariant cells.flags == After(ms[..i])
      invariant |reports| == i && forall j :: 0 <= j < i ==> reports[j] == Report(ms, j)
    {
      assert readings[..i + 1][..i] == readings[..i];
      assert ms[..i + 1][..i] == ms[..i];
      cells.SetCurrentSignalEvent(readings[i].now, readings[i].later);
      PowerIsStepped(r0, Updates(start, readings[..i + 1]));
      PowerIsStepped(r1, Updates(start, readings[..i + 1]));
      assert ms[i] == Measurement(cells.CellAt(0).rsrp, cells.CellAt(1).rsrp);
      reports := reports + [cells.currentEvent];
    }
    assert ms[..|readings|] == ms;
  }

  lemma PowerIsStepped(r: int8, n: nat)
    requires 0 <= r < MAX_RSRP
    ensures Power(r, n) == Steps(Cell(r, COURSE), n).rsrp
  {
    ClosedForm(r, n);
  }
}
