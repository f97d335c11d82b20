/** When the watchdog releases: exact conditions for an attempt, and real-time bounds. */
module ReleaseTiming {
  import opened Domain
  import opened Registers
  import opened CommsLoss
  import opened ModbusServer
  import opened ControlSystem
  import opened SystemShape
  import opened ReleaseSafety

  /** The scheduler's bounds: how late a wake-up may be, how long a release call may take. */
  datatype Bounds = Bounds(late: nat, write: nat)

  predicate Sane(b: Bounds) {
    b.write <= TIMEOUT_MS
  }

  /** Time does not pass a due wake-up, or the end of a release call. */
  predicate TimelyStep(b: Bounds, s: Sys, e: Event) {
    e.Tick? ==>
      match s.watchdog
      case Sleeping(since) => s.now + e.ms <= since + CHECK_INTERVAL_MS + b.late
      case ReleasingInhibit(issued) => s.now + e.ms <= issued + b.write
      case ReleasingForce(issued) => s.now + e.ms <= issued + b.write
  }

  predicate Timely(b: Bounds, s: Sys, es: seq<Event>)
    decreases |es|
  {
    es != [] ==> TimelyStep(b, s, es[0]) && Timely(b, Step(s, es[0]), es[1..])
  }

  /** The latest the `k`-th attempt after a re-arm can be issued, counted from the re-arm. */
  function Deadline(b: Bounds, k: nat): nat
    requires k >= 1
  {
    if k == 1 then TIMEOUT_MS + CHECK_INTERVAL_MS + b.late
    else Deadline(b, k - 1) + b.write + CHECK_INTERVAL_MS + b.late
  }

  lemma {:induction false} DeadlineClosedForm(b: Bounds, k: nat)
    requires k >= 1
    ensures Deadline(b, k) == TIMEOUT_MS + CHECK_INTERVAL_MS + b.late + (k - 1) * (CHECK_INTERVAL_MS + b.write + b.late)
    ensures Deadline(b, k) >= TIMEOUT_MS + CHECK_INTERVAL_MS
  {
    if k > 1 {
      DeadlineClosedForm(b, k - 1);
      var p := CHECK_INTERVAL_MS + b.write + b.late;
      assert (k - 1) * p == (k - 2) * p + p;
    }
  }

  /** The watchdog's schedule, relative to the last re-arm. */
  predicate OnSchedule(b: Bounds, s: Sys) {
    var t0 := s.comms.wd.lastRead;
    && t0 <= s.now
    && match s.watchdog
       case Sleeping(since) =>
         && since <= s.now <= since + CHECK_INTERVAL_MS + b.late
         && (!s.comms.wd.released ==>
               since <= t0 + if s.attempts == 0 then TIMEOUT_MS else Deadline(b, s.attempts) + b.write)
       case ReleasingInhibit(issued) => IssuedOnTime(b, s, issued)
       case ReleasingForce(issued) => IssuedOnTime(b, s, issued)
  }

  predicate IssuedOnTime(b: Bounds, s: Sys, issued: int) {
    && issued <= s.now <= issued + b.write
    && issued <= s.comms.wd.lastRead + if s.attempts == 0 then 0 else Deadline(b, s.attempts)
  }

  /** The step leaves the clock, the tracker and the watchdog alone. */
  predicate LeavesWatchdog(s: Sys, after: Sys) {
    after.now == s.now && after.comms == s.comms && after.watchdog == s.watchdog && after.attempts == s.attempts
  }

  lemma OthersLeaveWatchdog(s: Sys, e: Event)
    requires Shaped(s)
    requires !e.Tick? && !e.Arrive? && !e.Disconnect? && !e.Wake?
    requires e.Answer? && s.wire != [] ==> s.wire[0].owner != ByWatchdog
    ensures LeavesWatchdog(s, Step(s, e))
  {
    match e
    case Answer(how) => if s.wire != [] { OtherAnswerLeavesWatchdog(s, how); }
    case Start => StartIsLocal(s);
    case _ =>
  }

  lemma OtherAnswerLeavesWatchdog(s: Sys, how: Answered)
    requires s.wire != [] && s.wire[0].owner != ByWatchdog
    ensures LeavesWatchdog(s, DoAnswer(s, how))
  {
  }

  lemma ReleaseAnswerOnSchedule(b: Bounds, s: Sys, how: Answered)
    requires Sane(b) && Shaped(s) && OnSchedule(b, s)
    requires s.wire != [] && s.wire[0].owner == ByWatchdog
    ensures OnSchedule(b, DoAnswer(s, how))
  {
  }

  lemma WakeOnSchedule(b: Bounds, s: Sys)
    requires Sane(b) && OnSchedule(b, s)
    ensures OnSchedule(b, DoWake(s))
  {
    DeadlineClosedForm(b, s.attempts + 1);
    if s.attempts >= 1 {
      DeadlineClosedForm(b, s.attempts);
    }
  }

  lemma StepOnSchedule(b: Bounds, s: Sys, e: Event)
    requires Sane(b) && Shaped(s) && OnSchedule(b, s) && TimelyStep(b, s, e)
    ensures OnSchedule(b, Step(s, e))
  {
    if e.Answer? && s.wire != [] && s.wire[0].owner == ByWatchdog {
      ReleaseAnswerOnSchedule(b, s, e.how);
    } else if e.Wake? {
      WakeOnSchedule(b, s);
    } else if !e.Tick? && !e.Arrive? && !e.Disconnect? {
      OthersLeaveWatchdog(s, e);
    }
  }

  lemma {:induction false} RunOnSchedule(b: Bounds, s: Sys, es: seq<Event>)
    requires Sane(b) && Shaped(s) && OnSchedule(b, s) && Timely(b, s, es)
    ensures OnSchedule(b, Run(s, es)) && Shaped(Run(s, es))
    decreases |es|
  {
    if es != [] {
      StepOnSchedule(b, s, es[0]);
      StepKeepsShape(s, es[0]);
      RunOnSchedule(b, Step(s, es[0]), es[1..]);
    }
  }

  /** In every timely run from boot, counting attempts from the last re-arm at `t0`:
      an attempt is made only after more than 30 s of silence, unless the commander dropped;
      the (k+1)-th is issued by 31 s + late + k (1 s + write + late) after `t0`, and until it is, time
      cannot pass that point; and a release that succeeds does so within one write of it. */
  lemma ReleaseWindow(b: Bounds, on: set<Relay>, persisted: Persisted, wall: int, hwOk: bool, now: int, es: seq<Event>)
    requires Sane(b) && Timely(b, Boot(on, persisted, wall, hwOk, now), es)
    ensures var s := Run(Boot(on, persisted, wall, hwOk, now), es);
      var t0, k := s.comms.wd.lastRead, s.attempts;
      var bound := 31000 + b.late + k * (1000 + b.write + b.late);
      && (Attempts(s) ==> t0 + 30000 < s.now || s.comms.wd.commanderGone)
      && (s.watchdog.Sleeping? && !s.comms.wd.released ==> s.now <= t0 + bound)
      && (forall e :: Latches(s, e) && k >= 1 ==>
            s.now <= t0 + bound - (1000 + b.write + b.late) + b.write)
  {
    var s0 := Boot(on, persisted, wall, hwOk, now);
    RunOnSchedule(b, s0, es);
    var s := Run(s0, es);
    DeadlineClosedForm(b, s.attempts + 1);
    if s.attempts >= 1 {
      DeadlineClosedForm(b, s.attempts);
      var p := 1000 + b.write + b.late;
      assert s.attempts * p == (s.attempts - 1) * p + p;
    }
  }

  /** Bounded exposure: in a quiet and timely run, an energised Inhibit or Force Transfer relay means
      the watchdog was re-armed within 31 s plus one period for every release attempt made since. By
      whom, and so what this bounds for the commander, is the subject of `CommanderExposure`. */
  lemma ExposureIsBounded(
      b: Bounds, on: set<Relay>, persisted: Persisted, wall: int, hwOk: bool, now: int, es: seq<Event>)
    requires Sane(b) && Timely(b, Boot(on, persisted, wall, hwOk, now), es)
    requires Quiet(Boot(on, persisted, wall, hwOk, now), es)
    ensures var s := Run(Boot(on, persisted, wall, hwOk, now), es);
      InhibitRelay in s.on || ForceRelay in s.on ==>
        s.now <= s.comms.wd.lastRead + 31000 + b.late
               + s.attempts * (1000 + b.write + b.late)
  {
    var s0 := Boot(on, persisted, wall, hwOk, now);
    RunOnSchedule(b, s0, es);
    ReleasedMeansOff(on, persisted, wall, hwOk, now, es);
    var s := Run(s0, es);
    DeadlineClosedForm(b, s.attempts + 1);
    if s.attempts >= 1 {
      DeadlineClosedForm(b, s.attempts);
    }
  }

  // ─── The drop property, exactly ───────────────────────────────────

  /** Event `i` is the disconnect of the connection then in command. */
  predicate DropAt(s: Sys, es: seq<Event>, i: int) {
    0 <= i < |es| && es[i].Disconnect? && Run(s, es[..i]).comms.commander == Some(es[i].conn)
  }

  /** The commander dropped and no request from any connection has been handled since. */
  ghost predicate DropUnheard(s: Sys, es: seq<Event>) {
    exists i :: DropAt(s, es, i) && forall j :: i < j < |es| ==> !es[j].Arrive?
  }

  lemma StepMarksDrop(s: Sys, e: Event)
    requires s.comms.wd.commanderGone ==> s.comms.commander == None
    ensures var after := Step(s, e).comms;
      && (after.wd.commanderGone ==> after.commander == None)
      && (after.wd.commanderGone <==>
            (e.Disconnect? && s.comms.commander == Some(e.conn)) || (s.comms.wd.commanderGone && !e.Arrive?))
  {
    match e
    case Start => StartIsLocal(s);
    case Answer(how) =>
    case Fire(id) =>
    case _ =>
  }

  /** A drop stays unheard until the next request. */
  lemma DropCarries(s: Sys, es: seq<Event>)
    requires es != []
    ensures var before, e := es[..|es| - 1], es[|es| - 1];
      DropUnheard(s, es) <==>
        (e.Disconnect? && Run(s, before).comms.commander == Some(e.conn)) || (DropUnheard(s, before) && !e.Arrive?)
  {
    var m := |es| - 1;
    var before, e := es[..m], es[m];
    assert forall i | 0 <= i < m :: before[..i] == es[..i] && before[i] == es[i];
    if DropUnheard(s, before) && !e.Arrive? {
      var i :| DropAt(s, before, i) && forall j :: i < j < |before| ==> !before[j].Arrive?;
      assert DropAt(s, es, i) && forall j :: i < j < |es| ==> !es[j].Arrive?;
    }
    if e.Disconnect? && Run(s, before).comms.commander == Some(e.conn) {
      assert DropAt(s, es, m);
    }
    if DropUnheard(s, es) {
      var i :| DropAt(s, es, i) && forall j :: i < j < |es| ==> !es[j].Arrive?;
      if i < m {
        assert DropAt(s, before, i);
        forall j | i < j < |before| ensures !before[j].Arrive? {
          assert before[j] == es[j];
        }
      }
    }
  }

  lemma {:induction false} GoneExactly(s: Sys, es: seq<Event>)
    requires !s.comms.wd.commanderGone
    ensures Run(s, es).comms.wd.commanderGone ==> Run(s, es).comms.commander == None
    ensures Run(s, es).comms.wd.commanderGone <==> DropUnheard(s, es)
    decreases |es|
  {
    if es != [] {
      GoneExactly(s, es[..|es| - 1]);
      RunSnoc(s, es);
      StepMarksDrop(Run(s, es[..|es| - 1]), es[|es| - 1]);
      DropCarries(s, es);
    }
  }

  /** A due wake-up that has not already released attempts a release exactly when the silence limit
      has passed, or the commander dropped and not one request was handled in between. */
  lemma WakeAttemptsExactly(on: set<Relay>, persisted: Persisted, wall: int, hwOk: bool, now: int, es: seq<Event>)
    ensures var s0 := Boot(on, persisted, wall, hwOk, now);
      var s := Run(s0, es);
      WakeDue(s) && !s.comms.wd.released ==>
        (Step(s, Wake).watchdog.ReleasingInhibit? <==>
           s.now - s.comms.wd.lastRead > 30000 || DropUnheard(s0, es))
  {
    GoneExactly(Boot(on, persisted, wall, hwOk, now), es);
  }

  // ─── The deadline after a drop ────────────────────────────────────

  /** The commander dropped, nothing was handled since, and unless a release was attempted or had been
      made, the watchdog will wake by `limit + 1 s + late`. */
  predicate DropPending(b: Bounds, s: Sys, k: nat, limit: int) {
    && s.comms.wd.commanderGone && s.attempts >= k
    && (s.attempts == k && !s.comms.wd.released ==>
          match s.watchdog
          case Sleeping(since) => since <= limit && s.now <= since + CHECK_INTERVAL_MS + b.late
          case ReleasingInhibit(issued) => issued + b.write <= limit && s.now <= issued + b.write
          case ReleasingForce(issued) => issued + b.write <= limit && s.now <= issued + b.write)
  }

  lemma StepDropPending(b: Bounds, s: Sys, e: Event, k: nat, limit: int)
    requires Shaped(s) && DropPending(b, s, k, limit) && TimelyStep(b, s, e)
    requires !e.Arrive? && s.comms.commander == None
    ensures DropPending(b, Step(s, e), k, limit) && Step(s, e).comms.commander == None
  {
    if !(e.Answer? && s.wire != [] && s.wire[0].owner == ByWatchdog) && !e.Tick? && !e.Disconnect? && !e.Wake? {
      OthersLeaveWatchdog(s, e);
    }
  }

  lemma {:induction false} RunDropPending(b: Bounds, s: Sys, es: seq<Event>, k: nat, limit: int)
    requires Shaped(s) && DropPending(b, s, k, limit) && Timely(b, s, es)
    requires s.comms.commander == None && forall e :: e in es ==> !e.Arrive?
    ensures DropPending(b, Run(s, es), k, limit)
    decreases |es|
  {
    if es != [] {
      StepDropPending(b, s, es[0], k, limit);
      StepKeepsShape(s, es[0]);
      RunDropPending(b, Step(s, es[0]), es[1..], k, limit);
    }
  }

  /** Once the commander has dropped at `d.now`, in every timely run without a request: until a release
      is attempted (or one in flight at the drop succeeds) the time is at most 1 s + late after the drop,
      or after the end of the release that was then in flight. */
  lemma DropIsAnsweredInTime(b: Bounds, on: set<Relay>, persisted: Persisted, wall: int, hwOk: bool, now: int,
                             before: seq<Event>, conn: Conn, es: seq<Event>)
    requires Sane(b) && Timely(b, Boot(on, persisted, wall, hwOk, now), before)
    requires Run(Boot(on, persisted, wall, hwOk, now), before).comms.commander == Some(conn)
    requires Timely(b, Step(Run(Boot(on, persisted, wall, hwOk, now), before), Disconnect(conn)), es)
    requires forall e :: e in es ==> !e.Arrive?
    ensures var d := Step(Run(Boot(on, persisted, wall, hwOk, now), before), Disconnect(conn));
      var s := Run(d, es);
      s.attempts == d.attempts && !s.comms.wd.released ==>
        s.now <= d.now + (if d.watchdog.Sleeping? then 0 else b.write) + 1000 + b.late
  {
    var s0 := Boot(on, persisted, wall, hwOk, now);
    RunOnSchedule(b, s0, before);
    var dropping := Run(s0, before);
    var d := Step(dropping, Disconnect(conn));
    StepKeepsShape(dropping, Disconnect(conn));
    var limit := d.now + if d.watchdog.Sleeping? then 0 else b.write;
    assert DropPending(b, d, d.attempts, limit);
    RunDropPending(b, d, es, d.attempts, limit);
  }
}
