/** Whose silence the watchdog measures: when the last re-arm is the commander's own, the bound on an
    energised relay that follows, and the run in which there is no bound because it is not. */
module CommanderExposure {
  import opened Domain
  import opened Registers
  import opened CommsLoss
  import opened ModbusServer
  import opened ControlSystem
  import opened SystemShape
  import opened ReleaseSafety
  import opened ReleaseTiming
  import Isolation
  import ReleaseExact
  import EndToEnd

  // ─── History ──────────────────────────────────────────────────────

  /** The connection of the latest command-band write. */
  function LatestCommander(es: seq<Event>): Option<Conn> {
    if es == [] then None
    else
      var m := |es| - 1;
      if Isolation.CommandWrite(es[m]) then Some(es[m].conn) else LatestCommander(es[..m])
  }

  /** The connection of the latest request of any kind. */
  function LatestRequest(es: seq<Event>): Option<Conn> {
    if es == [] then None
    else if es[|es| - 1].Arrive? then Some(es[|es| - 1].conn)
    else LatestRequest(es[..|es| - 1])
  }

  /** The connection of the latest request that re-armed the watchdog. */
  function LatestRearm(s: Sys, es: seq<Event>): Option<Conn> {
    if es == [] then None
    else
      var m := |es| - 1;
      var e := es[m];
      if e.Arrive? && CountsAsLife(Run(s, es[..m]).comms, e.conn, IsCommandWrite(e.request)) then Some(e.conn)
      else LatestRearm(s, es[..m])
  }

  /** When a connection was last heard. */
  function HeardAt(s: Sys, es: seq<Event>, conn: Conn): Option<int> {
    if es == [] then None
    else
      var m := |es| - 1;
      if es[m].Arrive? && es[m].conn == conn then Some(Run(s, es[..m]).now) else HeardAt(s, es[..m], conn)
  }

  // ─── Who re-armed the watchdog ────────────────────────────────────

  /** Someone is in command, or the commander dropped and no request was handled since. */
  predicate Commanded(s: Sys) {
    s.comms.commander.Some? || s.comms.wd.commanderGone
  }

  ghost predicate Attributed(s: Sys, es: seq<Event>) {
    var r := Run(s, es);
    match LatestCommander(es)
    case None => !Commanded(r)
    case Some(c) =>
      && (r.comms.commander.Some? ==> r.comms.commander == Some(c))
      && (Commanded(r) ==> LatestRearm(s, es) == Some(c))
      && (!Commanded(r) ==> LatestRearm(s, es) == LatestRequest(es))
      && (LatestRearm(s, es) == Some(c) ==> HeardAt(s, es, c) == Some(r.comms.wd.lastRead))
  }

  lemma StepComms(s: Sys, e: Event)
    ensures e.Arrive? ==> Step(s, e).comms == AfterRequest(s.comms, e.conn, IsCommandWrite(e.request), s.now)
    ensures e.Disconnect? ==> Step(s, e).comms == AfterDisconnect(s.comms, e.conn)
    ensures !e.Arrive? && !e.Disconnect? ==>
      var before, after := s.comms, Step(s, e).comms;
      && after.commander == before.commander && after.wd.commanderGone == before.wd.commanderGone
      && after.wd.lastRead == before.wd.lastRead
  {
    match e
    case Start => StartIsLocal(s);
    case Answer(how) =>
    case _ =>
  }

  lemma {:induction false} RunAttributed(s: Sys, es: seq<Event>)
    requires !Commanded(s)
    ensures Attributed(s, es)
  {
    if es != [] {
      var m := |es| - 1;
      RunAttributed(s, es[..m]);
      RunSnoc(s, es);
      StepComms(Run(s, es[..m]), es[m]);
    }
  }

  /** Exact: the last re-arm is the commander's own if and only if someone is in command, or the
      commander dropped and nothing was heard since, or what was heard last came from it after all. Then
      the watchdog's silence is the commander's silence. */
  lemma RearmIsCommandersExactly(s: Sys, es: seq<Event>, conn: Conn)
    requires !Commanded(s) && LatestCommander(es) == Some(conn)
    ensures LatestRearm(s, es) == Some(conn) <==> Commanded(Run(s, es)) || LatestRequest(es) == Some(conn)
    ensures LatestRearm(s, es) == Some(conn) ==> HeardAt(s, es, conn) == Some(Run(s, es).comms.wd.lastRead)
  {
    RunAttributed(s, es);
  }

  /** Bounded exposure to the commander: in a quiet and timely run from boot, while the last re-arm is
      the commander's own, an energised Inhibit or Force Transfer relay means the commander was heard
      within 31 s plus one period for every release attempt made since. */
  lemma CommanderExposureIsBounded(
      b: Bounds, on: set<Relay>, persisted: Persisted, wall: int, hwOk: bool, now: int, es: seq<Event>, conn: Conn)
    requires Sane(b) && Timely(b, Boot(on, persisted, wall, hwOk, now), es)
    requires Quiet(Boot(on, persisted, wall, hwOk, now), es)
    requires LatestCommander(es) == Some(conn)
    ensures var s0 := Boot(on, persisted, wall, hwOk, now);
      var s := Run(s0, es);
      && (Commanded(s) || LatestRequest(es) == Some(conn))
      && (InhibitRelay in s.on || ForceRelay in s.on) ==>
        && HeardAt(s0, es, conn).Some?
        && s.now <= HeardAt(s0, es, conn).value + 31000 + b.late
                  + s.attempts * (1000 + b.write + b.late)
  {
    RearmIsCommandersExactly(Boot(on, persisted, wall, hwOk, now), es, conn);
    ExposureIsBounded(b, on, persisted, wall, hwOk, now, es);
  }

  // ─── Without the condition there is no bound ──────────────────────

  lemma {:induction false} TimelyAppend(b: Bounds, s: Sys, x: seq<Event>, y: seq<Event>)
    ensures Timely(b, s, x + y) <==> Timely(b, s, x) && Timely(b, Run(s, x), y)
    decreases |x|
  {
    if x == [] {
      assert x + y == y;
    } else {
      assert (x + y)[1..] == x[1..] + y;
      TimelyAppend(b, Step(s, x[0]), x[1..], y);
    }
  }

  lemma {:induction false} QuietAppend(s: Sys, x: seq<Event>, y: seq<Event>)
    ensures Quiet(s, x + y) <==> Quiet(s, x) && Quiet(Run(s, x), y)
    decreases |x|
  {
    if x == [] {
      assert x + y == y;
    } else {
      assert (x + y)[1..] == x[1..] + y;
      QuietAppend(Step(s, x[0]), x[1..], y);
    }
  }

  /** Events that take no time and wake nobody. */
  lemma {:induction false} InstantIsTimelyAndQuiet(b: Bounds, s: Sys, es: seq<Event>)
    requires Shaped(s) && s.watchdog.Sleeping? && forall e :: e in es ==> !e.Tick? && !e.Wake?
    ensures Timely(b, s, es) && Quiet(s, es)
    decreases |es|
  {
    if es != [] {
      ReleaseExact.SleepingStep(s, es[0]);
      StepKeepsShape(s, es[0]);
      InstantIsTimelyAndQuiet(b, Step(s, es[0]), es[1..]);
    }
  }

  lemma {:induction false} HeardAtAppend(s: Sys, x: seq<Event>, y: seq<Event>, conn: Conn)
    requires forall e :: e in y ==> !(e.Arrive? && e.conn == conn)
    ensures HeardAt(s, x + y, conn) == HeardAt(s, x, conn)
    decreases |y|
  {
    if y == [] {
      assert x + y == x;
    } else {
      assert (x + y)[..|x + y| - 1] == x + y[..|y| - 1];
      HeardAtAppend(s, x, y[..|y| - 1], conn);
    }
  }

  const POLL := ReadRegisters(0, 1)

  /** Start-up, one sample in auto mode, connection 1 asserts Inhibit and drops, connection 2 reads. */
  function Prologue(wall: int): seq<Event> {
    RESET + [Publish(AutoMode(), {}, wall)] + EndToEnd.GiveCommand(1, SetInhibit(true))
    + [Disconnect(1), Arrive(2, POLL)]
  }

  /** Every second connection 2 reads once and the watchdog wakes. */
  function Polling(m: nat): seq<Event> {
    if m == 0 then [] else Polling(m - 1) + [Tick(1000), Arrive(2, POLL), Wake]
  }

  /** Inhibit is on and nobody is in command, but the watchdog was re-armed just now. */
  predicate Abandoned(s: Sys, at: int) {
    && s.now == at && s.watchdog == Sleeping(at) && s.comms == Comms(Rearm(at), None)
    && InhibitRelay in s.on && s.wire == [] && s.queue == []
  }

  lemma OnePoll(b: Bounds, s: Sys, at: int)
    requires Abandoned(s, at)
    ensures var round := [Tick(1000), Arrive(2, POLL), Wake];
      && Timely(b, s, round) && Quiet(s, round) && Abandoned(Run(s, round), at + 1000)
  {
    var round := [Tick(1000), Arrive(2, POLL), Wake];
    var s1 := Step(s, Tick(1000));
    var s2 := Step(s1, Arrive(2, POLL));
    assert s2 == s1.(comms := Comms(Rearm(s1.now), None), attempts := 0) by {
      assert s1.queue + [] == s1.queue;
    }
    var s3 := Step(s2, Wake);
    assert Abandoned(s3, at + 1000);
    assert round[1..] == [Arrive(2, POLL), Wake] && round[1..][1..] == [Wake] && [Wake][1..] == [];
    assert Run(s2, [Wake]) == s3 && Run(s1, round[1..]) == s3;
    assert Quiet(s2, [Wake]) && Quiet(s1, round[1..]) && Timely(b, s2, [Wake]) && Timely(b, s1, round[1..]);
  }

  lemma {:induction false} PollingKeepsRelayOn(b: Bounds, s: Sys, at: int, m: nat)
    requires Abandoned(s, at)
    ensures Timely(b, s, Polling(m)) && Quiet(s, Polling(m))
    ensures Abandoned(Run(s, Polling(m)), at + m * 1000)
    ensures forall e :: e in Polling(m) ==> !(e.Arrive? && e.conn == 1)
  {
    if m > 0 {
      var round := [Tick(1000), Arrive(2, POLL), Wake];
      PollingKeepsRelayOn(b, s, at, m - 1);
      var before := Run(s, Polling(m - 1));
      OnePoll(b, before, at + (m - 1) * 1000);
      RunAppend(s, Polling(m - 1), round);
      TimelyAppend(b, s, Polling(m - 1), round);
      QuietAppend(s, Polling(m - 1), round);
    }
  }

  /** The system after its first sample. */
  lemma FirstSample(on: set<Relay>, persisted: Persisted, wall: int, now: int)
    ensures var s := Run(Boot(on, persisted, wall, true, now), RESET + [Publish(AutoMode(), {}, wall)]);
      && EndToEnd.Ready(s, SetInhibit(true))
      && s.now == now && s.watchdog == Sleeping(now)
  {
    var s0, publish := Boot(on, persisted, wall, true, now), Publish(AutoMode(), {}, wall);
    ResetCompletes(s0);
    RunAppend(s0, RESET, [publish]);
    var s1 := Run(s0, RESET);
    assert [publish][1..] == [] && Run(s1, [publish]) == Step(s1, publish);
    assert Step(s1, publish).store.snap.atsMode == Auto;
  }

  /** The system when the commander has just asserted Inhibit. */
  lemma InhibitAsserted(on: set<Relay>, persisted: Persisted, wall: int, now: int)
    ensures var s0 := Boot(on, persisted, wall, true, now);
      var s := Run(s0, RESET + [Publish(AutoMode(), {}, wall)] + EndToEnd.GiveCommand(1, SetInhibit(true)));
      && s.now == now && s.watchdog == Sleeping(now) && s.comms == Comms(Rearm(now), Some(1))
      && InhibitRelay in s.on && s.wire == [] && s.queue == []
  {
    var s0, first := Boot(on, persisted, wall, true, now), RESET + [Publish(AutoMode(), {}, wall)];
    FirstSample(on, persisted, wall, now);
    RunAppend(s0, first, EndToEnd.GiveCommand(1, SetInhibit(true)));
    EndToEnd.CommandReachesRelay(Run(s0, first), 1, SetInhibit(true));
  }

  lemma PrologueAbandons(b: Bounds, on: set<Relay>, persisted: Persisted, wall: int, now: int)
    ensures var s0 := Boot(on, persisted, wall, true, now);
      && Timely(b, s0, Prologue(wall)) && Quiet(s0, Prologue(wall))
      && Abandoned(Run(s0, Prologue(wall)), now)
  {
    var s0 := Boot(on, persisted, wall, true, now);
    InstantIsTimelyAndQuiet(b, s0, Prologue(wall));
    InhibitAsserted(on, persisted, wall, now);
    var given := RESET + [Publish(AutoMode(), {}, wall)] + EndToEnd.GiveCommand(1, SetInhibit(true));
    var s := Run(s0, given);
    RunAppend(s0, given, [Disconnect(1), Arrive(2, POLL)]);
    RunOfTwo(s, Disconnect(1), Arrive(2, POLL));
    assert s.queue + [] == s.queue;
  }

  lemma PrologueHeard(on: set<Relay>, persisted: Persisted, wall: int, now: int)
    ensures HeardAt(Boot(on, persisted, wall, true, now), Prologue(wall), 1) == Some(now)
  {
    var s0 := Boot(on, persisted, wall, true, now);
    var before := RESET + [Publish(AutoMode(), {}, wall)];
    var given := EndToEnd.GiveCommand(1, SetInhibit(true));
    var rest := given[1..] + [Disconnect(1), Arrive(2, POLL)];
    ResetCompletes(s0);
    RunSnoc(s0, before);
    assert before[..|before| - 1] == RESET;
    assert (before + [given[0]])[..|before|] == before;
    assert HeardAt(s0, before + [given[0]], 1) == Some(Run(s0, before).now);
    HeardAtAppend(s0, before + [given[0]], rest, 1);
    assert Prologue(wall) == before + [given[0]] + rest;
  }

  /** The condition is needed. After the commander has dropped, any other connection that polls re-arms
      the watchdog: from boot, in a run that is timely and quiet for every bound, Inhibit is still on
      `m` seconds after the one and only commander was last heard, for every `m`. */
  lemma PollingDefeatsRelease(b: Bounds, on: set<Relay>, persisted: Persisted, wall: int, now: int, m: nat)
    ensures var s0 := Boot(on, persisted, wall, true, now);
      var es := Prologue(wall) + Polling(m);
      var s := Run(s0, es);
      && Timely(b, s0, es) && Quiet(s0, es)
      && InhibitRelay in s.on && !Commanded(s)
      && HeardAt(s0, es, 1) == Some(now) && s.now == now + m * 1000
  {
    var s0 := Boot(on, persisted, wall, true, now);
    PrologueAbandons(b, on, persisted, wall, now);
    PrologueHeard(on, persisted, wall, now);
    var s := Run(s0, Prologue(wall));
    PollingKeepsRelayOn(b, s, now, m);
    RunAppend(s0, Prologue(wall), Polling(m));
    TimelyAppend(b, s0, Prologue(wall), Polling(m));
    QuietAppend(s0, Prologue(wall), Polling(m));
    HeardAtAppend(s0, Prologue(wall), Polling(m), 1);
  }
}
