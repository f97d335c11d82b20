/** Exactly when the release guarantee holds, in terms of what the environment does: which assertions
    wait when a release is issued, and which arrive while it is in flight. */
module ReleaseExact {
  import opened Domain
  import opened Registers
  import opened CommsLoss
  import opened AdamOutputs
  import opened ModbusServer
  import opened ControlSystem
  import opened SystemShape
  import opened ReleaseSafety
  import opened Startup

  const INHIBIT_ON := CoilWrite(InhibitRelay, true, ByDispatch)
  const INHIBIT_OFF := CoilWrite(InhibitRelay, false, ByDispatch)
  const FORCE_ON := CoilWrite(ForceRelay, true, ByDispatch)

  /** The commands the request of `e` dispatches. */
  function Dispatched(s: Sys, e: Event): seq<CommandIntent> {
    if e.Arrive? then Handle(s.store, e.request).intents else []
  }

  /** The circumstances in which the condition is exact. While a release is in flight the fail-safe stays
      verified, an Inhibit assertion that is written takes effect, and no Inhibit de-assertion is queued
      or arrives that would undo one. */
  predicate SteadyStep(s: Sys, e: Event) {
    if s.watchdog.Sleeping? then
      e.Wake? && Attempts(s) ==> SetInhibit(false) !in s.queue
    else
      && s.driver.hwOk
      && (e == Answer(Lost) && s.wire != [] ==> s.wire[0] != INHIBIT_ON)
      && SetInhibit(false) !in Dispatched(s, e)
  }

  predicate Steady(s: Sys, es: seq<Event>)
    decreases |es|
  {
    es != [] ==> SteadyStep(s, es[0]) && Steady(Step(s, es[0]), es[1..])
  }

  /** What the release in flight has met so far. `inhibit`: an Inhibit assertion was queued when it was
      issued, or has been dispatched since. `force`: a Force Transfer assertion was queued when its
      second write was issued, or has been dispatched since. */
  datatype Met = Met(inhibit: bool, force: bool)

  const NOTHING := Met(false, false)

  /** The first release write lands, and the second is issued. */
  predicate IssuesForceOff(s: Sys, e: Event) {
    e == Answer(Landed) && s.wire != [] && s.wire[0].owner == ByWatchdog && s.watchdog.ReleasingInhibit?
  }

  function MetAfter(s: Sys, e: Event, m: Met): Met {
    if s.watchdog.Sleeping? then Met(e.Wake? && Attempts(s) && SetInhibit(true) in s.queue, false)
    else
      Met(m.inhibit || SetInhibit(true) in Dispatched(s, e),
          if s.watchdog.ReleasingForce? then m.force || SetForce(true) in Dispatched(s, e)
          else IssuesForceOff(s, e) && SetForce(true) in s.queue)
  }

  /** No release that latches has met an assertion. */
  predicate Unasserted(s: Sys, es: seq<Event>, m: Met)
    decreases |es|
  {
    es != [] ==> (Latches(s, es[0]) ==> m == NOTHING) && Unasserted(Step(s, es[0]), es[1..], MetAfter(s, es[0], m))
  }

  // ─── The traces assertions leave in the state ─────────────────────

  /** An Inhibit assertion will land after the release of the Inhibit relay, or has. */
  predicate Tainted(s: Sys) {
    || SetInhibit(true) in s.queue || INHIBIT_ON in Follow(s)
    || (s.watchdog.ReleasingForce? && InhibitRelay in s.on)
  }

  /** A Force Transfer assertion will land after the release of that relay. */
  predicate Pursued(s: Sys) {
    s.watchdog.ReleasingForce? && (SetForce(true) in s.queue || FORCE_ON in Behind(s.wire))
  }

  /** Nothing will turn the Inhibit relay off again before the latch. */
  predicate Unreleased(s: Sys) {
    SetInhibit(false) !in s.queue && INHIBIT_OFF !in Follow(s)
  }

  /** In flight after the start-up reset. */
  ghost predicate Flying(s: Sys) {
    Shaped(s) && s.outputsReset && !s.watchdog.Sleeping?
  }

  /** Every trace in the state comes from an assertion that was met. */
  ghost predicate Tracks(s: Sys, m: Met) {
    && Shaped(s) && s.outputsReset
    && (!s.watchdog.Sleeping? ==> (Tainted(s) ==> m.inhibit) && (Pursued(s) ==> m.force))
  }

  /** And every assertion that was met has left its trace. */
  ghost predicate TracksExactly(s: Sys, m: Met) {
    Tracks(s, m) && (!s.watchdog.Sleeping? ==> Unreleased(s) && m == Met(Tainted(s), Pursued(s)))
  }

  /** How the traces of `after` relate to those of `s`, given the commands that arrived in between. */
  ghost predicate Carries(s: Sys, after: Sys, arrived: seq<CommandIntent>) {
    && (Tainted(after) ==> Tainted(s) || SetInhibit(true) in arrived)
    && (s.watchdog.ReleasingForce? ==> (Pursued(after) ==> Pursued(s) || SetForce(true) in arrived))
  }

  ghost predicate CarriesExactly(s: Sys, after: Sys, arrived: seq<CommandIntent>) {
    && Unreleased(after)
    && (Tainted(after) <==> Tainted(s) || SetInhibit(true) in arrived)
    && (s.watchdog.ReleasingForce? ==> (Pursued(after) <==> Pursued(s) || SetForce(true) in arrived))
  }

  /** The step neither answers a write nor touches the queue or the release; what it issues, if
      anything, is no maintained write. */
  predicate Aside(s: Sys, after: Sys, issued: seq<CoilWrite>) {
    && after.queue == s.queue && after.on == s.on && after.watchdog == s.watchdog
    && after.wire == s.wire + issued && |issued| <= 1
    && forall w :: w in issued ==> !Maintained(w.relay) && w.owner != ByWatchdog
  }

  lemma AsideCarries(s: Sys, after: Sys, issued: seq<CoilWrite>)
    requires Flying(s) && Aside(s, after, issued)
    ensures Carries(s, after, []) && (Unreleased(s) ==> CarriesExactly(s, after, []))
  {
    if issued == [] {
      assert after.wire == s.wire;
    } else {
      assert issued == [issued[0]] && issued[0] in issued;
      BehindIssue(s.wire, issued[0]);
      assert Follow(after) == Follow(s) + issued && Behind(after.wire) == Behind(s.wire) + issued;
    }
  }

  lemma FireIsAside(s: Sys, id: nat)
    requires Shaped(s)
    ensures exists issued :: Aside(s, DoFire(s, id), issued)
  {
    var after := DoFire(s, id);
    if after.wire == s.wire {
      assert after.wire == s.wire + [];
      assert Aside(s, after, []);
    } else {
      assert Aside(s, after, [CoilWrite(s.driver.tasks[id].relay, false, ByTask(id))]);
    }
  }

  lemma QuietEventIsAside(s: Sys, e: Event)
    requires s.outputsReset && !s.watchdog.Sleeping?
    requires !e.Arrive? && !e.Start? && !e.Answer? && !e.Fire?
    ensures Aside(s, Step(s, e), [])
  {
    assert s.wire + [] == s.wire;
  }

  lemma ArriveCarries(s: Sys, conn: Conn, r: Request)
    requires Flying(s)
    ensures var after, arrived := DoArrive(s, conn, r), Handle(s.store, r).intents;
      && Carries(s, after, arrived)
      && (Unreleased(s) && SetInhibit(false) !in arrived ==> CarriesExactly(s, after, arrived))
  {
  }

  /** A maintained command that starts takes its trace from the queue to the wire. */
  lemma CommandCarries(s: Sys, after: Sys, w: CoilWrite)
    requires Flying(s) && s.queue != [] && after.queue == s.queue[1..] && after.wire == s.wire + [w]
    requires after.on == s.on && after.watchdog == s.watchdog
    requires w == INHIBIT_ON <==> s.queue[0] == SetInhibit(true)
    requires w == INHIBIT_OFF <==> s.queue[0] == SetInhibit(false)
    requires w == FORCE_ON <==> s.queue[0] == SetForce(true)
    ensures Carries(s, after, []) && (Unreleased(s) ==> CarriesExactly(s, after, []))
  {
    BehindIssue(s.wire, w);
    assert Follow(after) == Follow(s) + [w] && Behind(after.wire) == Behind(s.wire) + [w];
    assert forall i :: i in s.queue <==> i == s.queue[0] || i in after.queue;
  }

  /** A command that starts is written, unless the gate refuses it or a pulse is under way. */
  lemma StartCarries(s: Sys)
    requires Flying(s)
    ensures Carries(s, DoStart(s), [])
    ensures s.driver.hwOk && Unreleased(s) ==> CarriesExactly(s, DoStart(s), [])
  {
    if s.queue != [] {
      var after := DoStart(s);
      StartIsLocal(s);
      if after.wire == s.wire {
        NothingWritten(s);
      } else {
        var w := after.wire[|s.wire|];
        StartWrites(s);
        CommandCarries(s, after, w);
      }
    }
  }

  lemma StartWrites(s: Sys)
    requires s.queue != [] && DoStart(s).wire != s.wire
    ensures var after := DoStart(s);
      && |after.wire| == |s.wire| + 1 && after.queue == s.queue[1..]
      && after.wire == s.wire + [after.wire[|s.wire|]]
      && (after.wire[|s.wire|] == INHIBIT_ON <==> s.queue[0] == SetInhibit(true))
      && (after.wire[|s.wire|] == INHIBIT_OFF <==> s.queue[0] == SetInhibit(false))
      && (after.wire[|s.wire|] == FORCE_ON <==> s.queue[0] == SetForce(true))
  {
    match s.queue[0] case SetInhibit(_) => case SetForce(_) => case PulseTest(_) => case PulseBypass(_) =>
  }

  lemma NothingWritten(s: Sys)
    requires Flying(s) && s.queue != [] && DoStart(s).wire == s.wire
    ensures Carries(s, DoStart(s), [])
    ensures s.driver.hwOk && Unreleased(s) ==> CarriesExactly(s, DoStart(s), [])
  {
    var after := DoStart(s);
    StartIsLocal(s);
    assert after.queue == s.queue[1..] && forall i :: i in s.queue <==> i == s.queue[0] || i in after.queue;
    assert s.driver.hwOk ==> !s.queue[0].SetInhibit? && !s.queue[0].SetForce?;
  }

  /** An answer to a write ahead of the release leaves what is behind it alone. */
  lemma PopCarries(s: Sys, how: Answered)
    requires Flying(s) && s.wire != [] && s.wire[0].owner != ByWatchdog
    ensures Carries(s, Popped(s, how), [])
    ensures Unreleased(s) && (how == Lost ==> s.wire[0] != INHIBIT_ON) ==> CarriesExactly(s, Popped(s, how), [])
  {
    PopFacts(s.wire);
    PopKeepsTypes(s, how);
    var w := s.wire[0];
    assert w in s.wire && w.owner != BySampler;
    assert Behind(s.wire) == Behind(Popped(s, how).wire);
    if s.watchdog.ReleasingForce? {
      assert w in Follow(s);
      assert w.relay == InhibitRelay ==> w == INHIBIT_ON || w == INHIBIT_OFF;
    }
  }

  /** The first release write lands: whatever is then outstanding was issued behind it, and the second
      is issued last. */
  lemma ReleaseAnswerCarries(s: Sys, how: Answered)
    requires Flying(s) && s.wire != [] && s.wire[0].owner == ByWatchdog && !DoAnswer(s, how).watchdog.Sleeping?
    ensures IssuesForceOff(s, Answer(how))
    ensures var after := DoAnswer(s, how);
      && (Tainted(after) <==> Tainted(s)) && (Unreleased(after) <==> Unreleased(s))
      && (Pursued(after) <==> SetForce(true) in s.queue)
  {
    PopFacts(s.wire);
    NoneInWire(s.wire[1..], ByWatchdog);
    assert s.wire[0] in s.wire && TypedWrite(s.driver, s.wire[0]);
    var after, off := DoAnswer(s, how), CoilWrite(ForceRelay, false, ByWatchdog);
    assert Follow(s) == s.wire[1..] && Follow(after) == s.wire[1..] + [off];
    BehindIssue(s.wire[1..], off);
    assert InhibitRelay !in after.on;
  }

  lemma OtherAnswerCarries(s: Sys, how: Answered)
    requires Flying(s) && s.wire != [] && s.wire[0].owner != ByWatchdog
    ensures !DoAnswer(s, how).watchdog.Sleeping? && Carries(s, DoAnswer(s, how), [])
    ensures Unreleased(s) && (how == Lost ==> s.wire[0] != INHIBIT_ON) ==> CarriesExactly(s, DoAnswer(s, how), [])
  {
    assert s.wire[0] in s.wire && s.wire[0].owner != BySampler;
    PopCarries(s, how);
    AnswerIssuesNothing(s, how);
  }

  lemma WakeCarries(s: Sys)
    requires Shaped(s) && Attempts(s)
    ensures var after := DoWake(s);
      && !Pursued(after) && (Tainted(after) <==> SetInhibit(true) in s.queue)
      && (SetInhibit(false) !in s.queue ==> Unreleased(after))
  {
    BehindIssue(s.wire, CoilWrite(InhibitRelay, false, ByWatchdog));
  }

  /** One step of a flight that goes on, other than the one that issues the second write. */
  lemma FlightStepCarries(s: Sys, e: Event)
    requires Flying(s) && !Step(s, e).watchdog.Sleeping? && !IssuesForceOff(s, e)
    ensures Carries(s, Step(s, e), Dispatched(s, e))
    ensures Unreleased(s) && SteadyStep(s, e) ==> CarriesExactly(s, Step(s, e), Dispatched(s, e))
  {
    match e
    case Arrive(conn, request) => ArriveCarries(s, conn, request);
    case Start => StartCarries(s);
    case Answer(how) =>
      if s.wire != [] {
        if s.wire[0].owner == ByWatchdog {
          ReleaseAnswerCarries(s, how);
        } else {
          OtherAnswerCarries(s, how);
        }
      }
    case Fire(id) =>
      FireIsAside(s, id);
      var issued :| Aside(s, DoFire(s, id), issued);
      AsideCarries(s, DoFire(s, id), issued);
    case _ =>
      QuietEventIsAside(s, e);
      AsideCarries(s, Step(s, e), []);
  }

  /** Only an issuing wake-up starts a flight. */
  lemma SleepingStep(s: Sys, e: Event)
    requires Shaped(s) && s.watchdog.Sleeping?
    ensures !Step(s, e).watchdog.Sleeping? <==> e.Wake? && Attempts(s)
  {
    match e
    case Answer(how) =>
      if s.wire != [] {
        NoneInWire(s.wire, ByWatchdog);
        assert s.wire[0] in s.wire && s.wire[0].owner != ByWatchdog;
        SleepersAnswer(s, how);
      }
    case Start => StartIsLocal(s);
    case _ =>
  }

  lemma SleepersAnswer(s: Sys, how: Answered)
    requires s.wire != [] && s.wire[0].owner != ByWatchdog
    ensures DoAnswer(s, how).watchdog == s.watchdog
  {
  }

  /** In flight the second write is the one thing that makes Force Transfer assertions matter. */
  lemma NotYetPursued(s: Sys, e: Event)
    requires Flying(s) && s.watchdog.ReleasingInhibit? && !IssuesForceOff(s, e)
    ensures !Pursued(Step(s, e))
  {
    match e
    case Answer(how) => if s.wire != [] && s.wire[0].owner != ByWatchdog { SleepersAnswer(s, how); }
    case Start => StartIsLocal(s);
    case _ =>
  }

  lemma StepTracks(s: Sys, e: Event, m: Met)
    requires Tracks(s, m)
    ensures Tracks(Step(s, e), MetAfter(s, e, m))
    ensures TracksExactly(s, m) && SteadyStep(s, e) ==> TracksExactly(Step(s, e), MetAfter(s, e, m))
  {
    var after := Step(s, e);
    StepKeepsShape(s, e);
    StaysReset(s, e);
    if s.watchdog.Sleeping? {
      SleepingStep(s, e);
      if e.Wake? && Attempts(s) {
        WakeCarries(s);
      }
    } else if !after.watchdog.Sleeping? {
      if IssuesForceOff(s, e) {
        ReleaseAnswerCarries(s, Landed);
      } else {
        FlightStepCarries(s, e);
        if s.watchdog.ReleasingInhibit? {
          NotYetPursued(s, e);
        }
      }
    }
  }

  /** At the latch, what is traced is all there is. */
  lemma LatchIsClean(s: Sys)
    requires Shaped(s) && Latches(s, Answer(Landed))
    ensures CleanBeforeLatch(s) <==> !Tainted(s) && !Pursued(s)
  {
    PopFacts(s.wire);
    assert s.wire[0] in s.wire && TypedWrite(s.driver, s.wire[0]);
    assert forall w :: w in s.wire && AssertWrite(w) ==> TypedWrite(s.driver, w) && (w == INHIBIT_ON || w == FORCE_ON);
    assert AssertWrite(INHIBIT_ON) && AssertWrite(FORCE_ON);
    assert AssertsMaintained(SetInhibit(true)) && AssertsMaintained(SetForce(true));
  }

  lemma {:induction false} UnassertedIsClean(s: Sys, es: seq<Event>, m: Met)
    requires Tracks(s, m) && Unasserted(s, es, m)
    ensures CleanLatches(s, es)
    decreases |es|
  {
    if es != [] {
      if Latches(s, es[0]) {
        LatchIsClean(s);
      }
      StepTracks(s, es[0], m);
      UnassertedIsClean(Step(s, es[0]), es[1..], MetAfter(s, es[0], m));
    }
  }

  lemma {:induction false} CleanExactly(s: Sys, es: seq<Event>, m: Met)
    requires TracksExactly(s, m) && Steady(s, es)
    ensures CleanLatches(s, es) <==> Unasserted(s, es, m)
    decreases |es|
  {
    if es != [] {
      if Latches(s, es[0]) {
        LatchIsClean(s);
      }
      StepTracks(s, es[0], m);
      CleanExactly(Step(s, es[0]), es[1..], MetAfter(s, es[0], m));
    }
  }

  // ─── The guarantee, from what the environment did ─────────────────

  /** Sufficient, whatever fails. From any safe state after the start-up reset with no release in
      flight: if no release that latches has met an assertion, released means off in every state. */
  lemma UnassertedMeansOff(s: Sys, es: seq<Event>)
    requires Shaped(s) && Safe(s) && s.outputsReset && s.watchdog.Sleeping? && Unasserted(s, es, NOTHING)
    ensures AlwaysSafe(s, es)
  {
    SafeExactly(s, es);
    UnassertedIsClean(s, es, NOTHING);
  }

  /** Exact, in steady runs. Released means off in every state if and only if no release that latches
      has met an assertion: no Inhibit assertion was queued when it was issued or dispatched since, and
      no Force Transfer assertion was queued when its second write was issued or dispatched since. */
  lemma ReleasedMeansOffExactly(s: Sys, es: seq<Event>)
    requires Shaped(s) && Safe(s) && s.outputsReset && s.watchdog.Sleeping? && Steady(s, es)
    ensures AlwaysSafe(s, es) <==> Unasserted(s, es, NOTHING)
  {
    SafeExactly(s, es);
    CleanExactly(s, es, NOTHING);
  }

  /** From any boot, whatever was done before and even with a release in flight, both hold from the
      moment the start-up reset is done until the first sample and for everything that follows. */
  lemma ReleasedMeansOffFromStartUp(
      on: set<Relay>, persisted: Persisted, wall: int, hwOk: bool, now: int, before: seq<Event>, es: seq<Event>)
    requires var s := Run(Boot(on, persisted, wall, hwOk, now), before); s.publishes == 0 && s.outputsReset
    ensures var s := Run(Boot(on, persisted, wall, hwOk, now), before);
      && (Unasserted(s, es, NOTHING) ==> AlwaysSafe(s, es))
      && (Steady(s, es) ==> (AlwaysSafe(s, es) <==> Unasserted(s, es, NOTHING)))
  {
    var s0 := Boot(on, persisted, wall, hwOk, now);
    RunUnpublished(s0.store, s0, before);
    var s := Run(s0, before);
    assert RESET_ORDER[1] !in s.on && RESET_ORDER[2] !in s.on;
    BehindIsOutstanding(s.wire);
    assert TracksExactly(s, NOTHING);
    SafeExactly(s, es);
    if Unasserted(s, es, NOTHING) {
      UnassertedIsClean(s, es, NOTHING);
    }
    if Steady(s, es) {
      CleanExactly(s, es, NOTHING);
    }
  }

  lemma {:induction false} BehindIsOutstanding(wire: seq<CoilWrite>)
    ensures forall w :: w in Behind(wire) ==> w in wire
  {
    if wire != [] && wire[0].owner != ByWatchdog {
      BehindIsOutstanding(wire[1..]);
    }
  }
}
