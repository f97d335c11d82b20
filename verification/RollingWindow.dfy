/** The rolling 24 h deque across samples, saves and restarts. */
module RollingWindow {
  import opened Domain
  import opened Registers

  datatype Event = Sampled(inputs: InputSnapshot, wall: int) | Restarted(wall: int)

  /** `disk` is the last saved image (every save lands, in order) and `savedAt` the wall-clock at which
      it was saved; `counted` is the wall-clock of every transfer ever counted; `clock` is the
      wall-clock of the last event. */
  datatype Era = Era(store: Store, disk: Persisted, savedAt: int, counted: seq<int>, clock: int)

  function FirstBoot(wall: int): Era {
    Era(BootStore(ZEROS, wall), ZEROS, wall, [], wall)
  }

  function Step(era: Era, e: Event): Era {
    match e
    case Sampled(inputs, wall) =>
      var store := ApplyInputs(era.store, inputs, wall);
      Era(store,
          if SaveKindFor(era.store, inputs) == NoSave then era.disk else Image(store),
          if SaveKindFor(era.store, inputs) == NoSave then era.savedAt else wall,
          if ToGenerator(era.store.snap.position, inputs.position) then era.counted + [wall] else era.counted,
          wall)
    case Restarted(wall) =>
      era.(store := BootStore(era.disk, wall), clock := wall)
  }

  function Run(era: Era, es: seq<Event>): Era {
    if es == [] then era else Step(Run(era, es[..|es| - 1]), es[|es| - 1])
  }

  function ClockAfter(clock: int, es: seq<Event>): int {
    if es == [] then clock else es[|es| - 1].wall
  }

  /** The wall clock never runs backwards over `es`, starting from `clock`. */
  predicate Forward(clock: int, es: seq<Event>) {
    es == [] || (Forward(clock, es[..|es| - 1]) && ClockAfter(clock, es[..|es| - 1]) <= es[|es| - 1].wall)
  }

  /** The transfers of `ts` that a clock reading `wall` has not yet aged out. */
  function Window(ts: seq<int>, wall: int): seq<int> {
    Since(ts, wall - 86400)
  }

  predicate Sorted(ts: seq<int>) {
    forall i, j :: 0 <= i < j < |ts| ==> ts[i] <= ts[j]
  }

  // ─── When front-only eviction is filtering ────────────────────────

  /** No expired timestamp stands behind one that is not. */
  predicate ExpiredFirst(ts: seq<int>, cutoff: int) {
    forall i, j :: 0 <= i < j < |ts| && ts[j] < cutoff ==> ts[i] < cutoff
  }

  /** Exact: popping expired entries off the front removes all of them if and only if they come first. */
  lemma {:induction false} EvictFiltersExactly(ts: seq<int>, cutoff: int)
    ensures Evict(ts, cutoff) == Since(ts, cutoff) <==> ExpiredFirst(ts, cutoff)
  {
    if ts != [] {
      if ts[0] < cutoff {
        EvictFiltersExactly(ts[1..], cutoff);
        assert forall i :: 0 < i < |ts| ==> ts[i] == ts[1..][i - 1];
      } else if k :| 0 <= k < |ts| && ts[k] < cutoff {
        assert ts[k] in ts;
      } else {
        SinceKeepsAll(ts, cutoff);
      }
    }
  }

  /** So on sorted entries, which a forward clock leaves, it is filtering. */
  lemma EvictFilters(ts: seq<int>, cutoff: int)
    requires Sorted(ts)
    ensures Evict(ts, cutoff) == Since(ts, cutoff)
  {
    EvictFiltersExactly(ts, cutoff);
  }

  lemma {:induction false} SinceKeepsAll(ts: seq<int>, cutoff: int)
    requires forall i :: 0 <= i < |ts| ==> ts[i] >= cutoff
    ensures Since(ts, cutoff) == ts
  {
    if ts != [] {
      SinceKeepsAll(ts[1..], cutoff);
    }
  }

  lemma {:induction false} SinceTwice(ts: seq<int>, a: int, b: int)
    requires a <= b
    ensures Since(Since(ts, a), b) == Since(ts, b)
  {
    if ts != [] {
      SinceTwice(ts[1..], a, b);
      if ts[0] >= a {
        assert Since(ts, a)[1..] == Since(ts[1..], a);
      }
    }
  }

  lemma {:induction false} SinceAppend(a: seq<int>, b: seq<int>, cutoff: int)
    ensures Since(a + b, cutoff) == Since(a, cutoff) + Since(b, cutoff)
  {
    if a == [] {
      assert a + b == b;
    } else {
      assert (a + b)[1..] == a[1..] + b;
      SinceAppend(a[1..], b, cutoff);
    }
  }

  lemma {:induction false} SinceSorted(ts: seq<int>, cutoff: int)
    requires Sorted(ts)
    ensures Sorted(Since(ts, cutoff))
    ensures forall t :: t in Since(ts, cutoff) ==> t in ts
  {
    if ts != [] {
      SinceSorted(ts[1..], cutoff);
      var rest := Since(ts[1..], cutoff);
      assert forall t :: t in rest ==> t in ts[1..] && ts[0] <= t;
      assert forall i :: 0 <= i < |rest| ==> rest[i] in rest;
    }
  }

  /** The window is exact, and so is what a restart would reload from disk. */
  ghost predicate Exact(era: Era) {
    && Sorted(era.counted)
    && (forall t :: t in era.counted ==> t <= era.clock)
    && era.store.recent == Window(era.counted, era.clock)
    && era.store.snap.count24h == |era.store.recent|
    && ReloadsExactly(era.disk.recent, era.counted, era.clock)
  }

  ghost predicate ReloadsExactly(saved: seq<int>, counted: seq<int>, clock: int) {
    forall wall :: wall >= clock ==> Window(saved, wall) == Window(counted, wall)
  }

  lemma SavedImageReloads(counted: seq<int>, clock: int)
    ensures ReloadsExactly(Window(counted, clock), counted, clock)
  {
    forall wall | wall >= clock
      ensures Window(Window(counted, clock), wall) == Window(counted, wall)
    {
      SinceTwice(counted, clock - ROLLING_WINDOW_S, wall - ROLLING_WINDOW_S);
    }
  }

  lemma SortedAppend(ts: seq<int>, t: int)
    requires Sorted(ts) && forall x :: x in ts ==> x <= t
    ensures Sorted(ts + [t])
  {
    assert forall i :: 0 <= i < |ts| ==> ts[i] in ts;
  }

  // ─── Exactly when the window is exact ─────────────────────────────

  /** The deque and the published count are the counted transfers of the last 24 hours. */
  predicate WindowHolds(era: Era) {
    era.store.recent == Window(era.counted, era.clock) && era.store.snap.count24h == |era.store.recent|
  }

  predicate NotAgedOut(t: int, before: int, wall: int) {
    t >= wall - ROLLING_WINDOW_S ==> t >= before - ROLLING_WINDOW_S
  }

  /** No transfer that counts at `wall` had been aged out by a clock that read `before`. */
  predicate Remembered(counted: seq<int>, before: int, wall: int) {
    forall i :: 0 <= i < |counted| ==> NotAgedOut(counted[i], before, wall)
  }

  function CountedBy(era: Era, e: Event): seq<int> {
    if e.Sampled? && ToGenerator(era.store.snap.position, e.inputs.position) then [e.wall] else []
  }

  /** The condition on one event, over the counted transfers and the clocks alone. A sample must not
      need a transfer that the last clock aged out, nor meet an expired one behind one that is not; a
      restart must not need one that had been aged out when the file was saved. */
  predicate KeepsWindow(era: Era, e: Event) {
    match e
    case Sampled(_, wall) =>
      && Remembered(era.counted, era.clock, wall)
      && ExpiredFirst(Window(era.counted, era.clock) + CountedBy(era, e), wall - ROLLING_WINDOW_S)
    case Restarted(wall) => Remembered(era.counted, era.savedAt, wall)
  }

  lemma {:induction false} SinceHas(ts: seq<int>, cutoff: int, t: int)
    ensures t in Since(ts, cutoff) <==> t in ts && t >= cutoff
  {
    if ts != [] {
      SinceHas(ts[1..], cutoff, t);
      assert t in ts <==> t == ts[0] || t in ts[1..];
    }
  }

  /** Filtering by the higher cutoff first loses nothing exactly when there was nothing in between. */
  lemma {:induction false} FilteredOnce(ts: seq<int>, before: int, wall: int)
    ensures Window(Window(ts, before), wall) == Window(ts, wall) <==> Remembered(ts, before, wall)
  {
    if wall >= before {
      SinceTwice(ts, before - ROLLING_WINDOW_S, wall - ROLLING_WINDOW_S);
    } else {
      var kept := Window(ts, before);
      assert forall i :: 0 <= i < |kept| ==> kept[i] in kept;
      SinceKeepsAll(kept, wall - ROLLING_WINDOW_S);
      if kept == Window(ts, wall) {
        forall i | 0 <= i < |ts| ensures NotAgedOut(ts[i], before, wall) {
          SinceHas(ts, wall - ROLLING_WINDOW_S, ts[i]);
        }
      }
      if Remembered(ts, before, wall) {
        SinceSame(ts, before, wall);
      }
    }
  }

  lemma {:induction false} SinceSame(ts: seq<int>, before: int, wall: int)
    requires wall <= before && Remembered(ts, before, wall)
    ensures Window(ts, before) == Window(ts, wall)
  {
    if ts != [] {
      assert NotAgedOut(ts[0], before, wall);
      assert forall i :: 0 <= i < |ts[1..]| ==> ts[1..][i] == ts[i + 1];
      SinceSame(ts[1..], before, wall);
    }
  }

  /** The deque after a sample at `wall`, over an exact deque: exact again if and only if nothing that
      counts had been aged out, and nothing expired stands behind something that has not. */
  lemma DequeStaysExactly(counted: seq<int>, clock: int, wall: int, more: seq<int>)
    requires more == [] || more == [wall]
    ensures Evict(Window(counted, clock) + more, wall - ROLLING_WINDOW_S) == Window(counted + more, wall) <==>
      Remembered(counted, clock, wall) && ExpiredFirst(Window(counted, clock) + more, wall - ROLLING_WINDOW_S)
  {
    var deque, cutoff := Window(counted, clock) + more, wall - ROLLING_WINDOW_S;
    FilteredOnce(counted, clock, wall);
    SinceAppend(Window(counted, clock), more, cutoff);
    SinceAppend(counted, more, cutoff);
    SinceKeepsAll(more, cutoff);
    EvictFiltersExactly(deque, cutoff);
    SameTail(Window(Window(counted, clock), wall), Window(counted, wall), more);
    if wall < clock {
      assert forall i :: 0 <= i < |deque| ==> deque[i] in Window(counted, clock) || deque[i] == wall;
      assert ExpiredFirst(deque, cutoff);
    }
  }

  lemma SameTail(a: seq<int>, b: seq<int>, tail: seq<int>)
    ensures a + tail == b + tail <==> a == b
  {
    if a + tail == b + tail {
      assert |a| == |b|;
      assert a == (a + tail)[..|a|] && b == (b + tail)[..|b|];
    }
  }

  /** What the saved image holds, as long as the window has held: every counted transfer is saved, so
      the image is the window at the clock of the last save. */
  predicate SavedWindow(era: Era) {
    era.disk.recent == Window(era.counted, era.savedAt)
  }

  /** Exact, step by step. */
  lemma StepKeepsWindowExactly(era: Era, e: Event)
    requires WindowHolds(era) && SavedWindow(era)
    ensures WindowHolds(Step(era, e)) <==> KeepsWindow(era, e)
    ensures KeepsWindow(era, e) ==> SavedWindow(Step(era, e))
  {
    match e
    case Sampled(inputs, wall) =>
      DequeStaysExactly(era.counted, era.clock, wall, CountedBy(era, e));
      SampledDeque(era, e);
    case Restarted(wall) => FilteredOnce(era.counted, era.savedAt, wall);
  }

  lemma SampledDeque(era: Era, e: Event)
    requires e.Sampled?
    ensures var after := Step(era, e);
      && after.store.recent == Evict(era.store.recent + CountedBy(era, e), e.wall - ROLLING_WINDOW_S)
      && after.counted == era.counted + CountedBy(era, e) && after.clock == e.wall
      && after.store.snap.count24h == |after.store.recent|
      && if SaveKindFor(era.store, e.inputs) == NoSave then
           CountedBy(era, e) == [] && after.savedAt == era.savedAt && after.disk == era.disk
         else
           after.savedAt == e.wall && after.disk == Image(after.store)
  {
    assert era.store.recent + [] == era.store.recent && era.counted + [] == era.counted;
  }

  predicate AlwaysHolds(wall: int, es: seq<Event>) {
    WindowHolds(Run(FirstBoot(wall), es)) && (es != [] ==> AlwaysHolds(wall, es[..|es| - 1]))
  }

  predicate EveryStepKeeps(wall: int, es: seq<Event>) {
    es != [] ==>
      EveryStepKeeps(wall, es[..|es| - 1]) && KeepsWindow(Run(FirstBoot(wall), es[..|es| - 1]), es[|es| - 1])
  }

  /** Exact, over every run from first boot, under any clock, across samples and restarts: the deque and
      the published count are the counted transfers of the last 24 hours in every state if and only if
      every event meets the condition. */
  lemma {:induction false} WindowHoldsExactly(wall: int, es: seq<Event>)
    ensures AlwaysHolds(wall, es) <==> EveryStepKeeps(wall, es)
    ensures EveryStepKeeps(wall, es) ==> SavedWindow(Run(FirstBoot(wall), es))
  {
    if es != [] {
      var before := es[..|es| - 1];
      WindowHoldsExactly(wall, before);
      if AlwaysHolds(wall, before) {
        HoldsNow(wall, before);
        StepKeepsWindowExactly(Run(FirstBoot(wall), before), es[|es| - 1]);
      }
    }
  }

  lemma HoldsNow(wall: int, es: seq<Event>)
    requires AlwaysHolds(wall, es)
    ensures WindowHolds(Run(FirstBoot(wall), es))
  {
  }

  // ─── A forward clock meets the condition ──────────────────────────

  /** The deque after a sample at `wall`, over the deque before it. */
  lemma DequeStaysExact(counted: seq<int>, clock: int, wall: int, counts: bool)
    requires Sorted(counted) && (forall t :: t in counted ==> t <= clock) && clock <= wall
    ensures var recent := Window(counted, clock);
      Evict(if counts then recent + [wall] else recent, wall - ROLLING_WINDOW_S)
        == Window(if counts then counted + [wall] else counted, wall)
  {
    var recent, more := Window(counted, clock), if counts then [wall] else [];
    SinceSorted(counted, clock - ROLLING_WINDOW_S);
    if counts {
      SortedAppend(recent, wall);
    }
    DequeStaysExactly(counted, clock, wall, more);
    assert recent + [] == recent && counted + [] == counted;
    assert Sorted(recent + more);
  }

  lemma SampleKeepsExact(era: Era, e: Event)
    requires Exact(era) && e.Sampled? && era.clock <= e.wall
    ensures Exact(Step(era, e))
  {
    var after := Step(era, e);
    var counts := ToGenerator(era.store.snap.position, e.inputs.position);
    DequeStaysExact(era.counted, era.clock, e.wall, counts);
    if counts {
      SortedAppend(era.counted, e.wall);
    }
    assert after.store.recent == Window(after.counted, e.wall);
    SavedImageReloads(after.counted, e.wall);
  }

  /** With a wall clock that never runs backwards, after any samples and restarts the deque is
      exactly the counted transfers of the last 24 hours and the published count is its length. */
  lemma {:induction false} WindowIsExact(wall: int, es: seq<Event>)
    requires Forward(wall, es)
    ensures Exact(Run(FirstBoot(wall), es))
    ensures Run(FirstBoot(wall), es).clock == ClockAfter(wall, es)
  {
    if es != [] {
      var before, e := es[..|es| - 1], es[|es| - 1];
      WindowIsExact(wall, before);
      if e.Sampled? {
        SampleKeepsExact(Run(FirstBoot(wall), before), e);
      }
    }
  }

  // ─── Any clock: still a subsequence of what was counted ───────────

  predicate Subsequence(a: seq<int>, b: seq<int>) {
    a == [] || (b != [] && (if a[0] == b[0] then Subsequence(a[1..], b[1..]) else Subsequence(a, b[1..])))
  }

  lemma {:induction false} SubsequenceTail(a: seq<int>, b: seq<int>)
    requires a != [] && Subsequence(a, b)
    ensures Subsequence(a[1..], b)
    decreases |b|
  {
    if a[0] == b[0] {
      SubsequenceInLonger(a[1..], b);
    } else {
      SubsequenceTail(a, b[1..]);
      SubsequenceInLonger(a[1..], b);
    }
  }

  lemma {:induction false} SubsequenceInLonger(a: seq<int>, b: seq<int>)
    requires b != [] && Subsequence(a, b[1..])
    ensures Subsequence(a, b)
    decreases |b|, 0
  {
    if a != [] && a[0] == b[0] {
      SubsequenceTail(a, b[1..]);
    }
  }

  lemma {:induction false} SubsequenceExtend(a: seq<int>, b: seq<int>, t: int)
    requires Subsequence(a, b)
    ensures Subsequence(a + [t], b + [t])
    ensures Subsequence(a, b + [t])
    decreases |b|
  {
    if b == [] {
      assert a == [];
    } else {
      assert (b + [t])[1..] == b[1..] + [t];
      if a == [] {
        SubsequenceExtend([], b[1..], t);
        assert [] + [t] == [t];
        SubsequenceInLonger([t], b + [t]);
      } else {
        assert (a + [t])[1..] == a[1..] + [t];
        SubsequenceExtend(if a[0] == b[0] then a[1..] else a, b[1..], t);
      }
    }
  }

  lemma {:induction false} SubsequenceSince(a: seq<int>, b: seq<int>, cutoff: int)
    requires Subsequence(a, b)
    ensures Subsequence(Since(a, cutoff), b)
    decreases |b|
  {
    if a != [] {
      if a[0] == b[0] {
        SubsequenceSince(a[1..], b[1..], cutoff);
        if a[0] < cutoff {
          SubsequenceInLonger(Since(a[1..], cutoff), b);
        } else {
          assert Since(a, cutoff)[1..] == Since(a[1..], cutoff);
        }
      } else {
        SubsequenceSince(a, b[1..], cutoff);
        SubsequenceInLonger(Since(a, cutoff), b);
      }
    }
  }

  lemma {:induction false} SubsequenceEvict(a: seq<int>, b: seq<int>, cutoff: int)
    requires Subsequence(a, b)
    ensures Subsequence(Evict(a, cutoff), b)
    decreases |a|
  {
    if a != [] && a[0] < cutoff {
      SubsequenceTail(a, b);
      SubsequenceEvict(a[1..], b, cutoff);
    }
  }

  /** Whatever the clock does, the deque holds only transfers that were counted, in the order they
      were counted, and the published count is its length. */
  lemma {:induction false} WindowIsSubsequence(wall: int, es: seq<Event>)
    ensures var era := Run(FirstBoot(wall), es);
            && Subsequence(era.store.recent, era.counted)
            && Subsequence(era.disk.recent, era.counted)
            && era.store.snap.count24h == |era.store.recent|
  {
    if es != [] {
      var before, e := es[..|es| - 1], es[|es| - 1];
      WindowIsSubsequence(wall, before);
      var era := Run(FirstBoot(wall), before);
      match e
      case Restarted(w) =>
        SubsequenceSince(era.disk.recent, era.counted, w - ROLLING_WINDOW_S);
      case Sampled(inputs, w) =>
        SubsequenceExtend(era.store.recent, era.counted, w);
        SubsequenceExtend(era.disk.recent, era.counted, w);
        var after := Step(era, e);
        SubsequenceEvict(
          if ToGenerator(era.store.snap.position, inputs.position) then era.store.recent + [w] else era.store.recent,
          after.counted, w - ROLLING_WINDOW_S);
    }
  }

  function At(position: Position): InputSnapshot {
    InputSnapshot(position, true, true, false, Auto, {})
  }

  /** Two transfers, the wall clock set back by `t` seconds in between, then set forward again. */
  function ClockSetBack(t: int): seq<Event> {
    [Sampled(At(Utility), t), Sampled(At(Generator), t), Sampled(At(Utility), t),
     Sampled(At(Generator), 0), Sampled(At(Generator), t)]
  }

  lemma OneExpires(t: int)
    requires ROLLING_WINDOW_S < t
    ensures Window([t, 0], t) == [t]
    ensures Evict([t, 0], t - ROLLING_WINDOW_S) == [t, 0]
  {
    assert [t, 0][1..] == [0] && [0][1..] == [];
    assert Since([0], t - ROLLING_WINDOW_S) == [];
  }

  lemma RunNext(era: Era, es: seq<Event>, k: nat)
    requires k < |es|
    ensures Run(era, es[..k + 1]) == Step(Run(era, es[..k]), es[k])
  {
    assert es[..k + 1][..k] == es[..k];
  }

  predicate Looks(era: Era, position: Position, ts: seq<int>) {
    era.store.snap.position == position && era.store.recent == ts && era.counted == ts
  }

  lemma CountsAtUtility(era: Era, wall: int, ts: seq<int>)
    requires Looks(era, Utility, ts) && Evict(ts + [wall], wall - ROLLING_WINDOW_S) == ts + [wall]
    ensures Looks(Step(era, Sampled(At(Generator), wall)), Generator, ts + [wall])
  {
  }

  lemma SamplesUtility(era: Era, wall: int, ts: seq<int>)
    requires era.store.recent == era.counted == ts && Evict(ts, wall - ROLLING_WINDOW_S) == ts
    ensures Looks(Step(era, Sampled(At(Utility), wall)), Utility, ts)
  {
  }

  /** Both runs begin by counting one transfer at `w`. */
  lemma CountedOnce(wall: int, es: seq<Event>, w: int)
    requires |es| >= 2 && es[0] == Sampled(At(Utility), w) && es[1] == Sampled(At(Generator), w)
    ensures Looks(Run(FirstBoot(wall), es[..2]), Generator, [w])
  {
    var s0 := FirstBoot(wall);
    RunNext(s0, es, 0);
    SamplesUtility(s0, w, []);
    RunNext(s0, es, 1);
    CountsAtUtility(Run(s0, es[..1]), w, []);
    assert [] + [w] == [w];
  }

  lemma StaysAtGenerator(era: Era, wall: int, ts: seq<int>)
    requires Looks(era, Generator, ts) && Evict(ts, wall - ROLLING_WINDOW_S) == ts
    ensures var after := Step(era, Sampled(At(Generator), wall));
      Looks(after, Generator, ts) && after.clock == wall && after.store.snap.count24h == |ts|
  {
  }

  lemma BackAtUtility(wall: int, es: seq<Event>, t: int)
    requires |es| >= 3 && es[0] == Sampled(At(Utility), t) && es[1] == Sampled(At(Generator), t)
    requires es[2] == Sampled(At(Utility), t)
    ensures Looks(Run(FirstBoot(wall), es[..3]), Utility, [t])
  {
    CountedOnce(wall, es, t);
    RunNext(FirstBoot(wall), es, 2);
    SamplesUtility(Run(FirstBoot(wall), es[..2]), t, [t]);
  }

  lemma CountedTwice(wall: int, es: seq<Event>, t: int)
    requires ROLLING_WINDOW_S < t && |es| == 5
    requires es[0] == Sampled(At(Utility), t) && es[1] == Sampled(At(Generator), t)
    requires es[2] == Sampled(At(Utility), t) && es[3] == Sampled(At(Generator), 0)
    ensures Looks(Run(FirstBoot(wall), es[..4]), Generator, [t, 0])
  {
    var s0 := FirstBoot(wall);
    BackAtUtility(wall, es, t);
    RunNext(s0, es, 3);
    CountsAtUtility(Run(s0, es[..3]), 0, [t]);
    assert [t] + [0] == [t, 0];
  }

  /** Too much: in a run from first boot, after a step back of more than 24 h is undone, the deque and
      the published count still hold a transfer that has expired. */
  lemma BackwardClockKeepsExpired(wall: int, t: int)
    requires 86400 < t
    ensures var era := Run(FirstBoot(wall), ClockSetBack(t));
      && era.counted == [t, 0] && era.clock == t
      && era.store.recent == [t, 0] && era.store.snap.count24h == 2
      && Window(era.counted, era.clock) == [t]
  {
    var es, s0 := ClockSetBack(t), FirstBoot(wall);
    CountedTwice(wall, es, t);
    RunNext(s0, es, 4);
    assert es[..5] == es;
    OneExpires(t);
    StaysAtGenerator(Run(s0, es[..4]), t, [t, 0]);
  }

  /** One transfer, the wall clock set forward by `t` seconds and back again. */
  function ClockSetForward(t: int): seq<Event> {
    [Sampled(At(Utility), 0), Sampled(At(Generator), 0), Sampled(At(Generator), t), Sampled(At(Generator), 0)]
  }

  predicate Forgotten(era: Era) {
    era.store.snap.position == Generator && era.store.recent == [] && era.counted == [0]
  }

  lemma ForgetsAtGenerator(era: Era, wall: int)
    requires Looks(era, Generator, [0]) && wall > ROLLING_WINDOW_S
    ensures Forgotten(Step(era, Sampled(At(Generator), wall)))
  {
    assert [0][1..] == [] && Evict([0], wall - ROLLING_WINDOW_S) == [];
  }

  lemma StaysForgotten(era: Era, wall: int)
    requires Forgotten(era)
    ensures var after := Step(era, Sampled(At(Generator), wall));
      Forgotten(after) && after.clock == wall && after.store.snap.count24h == 0
  {
  }

  lemma ForgottenAfterJump(wall: int, es: seq<Event>, t: int)
    requires ROLLING_WINDOW_S < t && |es| >= 3
    requires es[0] == Sampled(At(Utility), 0) && es[1] == Sampled(At(Generator), 0)
    requires es[2] == Sampled(At(Generator), t)
    ensures Forgotten(Run(FirstBoot(wall), es[..3]))
  {
    CountedOnce(wall, es, 0);
    RunNext(FirstBoot(wall), es, 2);
    ForgetsAtGenerator(Run(FirstBoot(wall), es[..2]), t);
  }

  /** Too little: in a run from first boot, after a step forward of more than 24 h is undone, a transfer
      of this very second is missing from the deque and from the published count. */
  lemma ForwardJumpForgets(wall: int, t: int)
    requires 86400 < t
    ensures var era := Run(FirstBoot(wall), ClockSetForward(t));
      && era.counted == [0] && era.clock == 0
      && era.store.recent == [] && era.store.snap.count24h == 0
      && Window(era.counted, era.clock) == [0]
  {
    var es := ClockSetForward(t);
    ForgottenAfterJump(wall, es, t);
    RunNext(FirstBoot(wall), es, 3);
    assert es[..4] == es;
    StaysForgotten(Run(FirstBoot(wall), es[..3]), 0);
    assert [0][1..] == [] && Window([0], 0) == [0];
  }
}
