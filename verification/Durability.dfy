/** The lifetime count across samples, Modbus reads, executor saves and power losses, over the file
    system the saves run on. */
module Durability {
  import opened Domain
  import opened Registers
  import opened Persistence

  /** `inFlight` holds the images of executor saves that have not run yet; `highest` is the highest
      lifetime count any Modbus read has ever returned. */
  datatype System = System(store: Store, fs: Fs, inFlight: seq<Persisted>, highest: int)

  /** How one save goes: the temporary file it gets, and which of its calls fail. */
  datatype SaveCall = SaveCall(temp: Name, inode: Inode, faults: Faults)

  /** A crash leaves `after`: of the process, which leaves the file system as it is, or of the machine.
      Inside a save it hits after the save's `k`-th call. */
  datatype Event =
    | Sampled(inputs: InputSnapshot, wall: int, call: SaveCall)
    | Read
    | ExecutorDone(i: nat, call: SaveCall)
    | Crash(after: Fs, wall: int)
    | CrashInSample(inputs: InputSnapshot, at: int, call: SaveCall, k: nat, after: Fs, wall: int)
    | CrashInExecutor(i: nat, call: SaveCall, k: nat, after: Fs, wall: int)

  function FirstBoot(fs: Fs, wall: int): System
    requires fs.dirs != []
  {
    System(BootStore(Load(fs), wall), fs, [], Load(fs).lifetime)
  }

  predicate Critical(s: System, inputs: InputSnapshot) {
    SaveKindFor(s.store, inputs) == CriticalSave
  }

  ghost predicate CanSave(fs: Fs, call: SaveCall) {
    Fresh(fs, call.temp, call.inode)
  }

  function Through(fs: Fs, state: Persisted, call: SaveCall): Fs
    requires fs.dirs != []
  {
    Saved(fs, state, call.temp, call.inode, call.faults)
  }

  /** The instants of a save, beginning with the one at which it starts. */
  function Instants(fs: Fs, state: Persisted, call: SaveCall): seq<Fs>
    requires fs.dirs != []
  {
    Saving(fs, state, call.temp, call.inode, call.faults)
  }

  ghost predicate Survives(fs: Fs, after: Fs) {
    PowerLoss(fs, after) || (after == fs && fs.dirs != [])
  }

  /** A crash after the `k`-th call of this save may leave `after`. */
  ghost predicate CrashAt(fs: Fs, state: Persisted, call: SaveCall, k: nat, after: Fs) {
    CanSave(fs, call) && k < |Instants(fs, state, call)| && Survives(Instants(fs, state, call)[k], after)
  }

  ghost predicate Possible(s: System, e: Event) {
    match e
    case Sampled(inputs, _, call) => Critical(s, inputs) ==> CanSave(s.fs, call)
    case Read => true
    case ExecutorDone(i, call) => i < |s.inFlight| && CanSave(s.fs, call)
    case Crash(after, _) => Survives(s.fs, after)
    case CrashInSample(inputs, at, call, k, after, _) =>
      Critical(s, inputs) && CrashAt(s.fs, Image(ApplyInputs(s.store, inputs, at)), call, k, after)
    case CrashInExecutor(i, call, k, after, _) =>
      i < |s.inFlight| && CrashAt(s.fs, s.inFlight[i], call, k, after)
  }

  function Reboot(s: System, after: Fs, wall: int): System
    requires after.dirs != []
  {
    s.(store := BootStore(Load(after), wall), fs := after, inFlight := [])
  }

  /** An event that is not possible changes nothing. A critical save that fails is only logged. */
  ghost function Step(s: System, e: Event): System {
    if !Possible(s, e) then s
    else
      match e
      case Sampled(inputs, wall, call) =>
        var store := ApplyInputs(s.store, inputs, wall);
        (match SaveKindFor(s.store, inputs)
         case NoSave => s.(store := store)
         case ExecutorSave => s.(store := store, inFlight := s.inFlight + [Image(store)])
         case CriticalSave => s.(store := store, fs := Through(s.fs, Image(store), call)))
      case Read => s.(highest := if s.store.snap.lifetime > s.highest then s.store.snap.lifetime else s.highest)
      case ExecutorDone(i, call) =>
        s.(fs := Through(s.fs, s.inFlight[i], call), inFlight := s.inFlight[..i] + s.inFlight[i + 1..])
      case Crash(after, wall) => Reboot(s, after, wall)
      case CrashInSample(_, _, _, _, after, wall) => Reboot(s, after, wall)
      case CrashInExecutor(_, _, _, after, wall) => Reboot(s, after, wall)
  }

  ghost function Run(s: System, es: seq<Event>): System
    decreases |es|
  {
    if es == [] then s else Run(Step(s, es[0]), es[1..])
  }

  // ─── The count never goes back ────────────────────────────────────

  /** A critical save that completes has replaced the file and synced the directory, and does not run
      beside an executor save; and the process alone does not crash between those two calls. */
  ghost predicate Proviso(s: System, e: Event) {
    Possible(s, e) ==>
      match e
      case Sampled(inputs, _, call) => Critical(s, inputs) ==> Commits(call.faults) && s.inFlight == []
      case CrashInSample(inputs, at, call, k, after, _) =>
        var state := Image(ApplyInputs(s.store, inputs, at));
        Unsettled(s.fs, state, call.temp, call.inode, call.faults, k) ==>
          PowerLoss(Instants(s.fs, state, call)[k], after)
      case _ => true
  }

  ghost predicate Disciplined(s: System, es: seq<Event>)
    decreases |es|
  {
    es != [] ==> Proviso(s, es[0]) && Disciplined(Step(s, es[0]), es[1..])
  }

  /** Nothing a power loss could reveal now is below what a read has returned. */
  ghost predicate Monotone(s: System) {
    forall p :: MayReload(s.fs, p) ==> p.lifetime >= s.highest
  }

  ghost predicate Carries(fs: Fs, lifetime: int) {
    forall d :: d in fs.dirs ==> LoadFrom(d, fs.files).lifetime == lifetime
  }

  ghost predicate Inv(s: System) {
    && Intact(s.fs) && Carries(s.fs, s.store.snap.lifetime) && s.store.snap.lifetime >= s.highest
    && forall i :: 0 <= i < |s.inFlight| ==> s.inFlight[i].lifetime == s.store.snap.lifetime
  }

  lemma CarriesReloads(fs: Fs, lifetime: int, p: Persisted)
    requires Intact(fs) && Carries(fs, lifetime) && (MayReload(fs, p) || Reveals(fs, p))
    ensures p.lifetime == lifetime
  {
    ReloadsAreVersions(fs, p);
  }

  /** At any instant of a save, what a power loss reveals has the old count or the new one. */
  lemma InstantCarries(fs: Fs, lifetime: int, state: Persisted, call: SaveCall, k: nat)
    requires Intact(fs) && Carries(fs, lifetime) && CanSave(fs, call)
    requires k < |Instants(fs, state, call)|
    ensures var at := Instants(fs, state, call)[k];
      Intact(at) && forall d :: d in at.dirs ==> LoadFrom(d, at.files).lifetime in {lifetime, state.lifetime}
  {
    var at := Instants(fs, state, call)[k];
    InstantIsOldOrNew(fs, state, call.temp, call.inode, call.faults, k);
    forall d | d in at.dirs ensures LoadFrom(d, at.files).lifetime in {lifetime, state.lifetime} {
      if LoadFrom(d, at.files) != state {
        CarriesReloads(fs, lifetime, LoadFrom(d, at.files));
      }
    }
  }

  lemma SavedCarries(fs: Fs, lifetime: int, state: Persisted, call: SaveCall)
    requires Intact(fs) && Carries(fs, lifetime) && CanSave(fs, call) && state.lifetime == lifetime
    ensures Intact(Through(fs, state, call)) && Carries(Through(fs, state, call), lifetime)
  {
    InstantCarries(fs, lifetime, state, call, |Instants(fs, state, call)| - 1);
  }

  /** A machine that comes back carries one count; so does a process that restarts over versions that
      all carry the same one. */
  lemma RebootKeepsInv(s: System, at: Fs, after: Fs, wall: int)
    requires Intact(at) && Survives(at, after)
    requires PowerLoss(at, after) || Carries(at, Load(at).lifetime)
    requires forall d :: d in at.dirs ==> LoadFrom(d, at.files).lifetime >= s.highest
    ensures Inv(Reboot(s, after, wall))
  {
    if PowerLoss(at, after) {
      PowerLossSettles(at, after);
      ReloadsAreVersions(at, Load(after));
    } else {
      assert Live(at) in at.dirs;
    }
  }

  lemma CrashInSampleKeepsInv(s: System, state: Persisted, call: SaveCall, k: nat, after: Fs, wall: int)
    requires Inv(s) && CrashAt(s.fs, state, call, k, after) && state.lifetime >= s.highest
    requires Unsettled(s.fs, state, call.temp, call.inode, call.faults, k) ==>
               PowerLoss(Instants(s.fs, state, call)[k], after)
    ensures Inv(Reboot(s, after, wall))
  {
    var at := Instants(s.fs, state, call)[k];
    InstantCarries(s.fs, s.store.snap.lifetime, state, call, k);
    if !Unsettled(s.fs, state, call.temp, call.inode, call.faults, k) {
      SettledIsOldOrDurable(s.fs, state, call.temp, call.inode, call.faults, k);
      if OnlyOld(s.fs, at) {
        OldCarries(s.fs, s.store.snap.lifetime, at);
      }
    }
    RebootKeepsInv(s, at, after, wall);
  }

  lemma OldCarries(fs: Fs, lifetime: int, at: Fs)
    requires Intact(fs) && Carries(fs, lifetime) && OnlyOld(fs, at)
    ensures Carries(at, lifetime) && Load(at).lifetime == lifetime
  {
    forall d | d in at.dirs ensures LoadFrom(d, at.files).lifetime == lifetime {
      CarriesReloads(fs, lifetime, LoadFrom(d, at.files));
    }
    assert Live(at) in at.dirs;
  }

  lemma CrashInExecutorKeepsInv(s: System, state: Persisted, call: SaveCall, k: nat, after: Fs, wall: int)
    requires Inv(s) && CrashAt(s.fs, state, call, k, after) && state.lifetime == s.store.snap.lifetime
    ensures Inv(Reboot(s, after, wall))
  {
    var at := Instants(s.fs, state, call)[k];
    InstantCarries(s.fs, s.store.snap.lifetime, state, call, k);
    assert Live(at) in at.dirs;
    RebootKeepsInv(s, at, after, wall);
  }

  lemma SampleKeepsInv(s: System, inputs: InputSnapshot, wall: int, call: SaveCall)
    requires Inv(s) && Proviso(s, Sampled(inputs, wall, call))
    ensures Inv(Step(s, Sampled(inputs, wall, call)))
  {
    if Critical(s, inputs) && CanSave(s.fs, call) {
      SavingIsSafe(s.fs, Image(ApplyInputs(s.store, inputs, wall)), call.temp, call.inode, call.faults);
    }
  }

  lemma StepKeepsInv(s: System, e: Event)
    requires Inv(s) && Proviso(s, e)
    ensures Inv(Step(s, e))
  {
    if Possible(s, e) {
      match e
      case Sampled(inputs, wall, call) => SampleKeepsInv(s, inputs, wall, call);
      case Read =>
      case ExecutorDone(i, call) => SavedCarries(s.fs, s.store.snap.lifetime, s.inFlight[i], call);
      case Crash(after, wall) =>
        assert Live(s.fs) in s.fs.dirs;
        RebootKeepsInv(s, s.fs, after, wall);
      case CrashInSample(inputs, at, call, k, after, wall) =>
        CrashInSampleKeepsInv(s, Image(ApplyInputs(s.store, inputs, at)), call, k, after, wall);
      case CrashInExecutor(i, call, k, after, wall) =>
        CrashInExecutorKeepsInv(s, s.inFlight[i], call, k, after, wall);
    }
  }

  /** Across any number of restarts and power losses, between saves or after any call of one, whatever
      else fails: in every disciplined run whatever a power loss could reveal has at least every count a
      read ever returned. */
  lemma {:induction false} CountNeverGoesBack(s: System, es: seq<Event>)
    requires Inv(s) && Disciplined(s, es)
    ensures Inv(Run(s, es)) && Monotone(Run(s, es))
    decreases |es|
  {
    if es != [] {
      StepKeepsInv(s, es[0]);
      CountNeverGoesBack(Step(s, es[0]), es[1..]);
    } else {
      forall p | MayReload(s.fs, p) ensures p.lifetime >= s.highest {
        CarriesReloads(s.fs, s.store.snap.lifetime, p);
      }
    }
  }

  lemma FirstBootIsMonotone(fs: Fs, wall: int, es: seq<Event>)
    requires fs.dirs != [] && Durable(fs, Load(fs)) && Disciplined(FirstBoot(fs, wall), es)
    ensures Monotone(Run(FirstBoot(fs, wall), es))
  {
    CountNeverGoesBack(FirstBoot(fs, wall), es);
  }

  /** Every executor save in flight can run to its end, one after the other, and then none is left. */
  lemma {:induction false} InFlightDrains(s: System) returns (es: seq<Event>)
    requires Intact(s.fs)
    ensures |es| == |s.inFlight| && forall e :: e in es ==> e.ExecutorDone? && e.call.faults == NO_FAULTS
    ensures var end := Run(s, es);
      end.inFlight == [] && end.store == s.store && Disciplined(s, es)
      && end.fs.dirs != [] && Load(end.fs) == if s.inFlight == [] then Load(s.fs) else s.inFlight[|s.inFlight| - 1]
    decreases |s.inFlight|
  {
    if s.inFlight == [] {
      es := [];
    } else {
      var call := SomeCall(s.fs, NO_FAULTS);
      var first := ExecutorDone(0, call);
      SavingIsSafe(s.fs, s.inFlight[0], call.temp, call.inode, NO_FAULTS);
      var after := Step(s, first);
      assert after.inFlight == s.inFlight[1..];
      var rest := InFlightDrains(after);
      es := [first] + rest;
      assert es[1..] == rest;
    }
  }

  // ─── The proviso is exact ─────────────────────────────────────────

  /** Whatever disciplined run follows, the count never goes back. */
  ghost predicate AlwaysMonotone(s: System) {
    forall es :: Disciplined(s, es) ==> Monotone(Run(s, es))
  }

  lemma {:induction false} Bounded(s: set<nat>) returns (bound: nat)
    ensures forall x :: x in s ==> x < bound
    decreases s
  {
    bound := 0;
    if x :| x in s {
      var rest := Bounded(s - {x});
      bound := if rest <= x then x + 1 else rest;
      assert forall y :: y in s ==> y == x || y in s - {x};
    }
  }

  /** A save can always start. */
  lemma SomeCall(fs: Fs, faults: Faults) returns (call: SaveCall)
    requires fs.dirs != []
    ensures CanSave(fs, call) && call.faults == faults
  {
    var ids := set x | x in Live(fs).Keys && x.Temp? :: x.id;
    var id := Bounded(ids);
    assert forall x :: x in Live(fs) && x.Temp? ==> x.id in ids;
    var n := Bounded(fs.files.Keys);
    call := SaveCall(Temp(id), n, faults);
  }

  /** A power loss that reveals any of the versions. */
  lemma SomeCrash(fs: Fs, p: Persisted) returns (after: Fs)
    requires Intact(fs) && Reveals(fs, p)
    ensures PowerLoss(fs, after) && Load(after) == p
  {
    ReloadsAreVersions(fs, p);
    after :| PowerLoss(fs, after) && Load(after) == p;
  }

  lemma LiveIsRevealed(fs: Fs)
    requires Intact(fs)
    ensures Reveals(fs, Load(fs)) && MayReload(fs, Load(fs))
  {
    assert Live(fs) in fs.dirs;
    ReloadsAreVersions(fs, Load(fs));
  }

  /** A system that has counted further than a version it still keeps is exposed: one read is enough. */
  lemma OldStillReloads(s: System, after: System)
    requires Inv(s) && Intact(after.fs) && Kept(s.fs, after.fs)
    requires after.store.snap.lifetime > s.store.snap.lifetime
    ensures !AlwaysMonotone(after)
  {
    LiveIsRevealed(s.fs);
    KeptReloadsOld(s.fs, after.fs, Load(s.fs));
    CarriesReloads(s.fs, s.store.snap.lifetime, Load(s.fs));
    var read := [Read];
    assert read[1..] == [] && Disciplined(after, read);
    assert Run(after, read) == Step(after, Read);
    assert !Monotone(Run(after, read));
  }

  /** Without the directory fsync the old count may come back after a read of the new one. */
  lemma UncommittedIsExposed(s: System, inputs: InputSnapshot, wall: int, call: SaveCall)
    requires Inv(s) && Critical(s, inputs) && CanSave(s.fs, call) && !Commits(call.faults)
    ensures !AlwaysMonotone(Step(s, Sampled(inputs, wall, call)))
  {
    var state := Image(ApplyInputs(s.store, inputs, wall));
    InstantIsOldOrNew(s.fs, state, call.temp, call.inode, call.faults, |Instants(s.fs, state, call)| - 1);
    UncommittedKeeps(s.fs, state, call.temp, call.inode, call.faults);
    OldStillReloads(s, Step(s, Sampled(inputs, wall, call)));
  }

  /** An executor save that completes leaves its own image, whatever was there. */
  lemma StaleSaveWins(s: System, stale: SaveCall)
    requires Intact(s.fs) && CanSave(s.fs, stale) && stale.faults == NO_FAULTS
    requires s.inFlight != [] && s.inFlight[0].lifetime < s.highest
    ensures !Monotone(Step(s, ExecutorDone(0, stale)))
  {
    SavingIsSafe(s.fs, s.inFlight[0], stale.temp, stale.inode, NO_FAULTS);
    var after := Step(s, ExecutorDone(0, stale));
    assert Load(after.fs) == s.inFlight[0];
    LiveIsRevealed(after.fs);
  }

  lemma RunOfTwo(s: System, a: Event, b: Event)
    ensures Run(s, [a, b]) == Step(Step(s, a), b)
    ensures Disciplined(s, [a, b]) <==> Proviso(s, a) && Proviso(Step(s, a), b)
  {
    assert [a, b][1..] == [b] && [b][1..] == [];
    assert Run(Step(s, a), [b]) == Step(Step(s, a), b);
    assert Disciplined(Step(s, a), [b]) <==> Proviso(Step(s, a), b);
  }

  /** An executor save that runs after the critical one brings the old count back. */
  lemma OvertakenIsExposed(s: System, inputs: InputSnapshot, wall: int, call: SaveCall)
    requires Inv(s) && Critical(s, inputs) && CanSave(s.fs, call) && s.inFlight != []
    ensures !AlwaysMonotone(Step(s, Sampled(inputs, wall, call)))
  {
    var state := Image(ApplyInputs(s.store, inputs, wall));
    var after := Step(s, Sampled(inputs, wall, call));
    InstantIsOldOrNew(s.fs, state, call.temp, call.inode, call.faults,
                      |Instants(s.fs, state, call)| - 1);
    assert Intact(after.fs);
    var stale := SomeCall(after.fs, NO_FAULTS);
    RunOfTwo(after, Read, ExecutorDone(0, stale));
    StaleSaveWins(Step(after, Read), stale);
  }

  /** A process that restarts over a replaced file whose directory was not synced serves a count that
      a later power loss takes back. */
  lemma KilledUnsettledIsExposed(s: System, inputs: InputSnapshot, at: int, call: SaveCall, k: nat, wall: int)
    requires Inv(s) && Critical(s, inputs)
    requires var state := Image(ApplyInputs(s.store, inputs, at));
      && CanSave(s.fs, call) && k < |Instants(s.fs, state, call)|
      && Unsettled(s.fs, state, call.temp, call.inode, call.faults, k)
    ensures var killed := Instants(s.fs, Image(ApplyInputs(s.store, inputs, at)), call)[k];
      !AlwaysMonotone(Step(s, CrashInSample(inputs, at, call, k, killed, wall)))
  {
    var state := Image(ApplyInputs(s.store, inputs, at));
    var killed := Instants(s.fs, state, call)[k];
    InstantIsOldOrNew(s.fs, state, call.temp, call.inode, call.faults, k);
    UnsettledIsBoth(s.fs, state, call.temp, call.inode, call.faults, k);
    var after := Step(s, CrashInSample(inputs, at, call, k, killed, wall));
    OldStillReloads(s, after);
  }

  /** The crash half of the proviso is exact too: when the process alone crashes inside a critical save,
      the count is safe under every continuation if and only if it is not between the two calls. */
  lemma KillIsExact(s: System, inputs: InputSnapshot, at: int, call: SaveCall, k: nat, wall: int)
    requires Inv(s) && Critical(s, inputs) && CanSave(s.fs, call)
    requires k < |Instants(s.fs, Image(ApplyInputs(s.store, inputs, at)), call)|
    ensures var state := Image(ApplyInputs(s.store, inputs, at));
      var killed := Instants(s.fs, state, call)[k];
      AlwaysMonotone(Step(s, CrashInSample(inputs, at, call, k, killed, wall))) <==>
        !Unsettled(s.fs, state, call.temp, call.inode, call.faults, k)
  {
    var state := Image(ApplyInputs(s.store, inputs, at));
    var killed := Instants(s.fs, state, call)[k];
    if Unsettled(s.fs, state, call.temp, call.inode, call.faults, k) {
      KilledUnsettledIsExposed(s, inputs, at, call, k, wall);
    } else {
      InstantIsOldOrNew(s.fs, state, call.temp, call.inode, call.faults, k);
      var e := CrashInSample(inputs, at, call, k, killed, wall);
      StepKeepsInv(s, e);
      forall es | Disciplined(Step(s, e), es) ensures Monotone(Run(Step(s, e), es)) {
        CountNeverGoesBack(Step(s, e), es);
      }
    }
  }

  /** The proviso is exact: after a critical save the count is safe under every continuation if and
      only if the save replaced the file and synced its directory, and no executor save was in flight
      when it ran. A save may return normally and still not be safe. */
  lemma ProvisoIsExact(s: System, inputs: InputSnapshot, wall: int, call: SaveCall)
    requires Inv(s) && Critical(s, inputs) && CanSave(s.fs, call)
    ensures AlwaysMonotone(Step(s, Sampled(inputs, wall, call))) <==> Commits(call.faults) && s.inFlight == []
  {
    var after := Step(s, Sampled(inputs, wall, call));
    if s.inFlight != [] {
      OvertakenIsExposed(s, inputs, wall, call);
    } else if !Commits(call.faults) {
      UncommittedIsExposed(s, inputs, wall, call);
    } else {
      SampleKeepsInv(s, inputs, wall, call);
      forall es | Disciplined(after, es) ensures Monotone(Run(after, es)) {
        CountNeverGoesBack(after, es);
      }
    }
  }

  // ─── The two ways to lose a count, from first boot ────────────────

  function At(position: Position): InputSnapshot {
    InputSnapshot(position, true, true, false, Auto, {})
  }

  /** A sample that saves nothing on the way: only what it does to the store matters. */
  lemma BootThenUtility(fs: Fs, wall: int, call: SaveCall)
    requires fs.dirs != []
    ensures var s := Step(FirstBoot(fs, wall), Sampled(At(Utility), 10, call));
      s.fs == fs && s.inFlight == [] && s.store.snap.position == Utility
      && s.store.snap.lifetime == s.highest == Load(fs).lifetime
  {
  }

  lemma UnsyncedKeepsOld(fs: Fs, state: Persisted, call: SaveCall)
    requires Intact(fs) && CanSave(fs, call) && Replaces(call.faults) && !Commits(call.faults)
    ensures var after := Through(fs, state, call);
      Intact(after) && Load(after) == state && Reveals(after, Load(fs))
  {
    InstantIsOldOrNew(fs, state, call.temp, call.inode, call.faults, |Instants(fs, state, call)| - 1);
    SavingIsSafe(fs, state, call.temp, call.inode, call.faults);
    LiveIsRevealed(fs);
    KeptReloadsOld(fs, Through(fs, state, call), Load(fs));
    ReloadsAreVersions(Through(fs, state, call), Load(fs));
  }

  lemma OldImageReturns(s: System, p: Persisted) returns (after: Fs)
    requires Intact(s.fs) && Reveals(s.fs, p) && s.store.snap.lifetime > s.highest
    ensures var end := Step(Step(s, Read), Crash(after, 30));
      end.highest == s.store.snap.lifetime && end.store.snap.lifetime == p.lifetime
  {
    after := SomeCrash(s.fs, p);
  }

  /** A save that returns normally although the directory could not be synced: a read returns the new
      count, and the power loss that follows brings the old one back. */
  lemma UnsyncedDirectoryLosesCount(fs: Fs, wall: int) returns (call: SaveCall, after: Fs)
    requires fs.dirs != [] && Durable(fs, Load(fs))
    ensures call.faults == NO_FAULTS.(fsyncDir := true) && OutcomeOf(call.faults) == Returned
    ensures var s := Run(FirstBoot(fs, wall), [Sampled(At(Utility), 10, call), Sampled(At(Generator), 20, call)]);
      var end := Run(s, [Read, Crash(after, 30)]);
      && s.fs.dirs != [] && Load(s.fs) == Image(s.store)
      && end.highest == Load(fs).lifetime + 1 && end.store.snap.lifetime == Load(fs).lifetime
  {
    call := SomeCall(fs, NO_FAULTS.(fsyncDir := true));
    RunOfTwo(FirstBoot(fs, wall), Sampled(At(Utility), 10, call), Sampled(At(Generator), 20, call));
    BootThenUtility(fs, wall, call);
    var s1 := Step(FirstBoot(fs, wall), Sampled(At(Utility), 10, call));
    var s2 := Step(s1, Sampled(At(Generator), 20, call));
    UnsyncedKeepsOld(fs, Image(s2.store), call);
    after := OldImageReturns(s2, Load(fs));
    RunOfTwo(s2, Read, Crash(after, 30));
  }

  /** Every save succeeds, but a retransfer's executor save runs after the next transfer's critical
      one: a read returns the new count, and the reboot publishes the old one. */
  lemma StaleOverwrite(fs: Fs, wall: int, any: SaveCall)
    returns (critical: SaveCall, stale: SaveCall, after: Fs)
    requires fs.dirs != [] && Durable(fs, Load(fs))
    ensures critical.faults == stale.faults == NO_FAULTS
    ensures var s := Run(FirstBoot(fs, wall), [Sampled(At(Generator), 10, any), Sampled(At(Utility), 20, any)]);
      var read := Run(s, [Sampled(At(Generator), 30, critical), Read]);
      var end := Run(read, [ExecutorDone(0, stale), Crash(after, 40)]);
      end.highest == Load(fs).lifetime + 1 && end.store.snap.lifetime == Load(fs).lifetime
  {
    critical := SomeCall(fs, NO_FAULTS);
    var s := BootThenRetransfer(fs, wall, any);
    var overtaking := Sampled(At(Generator), 30, critical);
    RunOfTwo(s, overtaking, Read);
    var read := Step(Step(s, overtaking), Read);
    CountedAndRead(s, critical);
    stale := SomeCall(read.fs, NO_FAULTS);
    after := StaleImageReturns(read, stale);
    RunOfTwo(read, ExecutorDone(0, stale), Crash(after, 40));
  }

  lemma BootThenRetransfer(fs: Fs, wall: int, any: SaveCall) returns (s: System)
    requires fs.dirs != []
    ensures s == Run(FirstBoot(fs, wall), [Sampled(At(Generator), 10, any), Sampled(At(Utility), 20, any)])
    ensures s.fs == fs && s.store.snap.position == Utility
    ensures s.store.snap.lifetime == s.highest == Load(fs).lifetime
    ensures |s.inFlight| == 1 && s.inFlight[0].lifetime == Load(fs).lifetime
  {
    RunOfTwo(FirstBoot(fs, wall), Sampled(At(Generator), 10, any), Sampled(At(Utility), 20, any));
    s := Run(FirstBoot(fs, wall), [Sampled(At(Generator), 10, any), Sampled(At(Utility), 20, any)]);
  }

  lemma CountedAndRead(s: System, critical: SaveCall)
    requires s.store.snap.position == Utility && s.store.snap.lifetime == s.highest
    requires Intact(s.fs) && CanSave(s.fs, critical) && critical.faults == NO_FAULTS
    ensures var read := Step(Step(s, Sampled(At(Generator), 30, critical)), Read);
      Intact(read.fs) && read.highest == s.highest + 1 && read.inFlight == s.inFlight
  {
    SavingIsSafe(s.fs, Image(ApplyInputs(s.store, At(Generator), 30)), critical.temp, critical.inode, NO_FAULTS);
  }

  lemma StaleImageReturns(s: System, stale: SaveCall) returns (after: Fs)
    requires Intact(s.fs) && CanSave(s.fs, stale) && stale.faults == NO_FAULTS && s.inFlight != []
    ensures var end := Step(Step(s, ExecutorDone(0, stale)), Crash(after, 40));
      end.highest == s.highest && end.store.snap.lifetime == s.inFlight[0].lifetime
  {
    StaleSaveStays(s, stale);
    after := LiveImageReturns(Step(s, ExecutorDone(0, stale)));
  }

  lemma StaleSaveStays(s: System, stale: SaveCall)
    requires Intact(s.fs) && CanSave(s.fs, stale) && stale.faults == NO_FAULTS && s.inFlight != []
    ensures var after := Step(s, ExecutorDone(0, stale));
      Intact(after.fs) && Load(after.fs) == s.inFlight[0] && after.highest == s.highest
  {
    SavingIsSafe(s.fs, s.inFlight[0], stale.temp, stale.inode, NO_FAULTS);
  }

  lemma LiveImageReturns(s: System) returns (after: Fs)
    requires Intact(s.fs)
    ensures var end := Step(s, Crash(after, 40));
      end.highest == s.highest && end.store.snap.lifetime == Load(s.fs).lifetime
  {
    LiveIsRevealed(s.fs);
    after := SomeCrash(s.fs, Load(s.fs));
  }
}
