/** The sampling loop, cycle by cycle, for the results its awaits deliver. */
module SamplingLoop {
  import opened Domain
  import opened FaultBits
  import opened Registers
  import opened AdamOutputs
  import opened ControlSystem

  datatype Delivery = Failed | Got(inputs: InputSnapshot, outputs: set<Relay>)

  /** One entry of the commanded-state ledger. */
  datatype Recorded = Recorded(relay: Relay, command: Command)

  /** What one cycle awaits: if the output reset is still due, the instants at which its writes land
      before one fails; what other tasks record meanwhile; then the two reads. */
  datatype Cycle = Cycle(
    landed: seq<int>, dispatched: seq<Recorded>, delivery: Delivery, hwOk: bool, now: int, wall: int)

  /** The loop's own state together with the store it publishes to and the ledger it checks against. */
  datatype Progress = Progress(store: Store, commanded: Commanded, outputsReset: bool, failures: nat)

  predicate ResetLands(c: Cycle) {
    |c.landed| >= |RESET_ORDER|
  }

  predicate Succeeds(p: Progress, c: Cycle) {
    (p.outputsReset || ResetLands(c)) && c.delivery.Got?
  }

  /** The records of a reset: OFF for each relay whose write landed. */
  function ResetRecords(landed: seq<int>): seq<Recorded> {
    seq(if |landed| < |RESET_ORDER| then |landed| else |RESET_ORDER|,
        i requires 0 <= i < |landed| && i < |RESET_ORDER| => Recorded(RESET_ORDER[i], Command(false, landed[i])))
  }

  function CycleRecords(outputsReset: bool, c: Cycle): seq<Recorded> {
    (if outputsReset then [] else ResetRecords(c.landed)) + c.dispatched
  }

  function AfterRecords(commanded: Commanded, rs: seq<Recorded>): Commanded {
    if rs == [] then commanded
    else
      var m := |rs| - 1;
      AfterRecords(commanded, rs[..m])[rs[m].relay := rs[m].command]
  }

  function AfterCycle(p: Progress, c: Cycle): Progress {
    var done := p.outputsReset || ResetLands(c);
    var commanded := AfterRecords(p.commanded, CycleRecords(p.outputsReset, c));
    if Succeeds(p, c) then
      Progress(PublishedStore(p.store, c.hwOk, commanded, c.now, c.delivery.inputs, c.delivery.outputs, c.wall),
               commanded, done, 0)
    else Progress(SetInputFault(p.store, true), commanded, done, p.failures + 1)
  }

  function AfterCycles(p: Progress, cs: seq<Cycle>): Progress
    decreases |cs|
  {
    if cs == [] then p else AfterCycles(AfterCycle(p, cs[0]), cs[1..])
  }

  class SamplingLoop {
    const store: RegisterStore
    const ledger: OutputLedger
    var outputsReset: bool
    var consecutiveFailures: nat

    function View(): Progress
      reads this, store, ledger
    {
      Progress(store.View(), ledger.commanded, outputsReset, consecutiveFailures)
    }

    constructor (store: RegisterStore, ledger: OutputLedger)
      ensures this.store == store && this.ledger == ledger
      ensures View() == Progress(store.View(), ledger.commanded, false, 0)
    {
      this.store, this.ledger := store, ledger;
      outputsReset, consecutiveFailures := false, 0;
    }

    /** The output reset: one OFF write after another, each recorded once it has landed. */
    method ReleaseAllOutputs(landed: seq<int>) returns (ok: bool)
      modifies ledger
      ensures ok == (|landed| >= |RESET_ORDER|)
      ensures ledger.commanded == AfterRecords(old(ledger.commanded), ResetRecords(landed))
    {
      ghost var rs := ResetRecords(landed);
      var k := 0;
      while k < |RESET_ORDER| && k < |landed|
        invariant 0 <= k <= |rs|
        invariant ledger.commanded == AfterRecords(old(ledger.commanded), rs[..k])
      {
        assert rs[..k + 1][..k] == rs[..k];
        ledger.Record(RESET_ORDER[k], false, landed[k]);
        k := k + 1;
      }
      assert rs[..k] == rs;
      ok := k == |RESET_ORDER|;
    }

    /** What the other tasks do to the ledger while a cycle waits. */
    method NoteDispatched(rs: seq<Recorded>)
      modifies ledger
      ensures ledger.commanded == AfterRecords(old(ledger.commanded), rs)
    {
      for i := 0 to |rs|
        invariant ledger.commanded == AfterRecords(old(ledger.commanded), rs[..i])
      {
        assert rs[..i + 1][..i] == rs[..i];
        ledger.Record(rs[i].relay, rs[i].command.value, rs[i].command.at);
      }
      assert rs[..|rs|] == rs;
    }

    method RunCycle(c: Cycle)
      modifies this, store, ledger
      ensures View() == AfterCycle(old(View()), c)
    {
      ghost var before, resets := ledger.commanded, if outputsReset then [] else ResetRecords(c.landed);
      if !outputsReset {
        var landed := ReleaseAllOutputs(c.landed);
        outputsReset := landed;
      }
      NoteDispatched(c.dispatched);
      RecordsAppend(before, resets, c.dispatched);
      if outputsReset && c.delivery.Got? {
        var _, _ := store.ApplyInputSnapshot(c.delivery.inputs, c.wall);
        store.ApplyOutputState(c.delivery.outputs);
        store.PublishInputFault(false);
        var consistent := ledger.CheckOutputConsistency(c.delivery.outputs, c.now);
        if !c.hwOk || !consistent {
          store.PublishOutputFault(true);
        }
        consecutiveFailures := 0;
      } else {
        store.PublishInputFault(true);
        consecutiveFailures := consecutiveFailures + 1;
      }
    }

    /** The loop, over the cycles it gets to run. */
    method RunCycles(cs: seq<Cycle>)
      modifies this, store, ledger
      ensures View() == AfterCycles(old(View()), cs)
    {
      assert cs[0..] == cs;
      for i := 0 to |cs|
        invariant AfterCycles(View(), cs[i..]) == AfterCycles(old(View()), cs)
      {
        assert cs[i..][0] == cs[i] && cs[i..][1..] == cs[i + 1..];
        RunCycle(cs[i]);
      }
    }
  }

  lemma {:induction false} RecordsAppend(commanded: Commanded, a: seq<Recorded>, b: seq<Recorded>)
    ensures AfterRecords(commanded, a + b) == AfterRecords(AfterRecords(commanded, a), b)
    decreases |b|
  {
    if b == [] {
      assert a + b == a;
    } else {
      assert (a + b)[..|a + b| - 1] == a + b[..|b| - 1];
      RecordsAppend(commanded, a, b[..|b| - 1]);
    }
  }

  lemma FaultTwice(s: Store)
    ensures SetInputFault(SetInputFault(s, true), true) == SetInputFault(s, true)
  {
  }

  /** The reset is one-shot and comes first: while no cycle has landed it, nothing but the input
      fault is published, whatever the reads would have delivered; and once landed it stays done. */
  lemma {:induction false} ResetComesFirst(p: Progress, cs: seq<Cycle>)
    ensures var after := AfterCycles(p, cs);
      && (after.outputsReset <==> p.outputsReset || exists i :: 0 <= i < |cs| && ResetLands(cs[i]))
      && (!after.outputsReset && cs != [] ==>
            after.store == SetInputFault(p.store, true) && after.failures == p.failures + |cs|)
    decreases |cs|
  {
    if cs != [] {
      var rest := cs[1..];
      ResetComesFirst(AfterCycle(p, cs[0]), rest);
      assert forall i :: 0 <= i < |rest| ==> rest[i] == cs[i + 1];
      assert forall i :: 0 < i < |cs| ==> cs[i] == rest[i - 1];
      FaultTwice(p.store);
    }
  }

  /** Failed cycles move no counter and no timestamp, and the failure streak is their number. */
  lemma {:induction false} FailuresKeepCounters(p: Progress, cs: seq<Cycle>)
    requires forall i :: 0 <= i < |cs| ==> cs[i].delivery.Failed?
    ensures var after := AfterCycles(p, cs);
      && after.failures == p.failures + |cs|
      && Image(after.store) == Image(p.store)
      && after.store.snap.count24h == p.store.snap.count24h && after.store.snap.position == p.store.snap.position
    decreases |cs|
  {
    if cs != [] {
      FailuresKeepCounters(AfterCycle(p, cs[0]), cs[1..]);
    }
  }

  lemma {:induction false} CyclesAppend(p: Progress, a: seq<Cycle>, b: seq<Cycle>)
    ensures AfterCycles(p, a + b) == AfterCycles(AfterCycles(p, a), b)
    decreases |a|
  {
    if a == [] {
      assert a + b == b;
    } else {
      assert (a + b)[1..] == a[1..] + b;
      CyclesAppend(AfterCycle(p, a[0]), a[1..], b);
    }
  }

  /** A success ends the streak and clears the input fault: afterwards only the failures since count. */
  lemma StreakCountsFromLastSuccess(p: Progress, before: seq<Cycle>, c: Cycle, since: seq<Cycle>)
    requires Succeeds(AfterCycles(p, before), c)
    requires forall i :: 0 <= i < |since| ==> since[i].delivery.Failed?
    ensures var after := AfterCycles(p, before + [c] + since);
      after.failures == |since| && (INPUT_BIT in after.store.snap.faultBits <==> since != [])
  {
    CyclesAppend(p, before, [c]);
    CyclesAppend(p, before + [c], since);
    var succeeded := AfterCycle(AfterCycles(p, before), c);
    assert [c][1..] == [] && AfterCycles(AfterCycles(p, before), [c]) == succeeded;
    FailuresKeepCounters(succeeded, since);
    FailuresSetFault(succeeded, since);
  }

  lemma {:induction false} FailuresSetFault(p: Progress, cs: seq<Cycle>)
    requires forall i :: 0 <= i < |cs| ==> cs[i].delivery.Failed?
    ensures INPUT_BIT in AfterCycles(p, cs).store.snap.faultBits <==> cs != [] || INPUT_BIT in p.store.snap.faultBits
    decreases |cs|
  {
    if cs != [] {
      FailuresSetFault(AfterCycle(p, cs[0]), cs[1..]);
    }
  }

  // ─── The output fault over the history of records ─────────────────

  /** Everything recorded over the cycles, by resets and by other tasks, oldest first. */
  function AllRecords(outputsReset: bool, cs: seq<Cycle>): seq<Recorded>
    decreases |cs|
  {
    if cs == [] then []
    else CycleRecords(outputsReset, cs[0]) + AllRecords(outputsReset || ResetLands(cs[0]), cs[1..])
  }

  /** The newest record of `r` is entry `i`. */
  predicate LastRecord(rs: seq<Recorded>, r: Relay, i: int) {
    0 <= i < |rs| && rs[i].relay == r && forall j :: i < j < |rs| ==> rs[j].relay != r
  }

  lemma {:induction false} LedgerIsLastRecord(rs: seq<Recorded>, r: Relay)
    ensures r in AfterRecords(map[], rs) <==> exists i :: LastRecord(rs, r, i)
    ensures forall i :: LastRecord(rs, r, i) ==> AfterRecords(map[], rs)[r] == rs[i].command
  {
    if rs != [] {
      var m := |rs| - 1;
      LedgerIsLastRecord(rs[..m], r);
      if rs[m].relay == r {
        assert LastRecord(rs, r, m);
      } else {
        assert forall i :: LastRecord(rs, r, i) <==> LastRecord(rs[..m], r, i);
      }
    }
  }

  lemma {:induction false} LedgerHoldsRecords(p: Progress, cs: seq<Cycle>)
    ensures AfterCycles(p, cs).commanded == AfterRecords(p.commanded, AllRecords(p.outputsReset, cs))
    decreases |cs|
  {
    if cs != [] {
      LedgerHoldsRecords(AfterCycle(p, cs[0]), cs[1..]);
      RecordsAppend(p.commanded, CycleRecords(p.outputsReset, cs[0]),
                    AllRecords(p.outputsReset || ResetLands(cs[0]), cs[1..]));
    }
  }

  /** Entry `i` is the newest record of its relay, at least half a second old, and contradicted. */
  predicate Contradicted(rs: seq<Recorded>, i: int, actual: set<Relay>, now: int) {
    && 0 <= i < |rs| && LastRecord(rs, rs[i].relay, i)
    && now - rs[i].command.at >= 500 && (rs[i].relay in actual) != rs[i].command.value
  }

  /** Over any cycles of a fresh process, the last of which succeeds: it leaves the output fault
      raised if and only if it was raised, the fail-safe is unverified, or the newest record of some
      relay, start-up reset included, is at least half a second old and reads back as the opposite. */
  lemma LoopFaultsExactly(store: Store, cs: seq<Cycle>, c: Cycle)
    requires var p := AfterCycles(Progress(store, map[], false, 0), cs); Succeeds(p, c)
    ensures var p := AfterCycles(Progress(store, map[], false, 0), cs);
      var rs := AllRecords(false, cs) + CycleRecords(p.outputsReset, c);
      OUTPUT_BIT in AfterCycle(p, c).store.snap.faultBits <==>
        || OUTPUT_BIT in p.store.snap.faultBits || !c.hwOk
        || exists i :: Contradicted(rs, i, c.delivery.outputs, c.now)
  {
    var p := AfterCycles(Progress(store, map[], false, 0), cs);
    var rs := AllRecords(false, cs) + CycleRecords(p.outputsReset, c);
    LedgerHoldsRecords(Progress(store, map[], false, 0), cs);
    RecordsAppend(map[], AllRecords(false, cs), CycleRecords(p.outputsReset, c));
    ConsistentExactly(rs, c.delivery.outputs, c.now);
  }

  lemma ConsistentExactly(rs: seq<Recorded>, actual: set<Relay>, now: int)
    ensures Consistent(AfterRecords(map[], rs), actual, now) <==> !exists i :: Contradicted(rs, i, actual, now)
  {
    var commanded := AfterRecords(map[], rs);
    forall r {
      LedgerIsLastRecord(rs, r);
    }
    if i :| Contradicted(rs, i, actual, now) {
      assert Mismatch(commanded, rs[i].relay, actual, now);
    }
    if r :| r in commanded && Mismatch(commanded, r, actual, now) {
      var i :| LastRecord(rs, r, i);
      assert Contradicted(rs, i, actual, now);
    }
  }
}
