/** What a restart brings back: every persisted field by itself, and over runs with restarts the counts
    and timestamps of everything ever counted. */
module Restarts {
  import opened Domain
  import opened Registers
  import W = RollingWindow

  /** A saved store that is loaded again has the same count and the same two timestamps, the timestamps
      of the deque still inside the window, and otherwise starts afresh. */
  lemma RestartKeeps(s: Store, wall: int)
    ensures var after := BootStore(Image(s), wall);
      && after.snap.lifetime == s.snap.lifetime
      && after.snap.lastToGenerator == s.snap.lastToGenerator
      && after.snap.lastToUtility == s.snap.lastToUtility
      && after.recent == Since(s.recent, wall - 86400) && after.snap.count24h == |after.recent|
      && after.snap.position == UnknownPosition && after.snap.atsMode == UnknownMode
      && !after.snap.normalAvailable && !after.snap.emergencyAvailable && !after.snap.engineStartCalling
      && after.snap.faultBits == {} && after.snap.active == {} && !after.snap.modeReject
  {
  }

  /** The position in force: that of the last sample, unknown after a restart. */
  function PositionAfter(es: seq<W.Event>): Position {
    if es == [] || es[|es| - 1].Restarted? then UnknownPosition else es[|es| - 1].inputs.position
  }

  /** The wall-clocks of all transfers to the generator, and of all retransfers, oldest first. */
  function Transfers(es: seq<W.Event>): seq<int> {
    if es == [] then []
    else
      var m := |es| - 1;
      Transfers(es[..m])
      + if es[m].Sampled? && es[m].inputs.position == Generator
           && PositionAfter(es[..m]) in {Utility, Transferring} then [es[m].wall] else []
  }

  function Retransfers(es: seq<W.Event>): seq<int> {
    if es == [] then []
    else
      var m := |es| - 1;
      Retransfers(es[..m])
      + if es[m].Sampled? && es[m].inputs.position == Utility
           && PositionAfter(es[..m]) in {Generator, Transferring} then [es[m].wall] else []
  }

  function LastOr0(ts: seq<int>): int {
    if ts == [] then 0 else ts[|ts| - 1]
  }

  predicate Carries(p: Persisted, transfers: seq<int>, retransfers: seq<int>) {
    p.lifetime == |transfers| && p.lastToGenerator == LastOr0(transfers) && p.lastToUtility == LastOr0(retransfers)
  }

  lemma SampleCarries(era: W.Era, e: W.Event, transfers: seq<int>, retransfers: seq<int>)
    requires e.Sampled?
    requires Carries(Image(era.store), transfers, retransfers) && Carries(era.disk, transfers, retransfers)
    ensures var after := W.Step(era, e);
      var more := if e.inputs.position == Generator && era.store.snap.position in {Utility, Transferring}
                  then [e.wall] else [];
      var back := if e.inputs.position == Utility && era.store.snap.position in {Generator, Transferring}
                  then [e.wall] else [];
      Carries(Image(after.store), transfers + more, retransfers + back)
      && Carries(after.disk, transfers + more, retransfers + back)
  {
    assert transfers + [] == transfers && retransfers + [] == retransfers;
  }

  /** Across any samples and restarts from first boot, with every save landed, the store and the file
      both hold the number of transfers ever counted and the instants of the last transfer and the last
      retransfer ever counted. */
  lemma {:induction false} CountsSurviveRestarts(wall: int, es: seq<W.Event>)
    ensures var era := W.Run(W.FirstBoot(wall), es);
      && era.store.snap.lifetime == |Transfers(es)| == era.disk.lifetime
      && era.store.snap.lastToGenerator == LastOr0(Transfers(es)) == era.disk.lastToGenerator
      && era.store.snap.lastToUtility == LastOr0(Retransfers(es)) == era.disk.lastToUtility
      && era.store.snap.position == PositionAfter(es)
  {
    if es != [] {
      var m := |es| - 1;
      CountsSurviveRestarts(wall, es[..m]);
      var era := W.Run(W.FirstBoot(wall), es[..m]);
      if es[m].Sampled? {
        SampleCarries(era, es[m], Transfers(es[..m]), Retransfers(es[..m]));
      } else {
        assert Transfers(es[..m]) + [] == Transfers(es[..m]) && Retransfers(es[..m]) + [] == Retransfers(es[..m]);
      }
    }
  }
}
