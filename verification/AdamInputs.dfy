/** The ADAM input path: raw contacts, debounce, transfer hold, decode, and on into the store. */
module AdamInputs {
  import opened Domain
  import opened FaultBits
  import opened Debounce
  import opened Registers

  const CHANNELS := 6
  const DI_LOAD_DISCONNECT := 0
  const DI_ON_NORMAL := 1
  const DI_ON_EMERGENCY := 2
  const DI_NORMAL_AVAIL := 3
  const DI_EMERGENCY_AVAIL := 4
  const DI_ENGINE_START := 5

  const TRANSFERRING_HOLD_MS := 2000

  type Contacts = raw: seq<bool> | |raw| == CHANNELS witness [false, false, false, false, false, false]

  /** `_bit_pulse`: was the contact seen within the hold window? */
  predicate Held(seen: Option<int>, now: int) {
    seen.Some? && now - seen.value < TRANSFERRING_HOLD_MS
  }

  function Decode(mode: Mode, bits: Contacts, transferring: bool): InputSnapshot {
    InputSnapshot(
      DecodePosition(transferring, bits[DI_ON_NORMAL], bits[DI_ON_EMERGENCY]),
      bits[DI_NORMAL_AVAIL], bits[DI_EMERGENCY_AVAIL], bits[DI_ENGINE_START], mode,
      if bits[DI_ON_NORMAL] && bits[DI_ON_EMERGENCY] then {CALIBRATION_BIT} else {})
  }

  /** Reader state between reads. */
  datatype Reader = Reader(channels: Option<seq<Channel>>, seen: Option<int>)

  function AfterRead(n: nat, r: Reader, raw: Contacts, now: int): Reader {
    Reader(Some(AfterUpdate(n, r.channels, raw)), if raw[DI_LOAD_DISCONNECT] then Some(now) else r.seen)
  }

  function Reported(n: nat, mode: Mode, r: Reader, raw: Contacts, now: int): InputSnapshot {
    var after := AfterRead(n, r, raw, now);
    Decode(mode, Levels(after.channels.value), Held(after.seen, now))
  }

  class AdamInputs {
    const mode: Mode
    const debounce: Debouncer
    var loadDisconnectSeen: Option<int>

    ghost predicate Valid()
      reads this, debounce
    {
      debounce.Valid()
    }

    function View(): Reader
      requires Valid()
      reads this, debounce
    {
      Reader(debounce.View(), loadDisconnectSeen)
    }

    constructor (samples: int, mode: Mode)
      ensures Valid() && fresh(debounce)
      ensures this.mode == mode && debounce.samples == if samples < 1 then 1 else samples
      ensures View() == Reader(None, None)
    {
      this.mode := mode;
      debounce := new Debouncer(samples);
      loadDisconnectSeen := None;
    }

    /** Decode one raw read. The momentary contact is latched raw; the level contacts are debounced. */
    method ReadInputs(raw: Contacts, now: int) returns (inputs: InputSnapshot)
      requires Valid()
      modifies this, debounce
      ensures Valid()
      ensures View() == AfterRead(debounce.samples, old(View()), raw, now)
      ensures inputs == Reported(debounce.samples, mode, old(View()), raw, now)
    {
      if raw[DI_LOAD_DISCONNECT] {
        loadDisconnectSeen := Some(now);
      }
      var bits := debounce.Update(raw);
      var transferring := loadDisconnectSeen.Some? && now - loadDisconnectSeen.value < TRANSFERRING_HOLD_MS;
      inputs := Decode(mode, bits, transferring);
    }
  }

  // ─── A run of reads, on into the store ────────────────────────────

  /** One sampling cycle: the raw contacts, and the two clocks when they were read. */
  datatype Frame = Frame(raw: Contacts, mono: int, wall: int)

  function ReaderAfter(n: nat, frames: seq<Frame>): Reader {
    if frames == [] then Reader(None, None)
    else
      var f := frames[|frames| - 1];
      AfterRead(n, ReaderAfter(n, frames[..|frames| - 1]), f.raw, f.mono)
  }

  /** The snapshot reported for the last frame of a run. */
  function LastReport(n: nat, mode: Mode, frames: seq<Frame>): InputSnapshot
    requires frames != []
  {
    var f := frames[|frames| - 1];
    Reported(n, mode, ReaderAfter(n, frames[..|frames| - 1]), f.raw, f.mono)
  }

  /** The store after every frame has been read, decoded and applied. */
  function StoreAfter(n: nat, mode: Mode, s: Store, frames: seq<Frame>): Store {
    if frames == [] then s
    else
      var m := |frames| - 1;
      ApplyInputs(StoreAfter(n, mode, s, frames[..m]), LastReport(n, mode, frames), frames[m].wall)
  }

  /** The samples of one channel. */
  function Column(frames: seq<Frame>, i: nat): (r: seq<bool>)
    requires i < CHANNELS
    ensures |r| == |frames|
    ensures forall k :: 0 <= k < |frames| ==> r[k] == frames[k].raw[i]
  {
    seq(|frames|, k requires 0 <= k < |frames| => frames[k].raw[i])
  }

  /** Channels are independent: each integrates its own column, and nothing else. */
  lemma {:induction false} ChannelsIntegrateColumns(n: nat, frames: seq<Frame>)
    requires frames != []
    ensures var channels := ReaderAfter(n, frames).channels.value;
      |channels| == CHANNELS && forall i :: 0 <= i < CHANNELS ==> channels[i] == Integrate(n, Column(frames, i))
  {
    var before := frames[..|frames| - 1];
    if before != [] {
      ChannelsIntegrateColumns(n, before);
      forall i | 0 <= i < CHANNELS ensures Column(frames, i)[..|frames| - 1] == Column(before, i) {
      }
    }
  }

  /** Frame `k` is the last one that saw the momentary Load Disconnect contact closed. */
  predicate LastPulse(frames: seq<Frame>, k: int) {
    0 <= k < |frames| && frames[k].raw[0] && forall j :: k < j < |frames| ==> !frames[j].raw[0]
  }

  lemma {:induction false} SeenIsLastPulse(n: nat, frames: seq<Frame>, t: int)
    ensures ReaderAfter(n, frames).seen == Some(t) <==> exists k :: LastPulse(frames, k) && frames[k].mono == t
  {
    if frames != [] {
      var m := |frames| - 1;
      var before := frames[..m];
      SeenIsLastPulse(n, before, t);
      if frames[m].raw[DI_LOAD_DISCONNECT] {
        assert LastPulse(frames, m);
      } else {
        forall k {
          LastPulseCarries(frames, k);
        }
      }
    }
  }

  lemma LastPulseCarries(frames: seq<Frame>, k: int)
    requires frames != [] && !frames[|frames| - 1].raw[DI_LOAD_DISCONNECT]
    ensures LastPulse(frames, k) <==> LastPulse(frames[..|frames| - 1], k)
    ensures LastPulse(frames, k) ==> frames[..|frames| - 1][k].mono == frames[k].mono
  {
    var before := frames[..|frames| - 1];
    assert forall j :: 0 <= j < |before| ==> before[j] == frames[j];
  }

  /** The whole input path in closed form, over the channel numbers of the module: availability and
      engine start are the settled levels of channels 3, 4 and 5, `transferring` is a pulse on channel 0
      less than two seconds old, otherwise the position and the calibration fault follow the settled
      levels of the position contacts, channels 1 and 2. */
  lemma InputsClosedForm(n: nat, mode: Mode, frames: seq<Frame>)
    requires n >= 1 && frames != []
    ensures var r, now := LastReport(n, mode, frames), frames[|frames| - 1].mono;
      var onNormal, onEmergency := Settled(n, Column(frames, 1), true), Settled(n, Column(frames, 2), true);
      && (r.normalAvailable <==> Settled(n, Column(frames, 3), true))
      && (r.emergencyAvailable <==> Settled(n, Column(frames, 4), true))
      && (r.engineStartCalling <==> Settled(n, Column(frames, 5), true))
      && (r.position == Transferring <==> exists k :: LastPulse(frames, k) && now - frames[k].mono < 2000)
      && (r.position != Transferring ==>
            && (r.position == Utility <==> onNormal && !onEmergency)
            && (r.position == Generator <==> onEmergency && !onNormal))
      && r.atsMode == mode && r.faultBits == (if onNormal && onEmergency then {CALIBRATION_BIT} else {})
  {
    ChannelsIntegrateColumns(n, frames);
    var after := ReaderAfter(n, frames);
    var bits := Levels(after.channels.value);
    forall i | 0 <= i < CHANNELS ensures bits[i] <==> Settled(n, Column(frames, i), true) {
      PublishedLevel(n, Column(frames, i), true);
    }
    if after.seen.Some? {
      SeenIsLastPulse(n, frames, after.seen.value);
    }
    if k :| LastPulse(frames, k) {
      SeenIsLastPulse(n, frames, frames[k].mono);
    }
    assert LastReport(n, mode, frames) == Decode(mode, bits, Held(after.seen, frames[|frames| - 1].mono));
  }

  /** The frames agree on both clocks and on every channel but `i`, where they differ by a glitch. */
  ghost predicate GlitchOn(n: nat, noisy: seq<Frame>, clean: seq<Frame>, i: nat, start: nat, end: nat) {
    && 0 < i < CHANNELS && |noisy| == |clean|
    && (forall k :: 0 <= k < |clean| ==> noisy[k].mono == clean[k].mono && noisy[k].wall == clean[k].wall)
    && (forall j :: 0 <= j < CHANNELS && j != i ==> Column(noisy, j) == Column(clean, j))
    && DifferByGlitch(n, Column(noisy, i), Column(clean, i), start, end)
  }

  lemma {:induction false} SeenAgrees(n: nat, a: seq<Frame>, b: seq<Frame>)
    requires |a| == |b| && Column(a, DI_LOAD_DISCONNECT) == Column(b, DI_LOAD_DISCONNECT)
    requires forall k :: 0 <= k < |a| ==> a[k].mono == b[k].mono
    ensures ReaderAfter(n, a).seen == ReaderAfter(n, b).seen
  {
    if a != [] {
      var m := |a| - 1;
      assert Column(a[..m], DI_LOAD_DISCONNECT) == Column(a, DI_LOAD_DISCONNECT)[..m];
      assert Column(b[..m], DI_LOAD_DISCONNECT) == Column(b, DI_LOAD_DISCONNECT)[..m];
      SeenAgrees(n, a[..m], b[..m]);
      assert a[m].raw[DI_LOAD_DISCONNECT] == Column(a, DI_LOAD_DISCONNECT)[m];
      assert b[m].raw[DI_LOAD_DISCONNECT] == Column(b, DI_LOAD_DISCONNECT)[m];
    }
  }

  /** Every published level agrees, at every cycle. */
  lemma GlitchedLevelsAgree(n: nat, noisy: seq<Frame>, clean: seq<Frame>, i: nat, start: nat, end: nat, k: nat)
    requires n >= 1 && GlitchOn(n, noisy, clean, i, start, end) && 1 <= k <= |clean|
    ensures Levels(ReaderAfter(n, noisy[..k]).channels.value) == Levels(ReaderAfter(n, clean[..k]).channels.value)
    ensures ReaderAfter(n, noisy[..k]).seen == ReaderAfter(n, clean[..k]).seen
  {
    ColumnPrefixes(noisy, k);
    ColumnPrefixes(clean, k);
    SeenAgrees(n, noisy[..k], clean[..k]);
    ChannelsIntegrateColumns(n, noisy[..k]);
    ChannelsIntegrateColumns(n, clean[..k]);
    var a, b := ReaderAfter(n, noisy[..k]).channels.value, ReaderAfter(n, clean[..k]).channels.value;
    forall j | 0 <= j < CHANNELS ensures a[j].stable == b[j].stable {
      if j == i {
        GlitchLevels(n, Column(noisy, i), Column(clean, i), start, end, k);
      }
    }
  }

  lemma ColumnPrefixes(frames: seq<Frame>, k: nat)
    requires k <= |frames|
    ensures forall j :: 0 <= j < CHANNELS ==> Column(frames[..k], j) == Column(frames, j)[..k]
  {
  }

  lemma ReportsAgree(n: nat, mode: Mode, noisy: seq<Frame>, clean: seq<Frame>, i: nat, start: nat, end: nat, k: nat)
    requires n >= 1 && GlitchOn(n, noisy, clean, i, start, end) && 1 <= k <= |clean|
    ensures LastReport(n, mode, noisy[..k]) == LastReport(n, mode, clean[..k])
  {
    GlitchedLevelsAgree(n, noisy, clean, i, start, end, k);
    var a, b := noisy[..k], clean[..k];
    assert a[k - 1].mono == b[k - 1].mono;
    ReportReadsLevels(n, mode, a);
    ReportReadsLevels(n, mode, b);
  }

  lemma ReportReadsLevels(n: nat, mode: Mode, frames: seq<Frame>)
    requires frames != []
    ensures var after := ReaderAfter(n, frames);
      && |Levels(after.channels.value)| == CHANNELS
      && LastReport(n, mode, frames)
           == Decode(mode, Levels(after.channels.value), Held(after.seen, frames[|frames| - 1].mono))
  {
  }

  /** End to end: a glitch shorter than the debounce window on any level contact leaves the store
      the same after every cycle, so it moves no count, timestamp, position or calibration bit. */
  lemma {:induction false} GlitchIsInvisible(
      n: nat, mode: Mode, s: Store, noisy: seq<Frame>, clean: seq<Frame>, i: nat, start: nat, end: nat, k: nat)
    requires n >= 1 && GlitchOn(n, noisy, clean, i, start, end) && k <= |clean|
    ensures StoreAfter(n, mode, s, noisy[..k]) == StoreAfter(n, mode, s, clean[..k])
  {
    if k > 0 {
      GlitchIsInvisible(n, mode, s, noisy, clean, i, start, end, k - 1);
      ReportsAgree(n, mode, noisy, clean, i, start, end, k);
      assert noisy[k - 1].wall == clean[k - 1].wall;
      StoreStep(n, mode, s, noisy, k);
      StoreStep(n, mode, s, clean, k);
    }
  }

  lemma StoreStep(n: nat, mode: Mode, s: Store, frames: seq<Frame>, k: nat)
    requires 1 <= k <= |frames|
    ensures StoreAfter(n, mode, s, frames[..k])
         == ApplyInputs(StoreAfter(n, mode, s, frames[..k - 1]), LastReport(n, mode, frames[..k]), frames[k - 1].wall)
  {
    assert frames[..k][..k - 1] == frames[..k - 1];
  }

  // ─── A Load Disconnect pulse that transfers nothing ───────────────

  /** The contacts say the load is on the generator, whatever the momentary contact does. */
  predicate OnGenerator(raw: Contacts) {
    raw[DI_ON_EMERGENCY] && !raw[DI_ON_NORMAL]
  }

  /** Is the last frame within the hold window of a Load Disconnect pulse? */
  predicate Holding(n: nat, frames: seq<Frame>) {
    frames != [] && Held(ReaderAfter(n, frames).seen, frames[|frames| - 1].mono)
  }

  /** How many times the hold window has ended. */
  function HoldsEnded(n: nat, frames: seq<Frame>): nat {
    if frames == [] then 0
    else
      var before := frames[..|frames| - 1];
      HoldsEnded(n, before) + if Holding(n, before) && !Holding(n, frames) then 1 else 0
  }

  lemma SteadyReport(n: nat, mode: Mode, frames: seq<Frame>)
    requires n >= 1 && frames != [] && forall k :: 0 <= k < |frames| ==> OnGenerator(frames[k].raw)
    ensures LastReport(n, mode, frames).position == if Holding(n, frames) then Transferring else Generator
  {
    ChannelsIntegrateColumns(n, frames);
    SteadyLevel(n, Column(frames, DI_ON_EMERGENCY), true);
    SteadyLevel(n, Column(frames, DI_ON_NORMAL), false);
    ReportReadsLevels(n, mode, frames);
  }

  /** While the position contacts never leave the generator, the lifetime count still grows: by one
      for every hold window that ends. */
  lemma {:induction false} PulsesCountAsTransfers(n: nat, mode: Mode, s: Store, frames: seq<Frame>)
    requires n >= 1 && s.snap.position == Generator
    requires forall k :: 0 <= k < |frames| ==> OnGenerator(frames[k].raw)
    ensures var after := StoreAfter(n, mode, s, frames).snap;
      && after.lifetime == s.snap.lifetime + HoldsEnded(n, frames)
      && after.position == if Holding(n, frames) then Transferring else Generator
  {
    if frames != [] {
      PulsesCountAsTransfers(n, mode, s, frames[..|frames| - 1]);
      SteadyReport(n, mode, frames);
    }
  }

  const QUIET: Contacts := [false, false, true, true, true, true]
  const PULSE: Contacts := QUIET[DI_LOAD_DISCONNECT := true]

  /** For instance: on the generator throughout, one closed sample of the Load Disconnect contact and
      a quiet one after the two-second hold leave the count one higher. */
  lemma OnePulseCounts(n: nat, mode: Mode, s: Store, t: int, wait: nat, wall: int)
    requires n >= 1 && s.snap.position == Generator && wait >= 2000
    ensures var after := StoreAfter(n, mode, s, [Frame(PULSE, t, wall), Frame(QUIET, t + wait, wall)]).snap;
      after.lifetime == s.snap.lifetime + 1 && after.position == Generator
  {
    var frames := [Frame(PULSE, t, wall), Frame(QUIET, t + wait, wall)];
    var first := [Frame(PULSE, t, wall)];
    assert frames[..1] == first && first[..0] == [];
    assert ReaderAfter(n, first).seen == Some(t) && Holding(n, first);
    assert ReaderAfter(n, frames).seen == Some(t) && !Holding(n, frames);
    assert HoldsEnded(n, first) == HoldsEnded(n, []) == 0;
    assert frames[..|frames| - 1] == first && HoldsEnded(n, frames) == 1;
    PulsesCountAsTransfers(n, mode, s, frames);
  }
}
