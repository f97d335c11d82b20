/** Per-channel integrator debounce: the in-place class, and the closed form it computes. */
module Debounce {
  import opened Domain

  /** One channel: its published level and how many samples in a row have disagreed with it. */
  datatype Channel = Channel(stable: bool, count: nat)

  function Sampled(n: nat, c: Channel, level: bool): Channel {
    if level == c.stable then Channel(c.stable, 0)
    else if c.count + 1 >= n then Channel(level, 0)
    else Channel(c.stable, c.count + 1)
  }

  class Debouncer {
    const samples: nat
    var seeded: bool
    var stable: seq<bool>
    var candidateCount: seq<nat>

    ghost predicate Valid()
      reads this
    {
      samples >= 1 && |candidateCount| == |stable|
    }

    /** The channels, once the first read has seeded them. */
    function View(): Option<seq<Channel>>
      requires Valid()
      reads this
    {
      if seeded then Some(seq(|stable|, i requires 0 <= i < |stable| && |candidateCount| == |stable| reads this =>
                                          Channel(stable[i], candidateCount[i])))
      else None
    }

    constructor (samples: int)
      ensures Valid() && View() == None
      ensures this.samples == if samples < 1 then 1 else samples
    {
      this.samples := if samples < 1 then 1 else samples;
      seeded := false;
      stable, candidateCount := [], [];
    }

    method Update(raw: seq<bool>) returns (published: seq<bool>)
      requires Valid()
      modifies this
      ensures Valid() && View() == Some(AfterUpdate(samples, old(View()), raw))
      ensures published == Levels(AfterUpdate(samples, old(View()), raw))
    {
      ghost var before := View();
      if !seeded || |stable| != |raw| {
        seeded := true;
        stable := raw;
        candidateCount := seq(|raw|, i => 0);
        assert View().value == AfterUpdate(samples, before, raw);
        return stable;
      }
      for i := 0 to |raw|
        invariant Valid() && seeded && |stable| == |raw| && before.Some? && |before.value| == |raw|
        invariant forall j :: 0 <= j < i ==>
          Channel(stable[j], candidateCount[j]) == Sampled(samples, before.value[j], raw[j])
        invariant forall j :: i <= j < |raw| ==> Channel(stable[j], candidateCount[j]) == before.value[j]
      {
        if raw[i] == stable[i] {
          candidateCount := candidateCount[i := 0];
        } else {
          candidateCount := candidateCount[i := candidateCount[i] + 1];
          if candidateCount[i] >= samples {
            stable := stable[i := raw[i]];
            candidateCount := candidateCount[i := 0];
          }
        }
      }
      assert View().value == AfterUpdate(samples, before, raw);
      return stable;
    }
  }

  /** Seed on the first read or a change of channel count, otherwise integrate every channel. */
  function AfterUpdate(n: nat, before: Option<seq<Channel>>, raw: seq<bool>): (r: seq<Channel>)
    ensures |r| == |raw|
  {
    if before.None? || |before.value| != |raw| then seq(|raw|, i requires 0 <= i < |raw| => Channel(raw[i], 0))
    else seq(|raw|, i requires 0 <= i < |raw| => Sampled(n, before.value[i], raw[i]))
  }

  function Levels(channels: seq<Channel>): seq<bool> {
    seq(|channels|, i requires 0 <= i < |channels| => channels[i].stable)
  }

  // ─── Closed form ──────────────────────────────────────────────────

  /** Channel state after a history whose first sample is the seed. */
  function Integrate(n: nat, history: seq<bool>): Channel
    requires history != []
  {
    if |history| == 1 then Channel(history[0], 0)
    else Sampled(n, Integrate(n, history[..|history| - 1]), history[|history| - 1])
  }

  /** The `n` samples before `k` are identical. */
  predicate ConstantAt(n: nat, history: seq<bool>, k: int) {
    1 <= n <= k <= |history| && forall i :: k - n <= i < k ==> history[i] == history[k - 1]
  }

  /** The most recent window of `n` identical samples ends before `k`. */
  predicate LastWindow(n: nat, history: seq<bool>, k: int) {
    ConstantAt(n, history, k) && forall j :: k < j <= |history| ==> !ConstantAt(n, history, j)
  }

  /** `level` is that of the most recent window of `n` identical samples, or of the seed if there is none. */
  ghost predicate Settled(n: nat, history: seq<bool>, level: bool)
    requires history != []
  {
    || (exists k :: LastWindow(n, history, k) && history[k - 1] == level)
    || (history[0] == level && forall k :: !ConstantAt(n, history, k))
  }

  /** The run of samples at the end of the history that disagree with the published level. */
  predicate Trailing(n: nat, history: seq<bool>, c: Channel)
    requires history != []
  {
    && c.count < n && c.count < |history|
    && history[|history| - 1 - c.count] == c.stable
    && forall i :: |history| - c.count <= i < |history| ==> history[i] == !c.stable
  }

  lemma {:induction false} IntegrateSettles(n: nat, history: seq<bool>)
    requires n >= 1 && history != []
    ensures Trailing(n, history, Integrate(n, history))
    ensures Settled(n, history, Integrate(n, history).stable)
  {
    var m := |history|;
    if m == 1 {
      if n == 1 {
        assert LastWindow(n, history, 1);
      }
    } else {
      var before, level := history[..m - 1], history[m - 1];
      var c := Integrate(n, before);
      IntegrateSettles(n, before);
      if level != c.stable && c.count + 1 >= n {
        assert LastWindow(n, history, m);
      } else if level == c.stable && ConstantAt(n, history, m) {
        assert LastWindow(n, history, m);
      } else {
        if level != c.stable {
          assert history[m - 2 - c.count] != history[m - 1];
        }
        SettledCarries(n, history, c.stable);
      }
    }
  }

  lemma SettledCarries(n: nat, history: seq<bool>, level: bool)
    requires n >= 1 && |history| > 1
    requires Settled(n, history[..|history| - 1], level) && !ConstantAt(n, history, |history|)
    ensures Settled(n, history, level)
  {
    var before := history[..|history| - 1];
    assert forall k :: ConstantAt(n, history, k) <==> ConstantAt(n, before, k);
    if k :| LastWindow(n, before, k) && before[k - 1] == level {
      assert LastWindow(n, history, k);
    }
  }

  /** Closed form: the published level is `level` exactly when the most recent window of `n`
      identical samples reads `level`, or there is no window and the seed does. */
  lemma PublishedLevel(n: nat, history: seq<bool>, level: bool)
    requires n >= 1 && history != []
    ensures Integrate(n, history).stable == level <==> Settled(n, history, level)
  {
    IntegrateSettles(n, history);
  }

  // ─── Glitches ─────────────────────────────────────────────────────

  /** Two histories of one channel that differ only in a run of fewer than `n` samples deviating
      from the published level, which the sample before the run and the sample after it both read. */
  predicate DifferByGlitch(n: nat, noisy: seq<bool>, clean: seq<bool>, start: nat, end: nat)
  {
    && 0 < start < end < |noisy| == |clean| && end - start < n
    && Integrate(n, clean[..start]).stable == clean[start - 1]
    && (forall i :: 0 <= i < |clean| && !(start <= i < end) ==> noisy[i] == clean[i])
    && clean[end] == clean[start - 1]
    && (forall i :: start <= i < end ==> clean[i] == clean[start - 1] && noisy[i] == !clean[start - 1])
  }

  lemma {:induction false} GlitchLevels(n: nat, noisy: seq<bool>, clean: seq<bool>, start: nat, end: nat, k: nat)
    requires n >= 1 && DifferByGlitch(n, noisy, clean, start, end) && 1 <= k <= |clean|
    ensures Integrate(n, noisy[..k]).stable == Integrate(n, clean[..k]).stable
    ensures k <= start || end < k ==> Integrate(n, noisy[..k]) == Integrate(n, clean[..k])
    ensures start <= k <= end ==>
      && Integrate(n, clean[..k]) == Channel(clean[start - 1], 0)
      && Integrate(n, noisy[..k]) == Channel(clean[start - 1], k - start)
  {
    if k == 1 {
    } else {
      GlitchLevels(n, noisy, clean, start, end, k - 1);
      IntegrateNext(n, noisy, k);
      IntegrateNext(n, clean, k);
    }
  }

  lemma IntegrateNext(n: nat, history: seq<bool>, k: nat)
    requires 2 <= k <= |history|
    ensures Integrate(n, history[..k]) == Sampled(n, Integrate(n, history[..k - 1]), history[k - 1])
  {
    assert history[..k][..k - 1] == history[..k - 1];
  }

  /** The window is exact: after any history that agrees with the published level, a deviation is
      published with its `n`-th sample and not before. */
  lemma {:induction false} DeviationIsPublishedExactly(n: nat, history: seq<bool>, k: nat)
    requires n >= 1 && history != [] && Integrate(n, history).count == 0 && k <= n
    ensures var level := Integrate(n, history).stable;
      Integrate(n, history + seq(k, i => !level)) == if k < n then Channel(level, k) else Channel(!level, 0)
  {
    var level := Integrate(n, history).stable;
    var longer := history + seq(k, i => !level);
    if k == 0 {
      assert longer == history;
    } else {
      DeviationIsPublishedExactly(n, history, k - 1);
      assert longer[..|longer| - 1] == history + seq(k - 1, i => !level);
    }
  }

  /** A channel that always reads the same publishes it. */
  lemma {:induction false} SteadyLevel(n: nat, history: seq<bool>, level: bool)
    requires history != [] && forall i :: 0 <= i < |history| ==> history[i] == level
    ensures Integrate(n, history) == Channel(level, 0)
  {
    if |history| > 1 {
      SteadyLevel(n, history[..|history| - 1], level);
    }
  }
}
