/** The crash-safe state file, over a file system whose directory and contents may lag behind on disk. */
module Persistence {
  import opened Domain
  import opened Registers

  type Inode = nat

  /** The state file, or a temporary file next to it. */
  datatype Name = Target | Temp(id: nat)

  /** Bytes that parse as a state, or bytes that do not (an empty file, a half-written one). */
  datatype Content = Whole(state: Persisted) | Torn

  datatype File = File(content: Content, synced: bool)

  /** `dirs` lists the directory versions a power loss may reveal, oldest first; the last is the
      live one. The content of a file that is not synced is arbitrary after a power loss. */
  datatype Fs = Fs(dirs: seq<map<Name, Inode>>, files: map<Inode, File>)

  ghost predicate Valid(fs: Fs) {
    && fs.dirs != []
    && forall d :: d in fs.dirs ==> forall x :: x in d ==> d[x] in fs.files
  }

  function Live(fs: Fs): map<Name, Inode>
    requires fs.dirs != []
  {
    fs.dirs[|fs.dirs| - 1]
  }

  function Parse(c: Content): Persisted {
    match c case Whole(state) => state case Torn => ZEROS
  }

  /** `load`: zeros if the file is missing or unreadable. */
  function LoadFrom(d: map<Name, Inode>, files: map<Inode, File>): Persisted {
    if Target in d && d[Target] in files then Parse(files[d[Target]].content) else ZEROS
  }

  function Load(fs: Fs): Persisted
    requires fs.dirs != []
  {
    LoadFrom(Live(fs), fs.files)
  }

  /** No directory version names a state file whose content is still in flight. */
  ghost predicate Intact(fs: Fs) {
    && Valid(fs)
    && forall d :: d in fs.dirs && Target in d ==> fs.files[d[Target]].synced
  }

  /** After a power loss in `fs` the machine may come back with `after`. */
  ghost predicate PowerLoss(fs: Fs, after: Fs) {
    && |after.dirs| == 1 && after.dirs[0] in fs.dirs
    && after.files.Keys == fs.files.Keys
    && forall n :: n in fs.files ==>
         after.files[n].synced && (fs.files[n].synced ==> after.files[n].content == fs.files[n].content)
  }

  /** Some power loss in `fs` leaves a file that loads as `p`. */
  ghost predicate MayReload(fs: Fs, p: Persisted) {
    exists after :: PowerLoss(fs, after) && Load(after) == p
  }

  /** Every power loss in `fs` leaves a file that loads as `p`. */
  ghost predicate Durable(fs: Fs, p: Persisted) {
    Intact(fs) && Load(fs) == p && forall d :: d in fs.dirs ==> LoadFrom(d, fs.files) == p
  }

  // ─── The file-system calls ────────────────────────────────────────

  function AddDir(fs: Fs, d: map<Name, Inode>): Fs {
    fs.(dirs := fs.dirs + [d])
  }

  function Create(fs: Fs, temp: Name, n: Inode): Fs
    requires fs.dirs != []
  {
    AddDir(fs, Live(fs)[temp := n]).(files := fs.files[n := File(Torn, false)])
  }

  function WriteContent(fs: Fs, n: Inode, c: Content): Fs {
    fs.(files := fs.files[n := File(c, false)])
  }

  function SyncFile(fs: Fs, n: Inode): Fs
    requires n in fs.files
  {
    fs.(files := fs.files[n := fs.files[n].(synced := true)])
  }

  function Replace(fs: Fs, temp: Name, n: Inode): Fs
    requires fs.dirs != []
  {
    AddDir(fs, (Live(fs) - {temp})[Target := n])
  }

  function Unlink(fs: Fs, temp: Name): Fs
    requires fs.dirs != []
  {
    AddDir(fs, Live(fs) - {temp})
  }

  function SyncDir(fs: Fs): Fs
    requires fs.dirs != []
  {
    fs.(dirs := [Live(fs)])
  }

  /** Which of the calls `save` makes fail. */
  datatype Faults = Faults(
    mkdir: bool, mkstemp: bool, write: bool, flush: bool, fsyncFile: bool, closeFile: bool,
    replace: bool, openDir: bool, fsyncDir: bool, closeDir: bool, unlink: bool)

  datatype Outcome = Returned | Raised

  /** Every call up to and including the replace succeeds. */
  predicate Replaces(f: Faults) {
    !(f.mkdir || f.mkstemp || f.write || f.flush || f.fsyncFile || f.closeFile || f.replace)
  }

  /** So does the fsync of the directory. */
  predicate Commits(f: Faults) {
    Replaces(f) && !f.openDir && !f.fsyncDir
  }

  const NO_FAULTS := Faults(false, false, false, false, false, false, false, false, false, false, false)

  // ─── What a save does, call by call ───────────────────────────────

  /** The file systems after each call that fills the temporary file. A buffered write may reach the
      file in part before it is complete or fails. */
  function Filling(before: Fs, state: Persisted, temp: Name, n: Inode, f: Faults): (r: seq<Fs>)
    requires before.dirs != []
    ensures r != [] && forall i :: 0 <= i < |r| ==> r[i].dirs != []
  {
    var created := Create(before, temp, n);
    var torn := WriteContent(created, n, Torn);
    var whole := WriteContent(torn, n, Whole(state));
    if f.write || f.flush then [created, torn]
    else if f.fsyncFile then [created, torn, whole]
    else [created, torn, whole, SyncFile(whole, n)]
  }

  /** The file systems after each call of a save, beginning with the one it finds. */
  function Saving(before: Fs, state: Persisted, temp: Name, n: Inode, f: Faults): (r: seq<Fs>)
    requires before.dirs != []
    ensures r != []
  {
    if f.mkdir || f.mkstemp then [before]
    else
      var filled := Filling(before, state, temp, n, f);
      var last := filled[|filled| - 1];
      [before] + filled
      + if !Replaces(f) then (if f.unlink then [] else [Unlink(last, temp)])
        else
          [Replace(last, temp, n)] + if Commits(f) then [SyncDir(Replace(last, temp, n))] else []
  }

  /** The file system a save leaves behind. */
  function Saved(before: Fs, state: Persisted, temp: Name, n: Inode, f: Faults): Fs
    requires before.dirs != []
  {
    var trace := Saving(before, state, temp, n, f);
    trace[|trace| - 1]
  }

  /** A failing close of the directory reaches the cleanup handler. */
  function OutcomeOf(f: Faults): Outcome {
    if Replaces(f) && (f.openDir || !f.closeDir) then Returned else Raised
  }

  /** `mkstemp` makes a new file under an unused name. */
  ghost predicate Fresh(fs: Fs, temp: Name, n: Inode) {
    fs.dirs != [] && temp.Temp? && temp !in Live(fs) && n !in fs.files
  }

  /** Directory versions have only been added to those of `before`, and its files are untouched. */
  ghost predicate Kept(before: Fs, fs: Fs) {
    before.dirs <= fs.dirs && forall m :: m in before.files ==> m in fs.files && fs.files[m] == before.files[m]
  }

  /** Some directory version of `fs` names a state file that loads as `p`. */
  ghost predicate Reveals(fs: Fs, p: Persisted) {
    exists d :: d in fs.dirs && LoadFrom(d, fs.files) == p
  }

  /** What holds at every instant of a save of `state` that began in `before`. */
  ghost predicate OldOrNew(before: Fs, fs: Fs, state: Persisted) {
    && Intact(fs) && before.dirs != []
    && (Load(fs) == Load(before) || Load(fs) == state)
    && forall d :: d in fs.dirs ==> LoadFrom(d, fs.files) == state || Reveals(before, LoadFrom(d, fs.files))
  }

  /** Nothing of the new state is visible, now or after a power loss. */
  ghost predicate OnlyOld(before: Fs, fs: Fs) {
    && Intact(fs) && before.dirs != [] && Load(fs) == Load(before)
    && forall d :: d in fs.dirs ==> Reveals(before, LoadFrom(d, fs.files))
  }

  /** The temporary file exists, unlinked from the state file in every directory version. */
  ghost predicate Private(before: Fs, fs: Fs, temp: Name, n: Inode) {
    && OldOrNewDirs(before, fs)
    && n !in before.files && fs.files.Keys == before.files.Keys + {n}
    && (forall m :: m in before.files ==> fs.files[m] == before.files[m])
    && (forall d, x :: d in fs.dirs && x in d && d[x] == n ==> x == temp)
    && temp.Temp? && temp in Live(fs) && Live(fs)[temp] == n
  }

  /** Every directory version names the same state file as one of `before`, the live one as the live one. */
  ghost predicate OldOrNewDirs(before: Fs, fs: Fs) {
    && fs.dirs != [] && before.dirs != []
    && SameTarget(Live(fs), Live(before))
    && (forall d :: d in fs.dirs ==> exists b :: b in before.dirs && SameTarget(d, b))
    && (forall d :: d in fs.dirs ==> forall x :: x in d ==> d[x] in fs.files)
  }

  predicate SameTarget(a: map<Name, Inode>, b: map<Name, Inode>) {
    (Target in a <==> Target in b) && (Target in a ==> a[Target] == b[Target])
  }

  lemma PrivateIsOld(before: Fs, fs: Fs, temp: Name, n: Inode, state: Persisted)
    requires Intact(before) && Private(before, fs, temp, n)
    ensures OldOrNew(before, fs, state) && OnlyOld(before, fs)
  {
    forall d | d in fs.dirs
      ensures (Target in d ==> fs.files[d[Target]].synced)
      ensures Reveals(before, LoadFrom(d, fs.files))
    {
      var b :| b in before.dirs && SameTarget(d, b);
      if Target in b {
        assert b[Target] in before.files;
      }
      assert LoadFrom(d, fs.files) == LoadFrom(b, before.files);
    }
  }

  lemma ContentIsPrivate(before: Fs, fs: Fs, temp: Name, n: Inode, file: File)
    requires Private(before, fs, temp, n)
    ensures Private(before, fs.(files := fs.files[n := file]), temp, n)
  {
  }

  lemma FillingIsPrivate(before: Fs, state: Persisted, temp: Name, n: Inode, f: Faults)
    requires Intact(before) && Fresh(before, temp, n)
    ensures var filled := Filling(before, state, temp, n, f);
      && (forall i :: 0 <= i < |filled| ==> Private(before, filled[i], temp, n))
      && (!(f.write || f.flush || f.fsyncFile) ==> filled[|filled| - 1].files[n] == File(Whole(state), true))
  {
    CreateIsPrivate(before, temp, n);
    var created := Create(before, temp, n);
    ContentIsPrivate(before, created, temp, n, File(Torn, false));
    var torn := WriteContent(created, n, Torn);
    ContentIsPrivate(before, torn, temp, n, File(Whole(state), false));
    var whole := WriteContent(torn, n, Whole(state));
    ContentIsPrivate(before, whole, temp, n, File(Whole(state), true));
  }

  /** Filling a new file and adding directory versions keep what was there. */
  lemma FillingKeeps(before: Fs, state: Persisted, temp: Name, n: Inode, f: Faults)
    requires Fresh(before, temp, n)
    ensures var filled := Filling(before, state, temp, n, f);
      forall i :: 0 <= i < |filled| ==> Kept(before, filled[i])
  {
  }

  /** Fill the temporary file and flush it; `ok` if every call succeeded. */
  method FillTemp(before: Fs, state: Persisted, temp: Name, n: Inode, faults: Faults)
    returns (fs: Fs, trace: seq<Fs>, ok: bool)
    requires before.dirs != []
    ensures trace == Filling(before, state, temp, n, faults) && fs == trace[|trace| - 1]
    ensures ok == !(faults.write || faults.flush || faults.fsyncFile || faults.closeFile)
  {
    fs := Create(before, temp, n);
    trace := [fs];
    fs := WriteContent(fs, n, Torn);
    trace := trace + [fs];
    ok := !faults.write && !faults.flush;
    if ok {
      fs := WriteContent(fs, n, Whole(state));
      trace := trace + [fs];
      ok := !faults.fsyncFile;
      if ok {
        fs := SyncFile(fs, n);
        trace := trace + [fs];
        ok := !faults.closeFile;
      }
    }
  }

  /** The save. `trace` lists the file system before it and after every call: a power loss may hit any
      of them. A normal return promises the new state only if the directory was synced too: otherwise
      every old state a power loss could reveal before, it still can. */
  method Save(before: Fs, state: Persisted, temp: Name, n: Inode, faults: Faults)
    returns (fs: Fs, trace: seq<Fs>, outcome: Outcome)
    requires Intact(before) && Fresh(before, temp, n)
    ensures trace == Saving(before, state, temp, n, faults) && fs == Saved(before, state, temp, n, faults)
    ensures outcome == OutcomeOf(faults)
    ensures forall i :: 0 <= i < |trace| ==> OldOrNew(before, trace[i], state)
    ensures Replaces(faults) ==> Load(fs) == state
    ensures Commits(faults) ==> Durable(fs, state)
    ensures !Commits(faults) ==> Kept(before, fs)
    ensures outcome == Raised && !faults.closeDir ==> OnlyOld(before, fs)
    ensures temp in Live(fs) <==> !faults.mkdir && !faults.mkstemp && !Replaces(faults) && faults.unlink
    ensures outcome == Returned <==> Replaces(faults) && (faults.openDir || !faults.closeDir)
  {
    fs, trace, outcome := before, [before], Raised;
    if !faults.mkdir && !faults.mkstemp {
      var filled, calls;
      fs, calls, filled := FillTemp(before, state, temp, n, faults);
      trace := trace + calls;
      if filled && !faults.replace {
        fs := Replace(fs, temp, n);
        trace := trace + [fs];
        if faults.openDir {
          outcome := Returned;
        } else {
          if !faults.fsyncDir {
            fs := SyncDir(fs);
            trace := trace + [fs];
          }
          // A failing close reaches the cleanup handler, whose unlink then finds no such file.
          outcome := if faults.closeDir then Raised else Returned;
        }
      } else if !faults.unlink {
        fs := Unlink(fs, temp);
        trace := trace + [fs];
      }
    }
    assert trace == Saving(before, state, temp, n, faults);
    NothingIsLeftBehind(before, state, temp, n, faults);
    SavingIsSafe(before, state, temp, n, faults);
  }

  /** The temporary file is gone afterwards, unless it had to be abandoned and could not be unlinked. */
  lemma NothingIsLeftBehind(before: Fs, state: Persisted, temp: Name, n: Inode, f: Faults)
    requires Fresh(before, temp, n)
    ensures temp in Live(Saved(before, state, temp, n, f)) <==>
      !f.mkdir && !f.mkstemp && !Replaces(f) && f.unlink
  {
  }

  /** A machine without a state file, or with one that does not parse, starts from zeros. */
  lemma LoadFallsBackToZeros(fs: Fs)
    requires fs.dirs != []
    requires Target !in Live(fs) || Live(fs)[Target] !in fs.files || fs.files[Live(fs)[Target]].content.Torn?
    ensures Load(fs) == Persisted(0, 0, 0, [])
  {
  }

  lemma UnchangedIsOld(before: Fs, state: Persisted)
    requires Intact(before)
    ensures OldOrNew(before, before, state) && OnlyOld(before, before) && Kept(before, before)
  {
  }

  lemma FilledIsOld(before: Fs, state: Persisted, temp: Name, n: Inode, f: Faults, i: nat)
    requires Intact(before) && Fresh(before, temp, n) && i < |Filling(before, state, temp, n, f)|
    ensures OldOrNew(before, Filling(before, state, temp, n, f)[i], state)
    ensures OnlyOld(before, Filling(before, state, temp, n, f)[i])
  {
    FillingIsPrivate(before, state, temp, n, f);
    PrivateIsOld(before, Filling(before, state, temp, n, f)[i], temp, n, state);
  }

  lemma FinishedIsOldOrNew(before: Fs, state: Persisted, temp: Name, n: Inode, f: Faults)
    requires Intact(before) && Fresh(before, temp, n)
    ensures var filled := Filling(before, state, temp, n, f);
      var last := filled[|filled| - 1];
      && OldOrNew(before, Unlink(last, temp), state) && OnlyOld(before, Unlink(last, temp))
      && (Replaces(f) ==> OldOrNew(before, Replace(last, temp, n), state))
      && (Replaces(f) ==> OldOrNew(before, SyncDir(Replace(last, temp, n)), state))
      && (Replaces(f) ==> Durable(SyncDir(Replace(last, temp, n)), state))
  {
    var filled := Filling(before, state, temp, n, f);
    var last := filled[|filled| - 1];
    FillingIsPrivate(before, state, temp, n, f);
    UnlinkIsOld(before, last, temp, n, state);
    if Replaces(f) {
      ReplaceIsNew(before, last, temp, n, state);
    }
  }

  lemma InstantIsOldOrNew(before: Fs, state: Persisted, temp: Name, n: Inode, f: Faults, i: nat)
    requires Intact(before) && Fresh(before, temp, n) && i < |Saving(before, state, temp, n, f)|
    ensures OldOrNew(before, Saving(before, state, temp, n, f)[i], state)
  {
    if i == 0 {
      UnchangedIsOld(before, state);
    } else if i <= |Filling(before, state, temp, n, f)| {
      FilledIsOld(before, state, temp, n, f, i - 1);
    } else {
      FinishedIsOldOrNew(before, state, temp, n, f);
    }
  }

  /** After call `k` the state file has been replaced and its directory not been synced. */
  predicate Unsettled(before: Fs, state: Persisted, temp: Name, n: Inode, f: Faults, k: nat)
    requires before.dirs != []
  {
    Replaces(f) && k == |Filling(before, state, temp, n, f)| + 1
  }

  /** That is the one instant at which the live state and an older one may both come back. */
  lemma SettledIsOldOrDurable(before: Fs, state: Persisted, temp: Name, n: Inode, f: Faults, k: nat)
    requires Intact(before) && Fresh(before, temp, n) && k < |Saving(before, state, temp, n, f)|
    requires !Unsettled(before, state, temp, n, f, k)
    ensures var fs := Saving(before, state, temp, n, f)[k]; OnlyOld(before, fs) || Durable(fs, state)
  {
    if k == 0 {
      UnchangedIsOld(before, state);
    } else if k <= |Filling(before, state, temp, n, f)| {
      FilledIsOld(before, state, temp, n, f, k - 1);
    } else {
      FinishedIsOldOrNew(before, state, temp, n, f);
    }
  }

  lemma UnsettledIsBoth(before: Fs, state: Persisted, temp: Name, n: Inode, f: Faults, k: nat)
    requires Intact(before) && Fresh(before, temp, n) && k < |Saving(before, state, temp, n, f)|
    requires Unsettled(before, state, temp, n, f, k)
    ensures var fs := Saving(before, state, temp, n, f)[k]; Load(fs) == state && Kept(before, fs)
  {
    var filled := Filling(before, state, temp, n, f);
    FillingIsPrivate(before, state, temp, n, f);
    FillingKeeps(before, state, temp, n, f);
    ReplaceIsNew(before, filled[|filled| - 1], temp, n, state);
  }

  lemma AbandonedIsOld(before: Fs, state: Persisted, temp: Name, n: Inode, f: Faults)
    requires Intact(before) && Fresh(before, temp, n) && !Replaces(f)
    ensures OnlyOld(before, Saved(before, state, temp, n, f))
  {
    if f.mkdir || f.mkstemp {
      UnchangedIsOld(before, state);
    } else {
      var filled := Filling(before, state, temp, n, f);
      var last := filled[|filled| - 1];
      FillingIsPrivate(before, state, temp, n, f);
      if f.unlink {
        assert Saved(before, state, temp, n, f) == last;
        PrivateIsOld(before, last, temp, n, state);
      } else {
        assert Saved(before, state, temp, n, f) == Unlink(last, temp);
        UnlinkIsOld(before, last, temp, n, state);
      }
    }
  }

  lemma UncommittedKeeps(before: Fs, state: Persisted, temp: Name, n: Inode, f: Faults)
    requires Fresh(before, temp, n) && !Commits(f)
    ensures Kept(before, Saved(before, state, temp, n, f))
  {
    if !f.mkdir && !f.mkstemp {
      FillingKeeps(before, state, temp, n, f);
    }
  }

  lemma ReplacedIsNew(before: Fs, state: Persisted, temp: Name, n: Inode, f: Faults)
    requires Intact(before) && Fresh(before, temp, n) && Replaces(f)
    ensures var fs := Saved(before, state, temp, n, f);
      Load(fs) == state && (Commits(f) ==> Durable(fs, state))
  {
    var filled := Filling(before, state, temp, n, f);
    FillingIsPrivate(before, state, temp, n, f);
    ReplaceIsNew(before, filled[|filled| - 1], temp, n, state);
  }

  /** The properties of a save, at every instant and at its end. */
  lemma SavingIsSafe(before: Fs, state: Persisted, temp: Name, n: Inode, f: Faults)
    requires Intact(before) && Fresh(before, temp, n)
    ensures var trace, fs := Saving(before, state, temp, n, f), Saved(before, state, temp, n, f);
      && (forall i :: 0 <= i < |trace| ==> OldOrNew(before, trace[i], state))
      && (Replaces(f) ==> Load(fs) == state)
      && (Commits(f) ==> Durable(fs, state))
      && (!Commits(f) ==> Kept(before, fs))
      && (!Replaces(f) ==> OnlyOld(before, fs))
  {
    forall i | 0 <= i < |Saving(before, state, temp, n, f)|
      ensures OldOrNew(before, Saving(before, state, temp, n, f)[i], state)
    {
      InstantIsOldOrNew(before, state, temp, n, f, i);
    }
    if Replaces(f) {
      ReplacedIsNew(before, state, temp, n, f);
    } else {
      AbandonedIsOld(before, state, temp, n, f);
    }
    if !Commits(f) {
      UncommittedKeeps(before, state, temp, n, f);
    }
  }

  lemma CreateIsPrivate(before: Fs, temp: Name, n: Inode)
    requires Intact(before) && Fresh(before, temp, n)
    ensures Private(before, Create(before, temp, n), temp, n)
  {
    var fs := Create(before, temp, n);
    assert Live(before) in before.dirs;
    forall d | d in fs.dirs
      ensures exists b :: b in before.dirs && SameTarget(d, b)
      ensures forall x :: x in d ==> d[x] in fs.files && (d[x] == n ==> x == temp)
    {
      if d in before.dirs {
        assert SameTarget(d, d);
      } else {
        assert d == Live(before)[temp := n];
        assert SameTarget(d, Live(before));
      }
    }
  }

  lemma UnlinkIsOld(before: Fs, fs: Fs, temp: Name, n: Inode, state: Persisted)
    requires Intact(before) && Private(before, fs, temp, n)
    ensures OldOrNew(before, Unlink(fs, temp), state) && OnlyOld(before, Unlink(fs, temp))
  {
    var after := Unlink(fs, temp);
    PrivateIsOld(before, fs, temp, n, state);
    assert Live(fs) in fs.dirs;
    assert LoadFrom(Live(after), after.files) == LoadFrom(Live(fs), fs.files);
    assert forall d :: d in after.dirs ==> d in fs.dirs || d == Live(after);
  }

  lemma ReplaceIsNew(before: Fs, fs: Fs, temp: Name, n: Inode, state: Persisted)
    requires Intact(before) && Private(before, fs, temp, n)
    requires fs.files[n] == File(Whole(state), true)
    ensures OldOrNew(before, Replace(fs, temp, n), state) && Load(Replace(fs, temp, n)) == state
    ensures OldOrNew(before, SyncDir(Replace(fs, temp, n)), state) && Durable(SyncDir(Replace(fs, temp, n)), state)
  {
    var after := Replace(fs, temp, n);
    PrivateIsOld(before, fs, temp, n, state);
    assert Live(fs) in fs.dirs;
    assert forall d :: d in after.dirs ==> d in fs.dirs || d == Live(after);
    assert Live(after)[Target] == n;
  }

  // ─── What a power loss reveals ────────────────────────────────────

  /** In an intact file system a power loss reveals exactly the states of the directory versions. */
  lemma ReloadsAreVersions(fs: Fs, p: Persisted)
    requires Intact(fs)
    ensures MayReload(fs, p) <==> Reveals(fs, p)
  {
    if MayReload(fs, p) {
      var after :| PowerLoss(fs, after) && Load(after) == p;
      assert LoadFrom(after.dirs[0], fs.files) == p;
    }
    if d :| d in fs.dirs && LoadFrom(d, fs.files) == p {
      var after := Fs([d], map n | n in fs.files :: File(fs.files[n].content, true));
      assert PowerLoss(fs, after) && Load(after) == p;
    }
  }

  /** A machine that came back is intact and durable in whatever it loads. */
  lemma PowerLossSettles(fs: Fs, after: Fs)
    requires Intact(fs) && PowerLoss(fs, after)
    ensures Durable(after, Load(after)) && MayReload(fs, Load(after))
  {
  }

  /** Crash atomicity: when the old state is durable, a power loss at any instant of a save comes
      back with exactly the old or exactly the new state, durably. */
  lemma CrashIsOldOrNew(before: Fs, old0: Persisted, fs: Fs, state: Persisted, after: Fs)
    requires Durable(before, old0) && OldOrNew(before, fs, state) && PowerLoss(fs, after)
    ensures Load(after) == old0 || Load(after) == state
    ensures Durable(after, Load(after))
  {
    PowerLossSettles(fs, after);
    ReloadsAreVersions(fs, Load(after));
  }

  /** A save that raised before replacing the file leaves the old state as durable as it was. */
  lemma FailedSaveKeepsOld(before: Fs, old0: Persisted, fs: Fs)
    requires Durable(before, old0) && OnlyOld(before, fs)
    ensures Durable(fs, old0)
    ensures forall p :: MayReload(fs, p) <==> p == old0
  {
    forall p ensures MayReload(fs, p) <==> p == old0 {
      ReloadsAreVersions(fs, p);
      assert Live(fs) in fs.dirs && LoadFrom(Live(fs), fs.files) == old0;
    }
  }

  lemma KeptReloadsOld(before: Fs, fs: Fs, p: Persisted)
    requires Intact(before) && Intact(fs) && Kept(before, fs) && MayReload(before, p)
    ensures MayReload(fs, p)
  {
    ReloadsAreVersions(before, p);
    var d :| d in before.dirs && LoadFrom(d, before.files) == p;
    assert d in fs.dirs && LoadFrom(d, fs.files) == p;
    ReloadsAreVersions(fs, p);
  }

  /** Exact: a save that replaced the file, and so one that returned, has made the new state durable if
      and only if opening and syncing the directory both succeeded, or no other state was there to come
      back. When the directory was not synced, every old state may still come back. */
  lemma ReturnedIsDurableExactly(before: Fs, state: Persisted, temp: Name, n: Inode, f: Faults)
    requires Intact(before) && Fresh(before, temp, n) && (OutcomeOf(f) == Returned || Replaces(f))
    ensures var fs := Saved(before, state, temp, n, f);
      && Load(fs) == state
      && (Durable(fs, state) <==>
            (!f.openDir && !f.fsyncDir) || forall p :: MayReload(before, p) ==> p == state)
      && (f.openDir || f.fsyncDir ==> forall p :: MayReload(before, p) ==> MayReload(fs, p))
  {
    SavingIsSafe(before, state, temp, n, f);
    var fs := Saved(before, state, temp, n, f);
    if f.openDir || f.fsyncDir {
      forall p | MayReload(before, p) ensures MayReload(fs, p) {
        KeptReloadsOld(before, fs, p);
      }
      DurableMeans(fs, state);
      if forall p :: MayReload(before, p) ==> p == state {
        forall d | d in fs.dirs ensures LoadFrom(d, fs.files) == state {
          if b :| b in before.dirs && LoadFrom(d, fs.files) == LoadFrom(b, before.files) {
            ReloadsAreVersions(before, LoadFrom(b, before.files));
          }
        }
      }
    }
  }

  /** Durable in `p` is what it says: every power loss comes back with `p`. */
  lemma DurableMeans(fs: Fs, p: Persisted)
    requires Intact(fs) && Load(fs) == p
    ensures Durable(fs, p) <==> forall q :: MayReload(fs, q) ==> q == p
  {
    if Durable(fs, p) {
      forall q | MayReload(fs, q) ensures q == p {
        ReloadsAreVersions(fs, q);
      }
    }
    if forall q :: MayReload(fs, q) ==> q == p {
      forall d | d in fs.dirs ensures LoadFrom(d, fs.files) == p {
        ReloadsAreVersions(fs, LoadFrom(d, fs.files));
      }
    }
  }

  /** The fsync of the file is needed too: a temporary file that replaces the state file before it is
      synced may come back as anything, even once the directory is synced. */
  lemma FileSyncIsNeeded(before: Fs, fs: Fs, temp: Name, n: Inode, any: Persisted)
    requires Intact(before) && Private(before, fs, temp, n) && !fs.files[n].synced
    ensures MayReload(SyncDir(Replace(fs, temp, n)), any)
  {
    var replaced := SyncDir(Replace(fs, temp, n));
    var after := Fs(replaced.dirs,
      map m | m in fs.files :: File(if m == n then Whole(any) else fs.files[m].content, true));
    assert PowerLoss(replaced, after) && Load(after) == any;
  }
}
