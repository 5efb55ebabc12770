/**
 * WriteFileAtomic as steps on a file system whose writes may be lost in a crash until they are
 * synced. Any step may fail, and a crash may come after any step.
 */
module AtomicWrite {
  import opened Options

  type Name = string
  type Bytes = string
  type Inode = nat
  type Directory = map<Name, Inode>

  datatype File = File(data: Bytes, synced: bool)

  /** The directory's versions since it was last synced; the last one is current, any may survive. */
  datatype Disk = Disk(files: map<Inode, File>, versions: seq<Directory>) {
    function Current(): Directory
      requires versions != []
    {
      versions[|versions| - 1]
    }

    function Changed(dir: Directory): Disk {
      this.(versions := versions + [dir])
    }
  }

  /** What the name reads as in a directory; the content of a file not synced may be anything. */
  predicate Reads(files: map<Inode, File>, dir: Directory, name: Name, r: Option<Bytes>) {
    if name !in dir then r.None?
    else r.Some? && dir[name] in files && (files[dir[name]].synced ==> r.value == files[dir[name]].data)
  }

  predicate ReadsAt(d: Disk, i: int, name: Name, r: Option<Bytes>) {
    0 <= i < |d.versions| && Reads(d.files, d.versions[i], name, r)
  }

  /** After a crash now, the name may read as r. */
  ghost predicate Survives(d: Disk, name: Name, r: Option<Bytes>) {
    exists i :: ReadsAt(d, i, name, r)
  }

  /** What a running program reads. */
  function Live(d: Disk, name: Name): Option<Bytes>
    requires d.versions != []
  {
    if name in d.Current() && d.Current()[name] in d.files then Some(d.files[d.Current()[name]].data) else None
  }

  datatype Pc = MakeDir | Open | Write | Sync | Chmod | Close | Rename | SyncDir | Clean | Failed | Succeeded

  /** One call: the target and data, the temporary file's name and inode, and how far the call got. */
  datatype Call = Call(disk: Disk, pc: Pc, target: Name, data: Bytes, temp: Name, inode: Inode,
                       created: bool, removeTried: bool, dirSynced: bool)

  /** Whether the next step succeeds; a failing Write may have written the first `written` bytes. */
  datatype Choice = Choice(ok: bool, written: nat)

  /** The current version with the temporary name moved to the target. */
  function Renamed(c: Call): Directory
    requires c.disk.versions != []
  {
    (c.disk.Current() - {c.temp})[c.target := c.inode]
  }

  function Written(c: Call, data: Bytes, synced: bool): Disk {
    c.disk.(files := c.disk.files[c.inode := File(data, synced)])
  }

  function Step(c: Call, x: Choice): (r: Call)
    requires c.disk.versions != []
    ensures r.disk.versions != []
  {
    match c.pc
    case MakeDir => c.(pc := if x.ok then Open else Failed)
    case Open =>
      if !x.ok || c.temp in c.disk.Current() then c.(pc := Failed)
      else c.(disk := Written(c, "", false).Changed(c.disk.Current()[c.temp := c.inode]), pc := Write, created := true)
    case Write =>
      if x.ok then c.(disk := Written(c, c.data, false), pc := Sync)
      else c.(disk := Written(c, if x.written <= |c.data| then c.data[..x.written] else c.data, false), pc := Clean)
    case Sync => if x.ok then c.(disk := Written(c, c.data, true), pc := Chmod) else c.(pc := Clean)
    case Chmod => c.(pc := if x.ok then Close else Clean)
    case Close => c.(pc := if x.ok then Rename else Clean)
    case Rename => if x.ok then c.(disk := c.disk.Changed(Renamed(c)), pc := SyncDir) else c.(pc := Clean)
    case SyncDir =>
      if x.ok then c.(disk := c.disk.(versions := [c.disk.Current()]), pc := Succeeded, dirSynced := true)
      else c.(pc := Succeeded)
    case Clean =>
      var d := if x.ok then c.disk.Changed(c.disk.Current() - {c.temp}) else c.disk;
      c.(disk := d, pc := Failed, removeTried := true)
    case Failed => c
    case Succeeded => c
  }

  function Run(start: Call, choices: seq<Choice>): (c: Call)
    requires start.disk.versions != []
    ensures c.disk.versions != []
  {
    if choices == [] then start else Step(Run(start, choices[..|choices| - 1]), choices[|choices| - 1])
  }

  ghost predicate SoundDir(files: map<Inode, File>, dir: Directory) {
    forall name | name in dir :: dir[name] in files
  }

  /** Every directory entry that may survive has a file. */
  ghost predicate Sound(d: Disk) {
    d.versions != [] && forall i | 0 <= i < |d.versions| :: SoundDir(d.files, d.versions[i])
  }

  /** A call about to begin, on any disk: files and directory versions may be pending from before. */
  ghost predicate Starts(c: Call) {
    && c.pc == MakeDir && !c.created && !c.removeTried && !c.dirSynced && c.temp != c.target
    && Sound(c.disk) && c.inode !in c.disk.files
  }

  predicate AfterRename(pc: Pc) {
    pc.SyncDir? || pc.Succeeded?
  }

  /** The directory agrees with the one at the start on every name but the given ones. */
  ghost predicate Agrees(dir: Directory, was: Directory, except: set<Name>) {
    forall name | name !in except :: (name in dir <==> name in was) && (name in dir ==> dir[name] == was[name])
  }

  ghost predicate IsNew(c: Call, dir: Directory, was: Directory) {
    && AfterRename(c.pc) && Agrees(dir, was, {c.temp, c.target})
    && c.target in dir && dir[c.target] == c.inode && c.temp !in dir
  }

  ghost predicate OldOrNew(c: Call, dir: Directory, was: Directory) {
    Agrees(dir, was, {c.temp}) || IsNew(c, dir, was)
  }

  /** The new file as far as the call has brought it. */
  ghost predicate FileReady(c: Call) {
    (c.pc.Chmod? || c.pc.Close? || c.pc.Rename? || AfterRename(c.pc)) ==>
      c.inode in c.disk.files && c.disk.files[c.inode] == File(c.data, true)
  }

  /** The versions pending from before are still pending, and those of the call are behind them. */
  ghost predicate Behind(start: Call, c: Call)
    requires start.disk.versions != []
  {
    if c.dirSynced then c.pc.Succeeded? && |c.disk.versions| == 1
    else
      && start.disk.versions <= c.disk.versions
      && forall i | |start.disk.versions| <= i < |c.disk.versions| ::
        OldOrNew(c, c.disk.versions[i], start.disk.Current())
  }

  ghost predicate Same(start: Call, c: Call) {
    && c.target == start.target && c.temp == start.temp && c.inode == start.inode && c.data == start.data
    && c.disk.files - {c.inode} == start.disk.files
  }

  ghost predicate Present(start: Call, c: Call)
    requires start.disk.versions != [] && c.disk.versions != []
  {
    if AfterRename(c.pc) then IsNew(c, c.disk.Current(), start.disk.Current())
    else Agrees(c.disk.Current(), start.disk.Current(), {c.temp})
  }

  ghost predicate Flags(c: Call) {
    && (c.pc.Failed? && c.created ==> c.removeTried)
    && (c.pc.MakeDir? || c.pc.Open? ==> !c.created)
    && (c.dirSynced ==> c.pc.Succeeded?)
    && (!c.pc.MakeDir? && !c.pc.Open? && !c.pc.Failed? ==> c.inode in c.disk.files)
  }

  ghost predicate Invariant(start: Call, c: Call)
    requires start.disk.versions != []
  {
    Same(start, c) && Sound(c.disk) && Behind(start, c) && FileReady(c) && Present(start, c) && Flags(c)
  }

  lemma ChangedKeeps(start: Call, c: Call, t: Call, dir: Directory)
    requires Starts(start) && Invariant(start, c) && !c.dirSynced && !t.dirSynced
    requires t.disk.files.Keys >= c.disk.files.Keys
    requires t.disk.versions == c.disk.versions + [dir] && SoundDir(t.disk.files, dir)
    requires t.target == c.target && t.temp == c.temp && t.inode == c.inode
    requires OldOrNew(t, dir, start.disk.Current()) && (AfterRename(c.pc) ==> AfterRename(t.pc))
    ensures Sound(t.disk) && Behind(start, t)
  {
    forall i | |start.disk.versions| <= i < |t.disk.versions|
      ensures OldOrNew(t, t.disk.versions[i], start.disk.Current())
    {
      assert i < |c.disk.versions| ==> OldOrNew(c, c.disk.versions[i], start.disk.Current());
    }
  }

  lemma OpenKeeps(start: Call, c: Call, x: Choice)
    requires Starts(start) && Invariant(start, c) && c.pc.Open?
    ensures Invariant(start, Step(c, x))
  {
    if x.ok && c.temp !in c.disk.Current() {
      var t := Step(c, x);
      assert t.disk.files - {c.inode} == c.disk.files - {c.inode};
      ChangedKeeps(start, c, t, c.disk.Current()[c.temp := c.inode]);
    }
  }

  /** Writing and syncing change nothing but the new file. */
  lemma FileKeeps(start: Call, c: Call, t: Call, file: File)
    requires Starts(start) && Invariant(start, c) && !c.dirSynced && !AfterRename(c.pc) && !AfterRename(t.pc)
    requires t.disk == c.disk.(files := c.disk.files[c.inode := file]) && !t.dirSynced
    requires t.target == c.target && t.temp == c.temp && t.inode == c.inode && t.data == c.data
    requires t.pc.Sync? || t.pc.Clean? || (t.pc.Chmod? && file == File(c.data, true))
    requires t.created == c.created && t.removeTried == c.removeTried
    ensures Invariant(start, t)
  {
    assert t.disk.files - {c.inode} == c.disk.files - {c.inode};
    assert forall i | 0 <= i < |t.disk.versions| :: SoundDir(c.disk.files, t.disk.versions[i]);
    forall i | |start.disk.versions| <= i < |t.disk.versions|
      ensures OldOrNew(t, t.disk.versions[i], start.disk.Current())
    {
      assert OldOrNew(c, c.disk.versions[i], start.disk.Current());
    }
  }

  lemma WriteKeeps(start: Call, c: Call, x: Choice)
    requires Starts(start) && Invariant(start, c) && (c.pc.Write? || c.pc.Sync?)
    ensures Invariant(start, Step(c, x))
  {
    hide Invariant;
    InvariantFlags(start, c);
    if c.pc.Write? {
      var written := if x.ok || x.written > |c.data| then c.data else c.data[..x.written];
      FileKeeps(start, c, Step(c, x), File(written, false));
    } else if x.ok {
      FileKeeps(start, c, Step(c, x), File(c.data, true));
    } else {
      PcKeeps(start, c, Clean);
    }
  }

  lemma InvariantFlags(start: Call, c: Call)
    requires Starts(start) && Invariant(start, c)
    ensures c.disk.versions != [] && Flags(c)
  {
  }

  /** Moving on without touching the disk. */
  lemma PcKeeps(start: Call, c: Call, pc: Pc)
    requires Starts(start) && Invariant(start, c) && !AfterRename(c.pc)
    requires pc.Clean? || pc.Close? || pc.Rename? || (pc.Open? && c.pc.MakeDir?) || (pc.Failed? && !c.created)
    requires pc.Close? || pc.Rename? ==> c.pc.Chmod? || c.pc.Close?
    requires pc.Clean? ==> c.inode in c.disk.files
    ensures Invariant(start, c.(pc := pc))
  {
    var t := c.(pc := pc);
    forall i | |start.disk.versions| <= i < |t.disk.versions|
      ensures OldOrNew(t, t.disk.versions[i], start.disk.Current())
    {
      assert OldOrNew(c, c.disk.versions[i], start.disk.Current());
    }
  }

  lemma RenameKeeps(start: Call, c: Call, x: Choice)
    requires Starts(start) && Invariant(start, c) && c.pc.Rename? && x.ok
    ensures Invariant(start, Step(c, x))
  {
    var t := Step(c, x);
    assert IsNew(t, Renamed(c), start.disk.Current());
    ChangedKeeps(start, c, t, Renamed(c));
  }

  lemma CleanKeeps(start: Call, c: Call, x: Choice)
    requires Starts(start) && Invariant(start, c) && c.pc.Clean?
    ensures Invariant(start, Step(c, x))
  {
    var t := Step(c, x);
    if x.ok {
      ChangedKeeps(start, c, t, c.disk.Current() - {c.temp});
    } else {
      forall i | |start.disk.versions| <= i < |t.disk.versions|
        ensures OldOrNew(t, t.disk.versions[i], start.disk.Current())
      {
        assert OldOrNew(c, c.disk.versions[i], start.disk.Current());
      }
    }
  }

  lemma SyncDirKeeps(start: Call, c: Call, x: Choice)
    requires Starts(start) && Invariant(start, c) && c.pc.SyncDir?
    ensures Invariant(start, Step(c, x))
  {
    var t := Step(c, x);
    assert SoundDir(c.disk.files, c.disk.versions[|c.disk.versions| - 1]);
    assert IsNew(t, c.disk.Current(), start.disk.Current());
    if !x.ok {
      forall i | |start.disk.versions| <= i < |t.disk.versions|
        ensures OldOrNew(t, t.disk.versions[i], start.disk.Current())
      {
        assert OldOrNew(c, c.disk.versions[i], start.disk.Current());
      }
    }
  }

  lemma StepKeeps(start: Call, c: Call, x: Choice)
    requires Starts(start) && Invariant(start, c)
    ensures Invariant(start, Step(c, x))
  {
    hide Behind, Same, FileReady, Present, Sound;
    InvariantFlags(start, c);
    match c.pc
    case MakeDir => PcKeeps(start, c, if x.ok then Open else Failed);
    case Open =>
      if x.ok && c.temp !in c.disk.Current() {
        OpenKeeps(start, c, x);
      } else {
        PcKeeps(start, c, Failed);
      }
    case Write => WriteKeeps(start, c, x);
    case Sync => WriteKeeps(start, c, x);
    case Chmod => PcKeeps(start, c, if x.ok then Close else Clean);
    case Close => PcKeeps(start, c, if x.ok then Rename else Clean);
    case Rename =>
      if x.ok {
        RenameKeeps(start, c, x);
      } else {
        PcKeeps(start, c, Clean);
      }
    case SyncDir => SyncDirKeeps(start, c, x);
    case Clean => CleanKeeps(start, c, x);
    case Failed =>
    case Succeeded =>
  }

  lemma {:induction false} RunKeeps(start: Call, choices: seq<Choice>)
    requires Starts(start)
    ensures Invariant(start, Run(start, choices))
  {
    if choices == [] {
      assert start.disk.files - {start.inode} == start.disk.files;
    } else {
      hide Invariant;
      RunKeeps(start, choices[..|choices| - 1]);
      StepKeeps(start, Run(start, choices[..|choices| - 1]), choices[|choices| - 1]);
    }
  }

  /** The files there were at the start are as they were. */
  lemma OldFiles(start: Call, c: Call, id: Inode)
    requires Same(start, c) && id in start.disk.files
    ensures id in c.disk.files && c.disk.files[id] == start.disk.files[id]
  {
    assert (c.disk.files - {c.inode})[id] == start.disk.files[id];
  }

  /** A version that agrees with an old one on a name reads the same there. */
  lemma ReadsSame(start: Call, c: Call, dir: Directory, was: Directory, name: Name, r: Option<Bytes>)
    requires Same(start, c) && SoundDir(start.disk.files, was)
    requires (name in dir <==> name in was) && (name in dir ==> dir[name] == was[name])
    ensures Reads(c.disk.files, dir, name, r) <==> Reads(start.disk.files, was, name, r)
  {
    if name in was {
      OldFiles(start, c, was[name]);
    }
  }

  /** The old versions still read as they did. */
  lemma OldVersions(start: Call, c: Call, i: nat, name: Name, r: Option<Bytes>)
    requires Starts(start) && Invariant(start, c) && !c.dirSynced && i < |start.disk.versions|
    ensures ReadsAt(c.disk, i, name, r) <==> ReadsAt(start.disk, i, name, r)
  {
    ReadsSame(start, c, c.disk.versions[i], start.disk.versions[i], name, r);
  }

  /** A new version reads as the last old one, or as the data. */
  lemma NewVersion(start: Call, c: Call, dir: Directory, name: Name, r: Option<Bytes>)
    requires Starts(start) && Invariant(start, c) && OldOrNew(c, dir, start.disk.Current()) && name != start.temp
    ensures name == start.target && IsNew(c, dir, start.disk.Current()) ==>
      (Reads(c.disk.files, dir, name, r) <==> r == Some(start.data))
    ensures !(name == start.target && IsNew(c, dir, start.disk.Current())) ==>
      (Reads(c.disk.files, dir, name, r) <==> Reads(start.disk.files, start.disk.Current(), name, r))
  {
    var k := |start.disk.versions| - 1;
    assert SoundDir(start.disk.files, start.disk.versions[k]);
    if !(name == start.target && IsNew(c, dir, start.disk.Current())) {
      ReadsSame(start, c, dir, start.disk.Current(), name, r);
    }
  }

  /**
   * Exactly what a name may read as after a crash. Before a directory sync that is what it may
   * have read as before the call, and after the rename also the data; behind the sync the data alone.
   */
  lemma CrashExactly(start: Call, c: Call, name: Name, r: Option<Bytes>)
    requires Starts(start) && Invariant(start, c) && name != start.temp
    ensures !c.dirSynced ==> (Survives(c.disk, name, r) <==>
      Survives(start.disk, name, r) || (name == start.target && AfterRename(c.pc) && r == Some(start.data)))
    ensures c.dirSynced ==> (Survives(c.disk, name, r) <==>
      if name == start.target then r == Some(start.data) else ReadsAt(start.disk, |start.disk.versions| - 1, name, r))
  {
    if c.dirSynced {
      SyncedReads(start, c, name, r);
    } else {
      if i :| ReadsAt(start.disk, i, name, r) {
        OldVersions(start, c, i, name, r);
        assert ReadsAt(c.disk, i, name, r);
      }
      if AfterRename(c.pc) && name == start.target && r == Some(start.data) {
        NewVersion(start, c, c.disk.Current(), name, r);
        assert ReadsAt(c.disk, |c.disk.versions| - 1, name, r);
      }
      if i :| ReadsAt(c.disk, i, name, r) {
        CrashReads(start, c, i, name, r);
      }
    }
  }

  lemma SyncedReads(start: Call, c: Call, name: Name, r: Option<Bytes>)
    requires Starts(start) && Invariant(start, c) && c.dirSynced && name != start.temp
    ensures Survives(c.disk, name, r) <==>
      if name == start.target then r == Some(start.data) else ReadsAt(start.disk, |start.disk.versions| - 1, name, r)
  {
    NewVersion(start, c, c.disk.Current(), name, r);
    assert ReadsAt(c.disk, 0, name, r) <==> Reads(c.disk.files, c.disk.Current(), name, r);
    assert forall i :: ReadsAt(c.disk, i, name, r) ==> i == 0;
  }

  lemma CrashReads(start: Call, c: Call, i: nat, name: Name, r: Option<Bytes>)
    requires Starts(start) && Invariant(start, c) && !c.dirSynced && name != start.temp && ReadsAt(c.disk, i, name, r)
    ensures Survives(start.disk, name, r) || (name == start.target && AfterRename(c.pc) && r == Some(start.data))
  {
    if i < |start.disk.versions| {
      OldVersions(start, c, i, name, r);
      assert ReadsAt(start.disk, i, name, r);
    } else {
      NewVersion(start, c, c.disk.versions[i], name, r);
      var k := |start.disk.versions| - 1;
      assert ReadsAt(start.disk, k, name, r) <==> Reads(start.disk.files, start.disk.Current(), name, r);
    }
  }

  /**
   * A crash after any step leaves the target wholly as it could be before or wholly new, and every
   * other file as it could be.
   */
  lemma CrashSafe(start: Call, choices: seq<Choice>, name: Name, r: Option<Bytes>)
    requires Starts(start) && name != start.temp && Survives(Run(start, choices).disk, name, r)
    ensures Survives(start.disk, name, r) || (name == start.target && r == Some(start.data))
  {
    RunKeeps(start, choices);
    var c := Run(start, choices);
    CrashExactly(start, c, name, r);
    if c.dirSynced && name != start.target {
      assert ReadsAt(start.disk, |start.disk.versions| - 1, name, r);
    }
  }

  lemma LiveSame(start: Call, c: Call)
    requires Starts(start) && Invariant(start, c)
    ensures Live(c.disk, start.target) == if AfterRename(c.pc) then Some(start.data) else Live(start.disk, start.target)
  {
    var was := start.disk.Current();
    if !AfterRename(c.pc) && start.target in was {
      assert SoundDir(start.disk.files, start.disk.versions[|start.disk.versions| - 1]);
      OldFiles(start, c, was[start.target]);
    }
  }

  /** An error leaves the target as it was, read now or after a crash, and the temporary file's removal was tried. */
  lemma ErrorLeavesOld(start: Call, choices: seq<Choice>, r: Option<Bytes>)
    requires Starts(start) && Run(start, choices).pc.Failed?
    ensures Live(Run(start, choices).disk, start.target) == Live(start.disk, start.target)
    ensures Survives(Run(start, choices).disk, start.target, r) <==> Survives(start.disk, start.target, r)
    ensures Run(start, choices).created ==> Run(start, choices).removeTried
  {
    RunKeeps(start, choices);
    LiveSame(start, Run(start, choices));
    CrashExactly(start, Run(start, choices), start.target, r);
  }

  /**
   * Success means the target reads as the data and the temporary name is gone; after a crash the
   * target is sure to exactly if the directory sync, whose error is ignored, worked, or it was sure
   * to read as the data already.
   */
  lemma SuccessWrites(start: Call, choices: seq<Choice>)
    requires Starts(start) && Run(start, choices).pc.Succeeded?
    ensures Live(Run(start, choices).disk, start.target) == Some(start.data)
    ensures Live(Run(start, choices).disk, start.temp).None?
    ensures Sure(Run(start, choices).disk, start.target, start.data) <==>
      Run(start, choices).dirSynced || Sure(start.disk, start.target, start.data)
  {
    RunKeeps(start, choices);
    var c := Run(start, choices);
    LiveSame(start, c);
    forall r
      ensures !c.dirSynced ==>
        (Survives(c.disk, start.target, r) <==> Survives(start.disk, start.target, r) || r == Some(start.data))
      ensures c.dirSynced ==> (Survives(c.disk, start.target, r) <==> r == Some(start.data))
    {
      CrashExactly(start, c, start.target, r);
    }
  }

  const STEPS := [MakeDir, Open, Write, Sync, Chmod, Close, Rename, SyncDir, Succeeded]

  /** The i-th step of the call works; the second opens a file that must not be there yet. */
  predicate Works(start: Call, choices: seq<Choice>, i: nat)
    requires start.disk.versions != [] && i < |choices|
  {
    choices[i].ok && (i == 1 ==> start.temp !in start.disk.Current())
  }

  /** How far a call has come if its first n steps all worked; the last step's failure is ignored. */
  ghost predicate GotThrough(start: Call, choices: seq<Choice>)
    requires start.disk.versions != []
  {
    forall i | 0 <= i < |choices| && i < 7 :: Works(start, choices, i)
  }

  predicate FirstFails(start: Call, choices: seq<Choice>, j: nat)
    requires start.disk.versions != []
  {
    j < |choices| && j < 7 && !Works(start, choices, j) && forall i | 0 <= i < j :: Works(start, choices, i)
  }

  lemma NextStep(c: Call, x: Choice, n: nat)
    requires c.disk.versions != [] && n < 8 && c.pc == STEPS[n]
    requires (x.ok || n == 7) && (n == 1 ==> c.temp !in c.disk.Current())
    ensures var t := Step(c, x);
      && t.pc == STEPS[n + 1] && t.temp == c.temp && (n == 0 ==> t.disk == c.disk)
      && t.dirSynced == (c.dirSynced || (n == 7 && x.ok))
  {
  }

  lemma StepFails(c: Call, x: Choice, n: nat)
    requires c.disk.versions != [] && n < 7 && c.pc == STEPS[n]
    requires !x.ok || (n == 1 && c.temp in c.disk.Current())
    ensures Step(c, x).pc == if n < 2 then Failed else Clean
  {
  }

  lemma StaysOver(c: Call, x: Choice)
    requires c.disk.versions != [] && (c.pc.Clean? || c.pc.Failed? || c.pc.Succeeded?)
    ensures Step(c, x).pc == if c.pc.Succeeded? then Succeeded else Failed
    ensures c.pc.Succeeded? ==> Step(c, x) == c
  {
  }

  lemma WorksBefore(start: Call, choices: seq<Choice>, n: nat, i: nat)
    requires start.disk.versions != [] && i < n <= |choices|
    ensures Works(start, choices[..n], i) == Works(start, choices, i)
  {
  }

  /** How far a call has come whose steps so far all worked. */
  ghost predicate ComeTo(start: Call, c: Call, n: nat)
    requires start.disk.versions != []
  {
    && c.disk.versions != [] && c.pc == (if n < 8 then STEPS[n] else Succeeded)
    && (n < 2 ==> c.disk == start.disk) && c.temp == start.temp && (n < 8 ==> !c.dirSynced)
  }

  /** The steps come in their order, each after the one before it has worked. */
  lemma {:induction false} ComesThrough(start: Call, choices: seq<Choice>)
    requires Starts(start) && GotThrough(start, choices)
    ensures ComeTo(start, Run(start, choices), |choices|)
    ensures |choices| >= 8 ==> (Run(start, choices).dirSynced <==> choices[7].ok)
  {
    if choices != [] {
      var n := |choices| - 1;
      forall i | 0 <= i < n && i < 7 ensures Works(start, choices[..n], i) {
        WorksBefore(start, choices, n, i);
        assert Works(start, choices, i);
      }
      ComesThrough(start, choices[..n]);
      assert n < 7 ==> Works(start, choices, n);
      hide Step;
      if n < 8 {
        NextStep(Run(start, choices[..n]), choices[n], n);
      } else {
        StaysOver(Run(start, choices[..n]), choices[n]);
      }
    }
  }

  /** A step that fails ends the call: at once, or after removing the temporary file once there is one. */
  lemma {:induction false} GivesUp(start: Call, choices: seq<Choice>, j: nat)
    requires Starts(start) && FirstFails(start, choices, j)
    ensures Run(start, choices).pc == if j >= 2 && |choices| == j + 1 then Clean else Failed
  {
    var n := |choices| - 1;
    forall i | 0 <= i < n ensures Works(start, choices[..n], i) == Works(start, choices, i) {
      WorksBefore(start, choices, n, i);
    }
    if n == j {
      ComesThrough(start, choices[..n]);
      hide Step;
      StepFails(Run(start, choices[..n]), choices[n], n);
    } else {
      GivesUp(start, choices[..n], j);
      hide Step;
      StaysOver(Run(start, choices[..n]), choices[n]);
    }
  }

  /**
   * A call that is let run to its end succeeds exactly if each of its seven steps up to the rename
   * works, and fails otherwise; only the directory sync may fail unnoticed.
   */
  lemma SucceedsExactly(start: Call, choices: seq<Choice>)
    requires Starts(start) && |choices| >= 9
    ensures Run(start, choices).pc.Succeeded? <==> GotThrough(start, choices)
    ensures Run(start, choices).pc.Failed? <==> !GotThrough(start, choices)
    ensures GotThrough(start, choices) ==> (Run(start, choices).dirSynced <==> choices[7].ok)
  {
    if GotThrough(start, choices) {
      ComesThrough(start, choices);
    } else {
      var j := FirstFailure(start, choices, 7);
      GivesUp(start, choices, j);
    }
  }

  lemma {:induction false} FirstFailure(start: Call, choices: seq<Choice>, n: nat) returns (j: nat)
    requires start.disk.versions != [] && n <= 7 && n <= |choices|
    requires exists i :: 0 <= i < n && !Works(start, choices, i)
    ensures FirstFails(start, choices, j)
  {
    if exists i :: 0 <= i < n - 1 && !Works(start, choices, i) {
      j := FirstFailure(start, choices, n - 1);
    } else {
      j := n - 1;
    }
  }

  /** A call that gives up after creating its temporary file leaves none, if the removal works. */
  lemma RemovesTemp(start: Call, choices: seq<Choice>, x: Choice)
    requires Starts(start) && Run(start, choices).pc.Clean? && x.ok
    ensures var c, t := Run(start, choices), Run(start, choices + [x]);
      t.pc.Failed? && t.disk.Current() == c.disk.Current() - {start.temp}
  {
    assert (choices + [x])[..|choices|] == choices;
    RunKeeps(start, choices);
  }

  /** After a crash the name can read as nothing but the data. */
  ghost predicate Sure(d: Disk, name: Name, data: Bytes) {
    forall r | Survives(d, name, r) :: r == Some(data)
  }

  /** One of many saves of the target: it may fail or be abandoned after any step. */
  datatype Save = Save(data: Bytes, temp: Name, inode: Inode, choices: seq<Choice>)

  function Begin(d: Disk, target: Name, s: Save): Call {
    Call(d, MakeDir, target, s.data, s.temp, s.inode, false, false, false)
  }

  /** The state of the last save, and the disk after all of them. */
  function After(d: Disk, target: Name, s: Save): Call
    requires d.versions != []
  {
    Run(Begin(d, target, s), s.choices)
  }

  function Saved(d: Disk, target: Name, saves: seq<Save>): (r: Disk)
    requires d.versions != []
    ensures r.versions != []
  {
    if saves == [] then d else After(Saved(d, target, saves[..|saves| - 1]), target, saves[|saves| - 1]).disk
  }

  /** Each save has a temporary name and an inode of its own. */
  ghost predicate AllFresh(d: Disk, target: Name, saves: seq<Save>)
    requires d.versions != []
  {
    forall i | 0 <= i < |saves| :: FreshAt(d, target, saves, i)
  }

  predicate FreshAt(d: Disk, target: Name, saves: seq<Save>, i: nat)
    requires d.versions != [] && i < |saves|
  {
    saves[i].temp != target && saves[i].inode !in Saved(d, target, saves[..i]).files
  }

  /** The original, or the data of a save since the last directory sync that worked. */
  ghost predicate MayRead(d: Disk, target: Name, saves: seq<Save>, r: Option<Bytes>)
    requires d.versions != []
  {
    if saves == [] then Survives(d, target, r)
    else
      var before, last := saves[..|saves| - 1], saves[|saves| - 1];
      var c := After(Saved(d, target, before), target, last);
      if c.dirSynced then r == Some(last.data)
      else MayRead(d, target, before, r) || (AfterRename(c.pc) && r == Some(last.data))
  }

  lemma FreshBefore(d: Disk, target: Name, saves: seq<Save>)
    requires d.versions != [] && saves != [] && AllFresh(d, target, saves)
    ensures AllFresh(d, target, saves[..|saves| - 1])
    ensures FreshAt(d, target, saves, |saves| - 1)
  {
    var before := saves[..|saves| - 1];
    forall i | 0 <= i < |before| ensures FreshAt(d, target, before, i) {
      assert before[..i] == saves[..i];
      assert FreshAt(d, target, saves, i);
    }
  }

  /**
   * However often the target is saved, and wherever each save fails or is abandoned, after a crash
   * it can read as exactly these: wholly the original, or wholly the data of one of the saves that
   * reached the rename, of those since the last directory sync that worked.
   */
  lemma {:induction false} SavesExactly(d: Disk, target: Name, saves: seq<Save>, r: Option<Bytes>)
    requires Sound(d) && AllFresh(d, target, saves)
    ensures Sound(Saved(d, target, saves))
    ensures Survives(Saved(d, target, saves), target, r) <==> MayRead(d, target, saves, r)
  {
    if saves != [] {
      hide Invariant, Survives;
      var before, last := saves[..|saves| - 1], saves[|saves| - 1];
      FreshBefore(d, target, saves);
      SavesExactly(d, target, before, r);
      var start := Begin(Saved(d, target, before), target, last);
      RunKeeps(start, last.choices);
      StaysSound(start, Run(start, last.choices));
      CrashExactly(start, Run(start, last.choices), target, r);
    }
  }

  lemma StaysSound(start: Call, c: Call)
    requires Starts(start) && Invariant(start, c)
    ensures Sound(c.disk)
  {
  }
}
