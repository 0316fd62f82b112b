/** Scratch, staging and atomic publication of the shell artifact set.  Any system call may fail, and the table of
    directories is recorded after every change, so the results hold at every moment of every run. */
module Publication {
  import opened Outcomes
  import opened ScratchTree

  const AGENT := "trillionnium-agent-shell"
  const BROKER := "trillionnium-shell-exec-broker-userdebug"
  const WORKER := "trillionnium-shell-exec-worker-userdebug"
  const RECEIPT := "trillionnium-shell-exec-artifact-set-v1.json"
  const PUBLISHED_NAMES := {AGENT, BROKER, WORKER, RECEIPT}
  const MAX_ATTEMPTS := 128

  datatype MadeDir = Created(ino: int) | Exists | Failed

  /** The file system as the run sees it. */
  class FileSystem {
    const job: Job
    const fails: int -> bool
    const accepts: int -> int
    const draw: int -> Token
    var dirs: Dirs
    var next: int
    var calls: int
    ghost var trace: seq<Dirs>
    ghost var lastBuild: int

    /** `fails` decides which calls fail, `accepts` how many bytes a `write` takes, `draw` the random tokens. */
    constructor (job: Job, fails: int -> bool, accepts: int -> int, draw: int -> Token)
      requires job.Valid()
      ensures this.job == job && this.fails == fails && this.accepts == accepts && this.draw == draw
      ensures Untouched() && trace == [job.before] && calls == 0 && lastBuild == -1
    {
      this.job, this.fails, this.accepts, this.draw := job, fails, accepts, draw;
      dirs, next, calls, trace, lastBuild := job.before, job.base, 0, [job.before], -1;
      new;
      job.HistoryStarts();
    }

    /** The trace is the history of the table; `lastBuild` is the last call that did more than remove something. */
    ghost predicate Recorded()
      reads this
    {
      job.Valid() && job.base <= next && job.History(trace, dirs) && lastBuild < calls
    }

    /** The file system at a later moment: calls are counted up, and the trace only grows. */
    twostate predicate Advances()
      reads this
    {
      old(calls) <= calls && old(trace) <= trace
    }

    ghost predicate AlwaysSafe()
      reads this
    {
      forall i :: 0 <= i < |trace| ==> job.Safe(trace[i])
    }

    /** The table is as it was. */
    ghost predicate Untouched()
      reads this
    {
      Recorded() && dirs == job.before
    }

    /** One scratch directory exists. */
    ghost predicate Holding(name: string, ino: int)
      reads this
    {
      Recorded() && ScratchNamed(name) && job.Staged(dirs, next, name, ino)
    }

    /** The output directory exists, complete. */
    ghost predicate Committed()
      reads this
    {
      Recorded() && job.Published(dirs)
    }

    /** A scratch directory was left behind. */
    ghost predicate Littered()
      reads this
    {
      exists name, ino :: Holding(name, ino)
    }

    /** The table is as it was, or published. */
    ghost predicate Clean()
      reads this
    {
      Untouched() || Committed()
    }

    /** Call `k` fails, or would take nothing if it is a `write`. */
    predicate Fault(k: int) {
      fails(k) || accepts(k) <= 0
    }

    /** There is no fault among these calls. */
    ghost predicate Smooth(from: int, to: int) {
      forall k :: from <= k < to ==> !fails(k) && accepts(k) > 0
    }

    /** There are two faults among these calls. */
    ghost predicate TwoFaults(from: int, to: int) {
      exists i, j :: from <= i < j < to && Fault(i) && Fault(j)
    }

    // ----- system calls -----

    /** A call that changes nothing. */
    method Look() returns (ok: bool)
      modifies `calls
      ensures calls == old(calls) + 1 && ok == !fails(old(calls))
    {
      ok := !fails(calls);
      calls := calls + 1;
    }

    /** Several such calls in a row, up to the first that fails. */
    method Looks(count: nat) returns (ok: bool)
      modifies `calls
      ensures Advances() && (Smooth(old(calls), calls) ==> ok)
    {
      ok := true;
      for i := 0 to count
        invariant old(calls) <= calls && (Smooth(old(calls), calls) ==> ok)
      {
        if ok {
          ok := Look();
        }
      }
    }

    /** `mkdir`, relative to a directory. */
    method Mkdir(d: int, name: string) returns (r: MadeDir)
      requires d in dirs && next !in dirs
      modifies this
      ensures calls == old(calls) + 1
      ensures r.Exists? <==> name in old(dirs)[d].entries
      ensures r.Failed? <==> name !in old(dirs)[d].entries && fails(old(calls))
      ensures r.Created? ==>
        && r.ino == old(next) && next == old(next) + 1
        && dirs == Made(old(dirs), d, name, old(next)) && Step(old(dirs), dirs) && trace == old(trace) + [dirs]
      ensures !r.Created? ==> dirs == old(dirs) && next == old(next) && trace == old(trace)
      ensures lastBuild == if r.Created? then old(calls) else old(lastBuild)
    {
      var ok := Look();
      if name in dirs[d].entries {
        return Exists;
      }
      if !ok {
        return Failed;
      }
      r := Created(next);
      StepBy(dirs, Change.Make(d, name, next));
      dirs := Made(dirs, d, name, next);
      next := next + 1;
      trace, lastBuild := trace + [dirs], calls - 1;
    }

    /** `rmdir`, relative to a directory; only an empty directory can be removed. */
    method Rmdir(d: int, name: string) returns (ok: bool)
      requires d in dirs
      modifies this
      ensures calls == old(calls) + 1 && next == old(next) && lastBuild == old(lastBuild)
      ensures ok ==>
        && name in old(dirs)[d].entries && old(dirs)[d].entries[name].Sub?
        && var c := old(dirs)[d].entries[name].ino;
        && c in old(dirs) && old(dirs)[c].entries == map[]
        && dirs == Removed(old(dirs), d, name, c) && Step(old(dirs), dirs) && trace == old(trace) + [dirs]
      ensures !ok ==> dirs == old(dirs) && trace == old(trace)
      ensures !ok ==>
        || fails(old(calls)) || name !in dirs[d].entries || dirs[d].entries[name].File?
        || dirs[d].entries[name].ino !in dirs || dirs[dirs[d].entries[name].ino].entries != map[]
    {
      ok := Look();
      if !ok || name !in dirs[d].entries || dirs[d].entries[name].File? {
        return false;
      }
      var c := dirs[d].entries[name].ino;
      if c !in dirs || dirs[c].entries != map[] {
        return false;
      }
      StepBy(dirs, Change.Remove(d, name, c));
      dirs := Removed(dirs, d, name, c);
      trace := trace + [dirs];
    }

    /** `unlink`, relative to a directory. */
    method Unlink(d: int, name: string) returns (ok: bool)
      requires d in dirs && name in dirs[d].entries && dirs[d].entries[name].File?
      modifies this
      ensures calls == old(calls) + 1 && next == old(next) && lastBuild == old(lastBuild)
      ensures ok ==> dirs == Drop(old(dirs), d, name) && Step(old(dirs), dirs) && trace == old(trace) + [dirs]
      ensures !ok ==> dirs == old(dirs) && trace == old(trace) && fails(old(calls))
    {
      ok := Look();
      if ok {
        StepBy(dirs, Change.Unlink(d, name));
        dirs := Drop(dirs, d, name);
        trace := trace + [dirs];
      }
    }

    /** A call that leaves `file` under the name: creating, changing the mode, writing. */
    method Store(d: int, name: string, file: Entry) returns (ok: bool)
      requires d in dirs && file.File? && (name in dirs[d].entries ==> dirs[d].entries[name].File?)
      modifies this
      ensures lastBuild == if ok then old(calls) else old(lastBuild)
      ensures calls == old(calls) + 1 && next == old(next)
      ensures ok ==> dirs == Put(old(dirs), d, name, file) && Step(old(dirs), dirs) && trace == old(trace) + [dirs]
      ensures !ok ==> dirs == old(dirs) && trace == old(trace) && fails(old(calls))
    {
      ok := Look();
      if ok {
        StepBy(dirs, Change.Write(d, name, file));
        dirs := Put(dirs, d, name, file);
        trace, lastBuild := trace + [dirs], calls - 1;
      }
    }

    /** `write` to an open file: some of the bytes are appended. */
    method Write(d: int, name: string, view: string) returns (ok: bool, written: int)
      requires d in dirs && name in dirs[d].entries && dirs[d].entries[name].File?
      modifies this
      ensures lastBuild == if ok then old(calls) else old(lastBuild)
      ensures calls == old(calls) + 1 && next == old(next) && 0 <= written <= |view|
      ensures ok ==>
        && var f := old(dirs)[d].entries[name];
        && dirs == Put(old(dirs), d, name, f.(raw := f.raw + view[..written]))
        && Step(old(dirs), dirs) && trace == old(trace) + [dirs]
      ensures !ok ==> dirs == old(dirs) && trace == old(trace) && fails(old(calls))
      ensures accepts(old(calls)) > 0 && view != "" ==> written > 0
    {
      var taken := accepts(calls);
      written := if taken < 0 then 0 else if taken > |view| then |view| else taken;
      var f := dirs[d].entries[name];
      ok := Store(d, name, f.(raw := f.raw + view[..written]));
    }

    /** `renameat2` with `RENAME_NOREPLACE`, within one directory. */
    method RenameNoReplace(d: int, from: string, to: string) returns (ok: bool)
      requires d in dirs && from in dirs[d].entries && dirs[d].entries[from].Sub?
      requires dirs[d].entries[from].ino in dirs && dirs[d].entries[from].ino != d
      modifies this
      ensures lastBuild == if ok then old(calls) else old(lastBuild)
      ensures calls == old(calls) + 1 && next == old(next)
      ensures ok ==>
        && to !in old(dirs)[d].entries
        && dirs == Renamed(old(dirs), d, from, to, old(dirs)[d].entries[from].ino)
        && Step(old(dirs), dirs) && trace == old(trace) + [dirs]
      ensures !ok ==> dirs == old(dirs) && trace == old(trace) && (fails(old(calls)) || to in dirs[d].entries)
    {
      ok := Look();
      if to in dirs[d].entries {
        return false;
      }
      if ok {
        StepBy(dirs, Change.Rename(d, from, to, dirs[d].entries[from].ino));
        dirs := Renamed(dirs, d, from, to, dirs[d].entries[from].ino);
        trace, lastBuild := trace + [dirs], calls - 1;
      }
    }
  }

  /** `RetainedScratchDirectory`. */
  class Scratch {
    const name: string
    const ino: int
    var publishedName: Option<string>

    constructor (name: string, ino: int)
      ensures this.name == name && this.ino == ino && publishedName == None
    {
      this.name, this.ino, publishedName := name, ino, None;
    }

    /** `assert_stable`: the current name still denotes the retained directory. */
    method IsStable(fs: FileSystem) returns (ok: bool)
      requires fs.job.top in fs.dirs
      modifies fs`calls
      ensures fs.Advances()
      ensures ok ==>
        var current := if publishedName.Some? then publishedName.value else name;
        var listing := fs.dirs[fs.job.top].entries;
        current in listing && listing[current] == Sub(ino)
      ensures fs.Smooth(old(fs.calls), fs.calls) && !ok ==>
        var current := if publishedName.Some? then publishedName.value else name;
        var listing := fs.dirs[fs.job.top].entries;
        current !in listing || listing[current] != Sub(ino)
    {
      ok := fs.Look();
      if !ok {
        return false;
      }
      ok := fs.Look();
      var current := if publishedName.Some? then publishedName.value else name;
      var listing := fs.dirs[fs.job.top].entries;
      return ok && current in listing && listing[current] == Sub(ino);
    }
  }

  // ----- cleaning up -----

  /** `remove_tree_contents`: whatever happens, only the scratch directory's own contents go. */
  method RemoveContents(fs: FileSystem, d: int, ghost name: string, ghost ino: int) returns (ok: bool)
    requires fs.Holding(name, ino) && d in fs.dirs && fs.job.base <= d
    modifies fs
    ensures fs.Advances() && fs.lastBuild == old(fs.lastBuild)
    ensures fs.Holding(name, ino) && fs.next == old(fs.next) && d in fs.dirs
    ensures ok ==> fs.dirs[d].entries == map[]
    ensures fs.Smooth(old(fs.calls), fs.calls) ==> ok
    ensures forall e :: e in old(fs.dirs) && e < d ==> e in fs.dirs && fs.dirs[e] == old(fs.dirs)[e]
    decreases fs.next - d
  {
    hide Grown, Step, ScratchNamed, Job.Staged, Job.History, Job.Valid;
    ok := fs.Looks(1);
    if !ok {
      return;
    }
    var todo := fs.dirs[d].entries.Keys;
    while todo != {}
      invariant fs.Advances() && fs.lastBuild == old(fs.lastBuild)
      invariant fs.Holding(name, ino) && fs.next == old(fs.next) && d in fs.dirs
      invariant fs.dirs[d].entries.Keys == todo
      invariant forall e :: e in old(fs.dirs) && e < d ==> e in fs.dirs && fs.dirs[e] == old(fs.dirs)[e]
      decreases |todo|
    {
      var n :| n in todo;
      if fs.dirs[d].entries[n].Sub? {
        ok := RemoveChild(fs, d, n, name, ino);
      } else {
        ok := RemoveFile(fs, d, n, name, ino);
      }
      if !ok {
        return;
      }
      todo := todo - {n};
    }
  }

  /** The branch of `remove_tree_contents` for anything but a directory. */
  method RemoveFile(fs: FileSystem, d: int, n: string, ghost name: string, ghost ino: int) returns (ok: bool)
    requires fs.Holding(name, ino) && d in fs.dirs && fs.job.base <= d
    requires n in fs.dirs[d].entries && fs.dirs[d].entries[n].File?
    modifies fs
    ensures fs.Advances() && fs.lastBuild == old(fs.lastBuild)
    ensures fs.Holding(name, ino) && fs.next == old(fs.next) && d in fs.dirs
    ensures ok ==> fs.dirs[d].entries == old(fs.dirs)[d].entries - {n}
    ensures forall e :: e in old(fs.dirs) && e < d ==> e in fs.dirs && fs.dirs[e] == old(fs.dirs)[e]
    ensures fs.Smooth(old(fs.calls), fs.calls) ==> ok
  {
    hide Grown, Step, ScratchNamed, Job.Staged, Job.History, Job.Valid;
    ok := fs.Looks(2);
    if ok {
      ghost var s, trace := fs.dirs, fs.trace;
      ok := fs.Unlink(d, n);
      if ok {
        fs.job.DropKeeps(s, fs.next, name, ino, d, n);
        fs.job.HistoryKeeps(trace, s, fs.dirs, fs.next, name, ino);
      }
    }
  }

  /** The branch of `remove_tree_contents` for a subdirectory. */
  method RemoveChild(fs: FileSystem, d: int, n: string, ghost name: string, ghost ino: int) returns (ok: bool)
    requires fs.Holding(name, ino) && d in fs.dirs && fs.job.base <= d
    requires n in fs.dirs[d].entries && fs.dirs[d].entries[n].Sub?
    modifies fs
    ensures fs.Advances() && fs.lastBuild == old(fs.lastBuild)
    ensures fs.Holding(name, ino) && fs.next == old(fs.next) && d in fs.dirs
    ensures ok ==> fs.dirs[d].entries == old(fs.dirs)[d].entries - {n}
    ensures forall e :: e in old(fs.dirs) && e < d ==> e in fs.dirs && fs.dirs[e] == old(fs.dirs)[e]
    ensures fs.Smooth(old(fs.calls), fs.calls) ==> ok
    decreases fs.next - d, 0
  {
    hide Grown, Step, ScratchNamed, Job.Staged, Job.History, Job.Valid;
    ok := fs.Looks(2);
    if !ok {
      return;
    }
    var c := fs.dirs[d].entries[n].ino;
    ChildIsBelow(fs.job, fs.dirs, fs.next, name, ino, d, n);
    ok := fs.Looks(1);
    if ok {
      ok := RemoveContents(fs, c, name, ino);
      if ok {
        ok := RemoveEmpty(fs, d, n, name, ino);
      }
    }
    var closed := fs.Looks(1);
    ok := ok && closed;
  }

  /** Removing a subdirectory that has been emptied. */
  method RemoveEmpty(fs: FileSystem, d: int, n: string, ghost name: string, ghost ino: int) returns (ok: bool)
    requires fs.Holding(name, ino) && d in fs.dirs && fs.job.base <= d
    requires n in fs.dirs[d].entries && fs.dirs[d].entries[n].Sub?
    requires d < fs.dirs[d].entries[n].ino && fs.dirs[d].entries[n].ino in fs.dirs
    requires fs.dirs[fs.dirs[d].entries[n].ino].entries == map[]
    modifies fs
    ensures fs.Advances() && fs.lastBuild == old(fs.lastBuild)
    ensures fs.Holding(name, ino) && fs.next == old(fs.next) && d in fs.dirs
    ensures ok ==> fs.dirs[d].entries == old(fs.dirs)[d].entries - {n}
    ensures forall e :: e in old(fs.dirs) && e < d ==> e in fs.dirs && fs.dirs[e] == old(fs.dirs)[e]
    ensures fs.Smooth(old(fs.calls), fs.calls) ==> ok
  {
    hide Grown, Step, ScratchNamed, Job.Staged, Job.History, Job.Valid;
    ok := fs.Looks(1);
    if !ok {
      return;
    }
    ghost var s, trace := fs.dirs, fs.trace;
    ok := fs.Rmdir(d, n);
    if ok {
      fs.job.RemoveKeeps(s, fs.next, name, ino, d, n);
      fs.job.HistoryKeeps(trace, s, fs.dirs, fs.next, name, ino);
    }
  }

  lemma ChildIsBelow(job: Job, s: Dirs, next: int, name: string, ino: int, d: int, n: string)
    requires job.Staged(s, next, name, ino) && d in s && job.base <= d && n in s[d].entries && s[d].entries[n].Sub?
    ensures d < s[d].entries[n].ino < next && s[d].entries[n].ino in s
  {
    assert Linked(s, d, n, s[d].entries[n].ino);
  }

  lemma ScratchIsListed(job: Job, s: Dirs, next: int, name: string, ino: int)
    requires job.Staged(s, next, name, ino)
    ensures job.base <= ino && ino in s && job.top in s
    ensures name in s[job.top].entries && s[job.top].entries[name] == Sub(ino)
  {
    hide Grown;
  }

  lemma HistoryReturns(job: Job, trace: seq<Dirs>, s: Dirs)
    requires job.Valid() && job.History(trace, s) && Step(s, job.before)
    ensures job.History(trace + [job.before], job.before)
  {
    hide Step, Job.History, Job.Safe;
    job.BeforeIsSafe();
    job.HistoryGrows(trace, s, job.before);
  }

  /** `cleanup_scratch`. */
  method CleanupScratch(fs: FileSystem, scratch: Scratch) returns (ok: bool)
    requires fs.Holding(scratch.name, scratch.ino) || fs.Untouched()
    requires scratch.publishedName == None && scratch.name !in fs.job.before[fs.job.top].entries
    modifies fs
    ensures fs.Advances() && fs.lastBuild == old(fs.lastBuild)
    ensures fs.Holding(scratch.name, scratch.ino) || fs.Untouched()
    ensures ok || old(fs.Untouched()) ==> fs.Untouched()
    ensures fs.Smooth(old(fs.calls), fs.calls) && old(fs.Holding(scratch.name, scratch.ino)) ==> ok
  {
    hide Grown, Step, ScratchNamed, Job.Staged, Job.History;
    if fs.Holding(scratch.name, scratch.ino) {
      ScratchIsListed(fs.job, fs.dirs, fs.next, scratch.name, scratch.ino);
    }
    ok := scratch.IsStable(fs);
    if ok {
      assert fs.Holding(scratch.name, scratch.ino);
      ok := RemoveScratch(fs, scratch);
    }
  }

  /** The removal itself. */
  method RemoveScratch(fs: FileSystem, scratch: Scratch) returns (ok: bool)
    requires fs.Holding(scratch.name, scratch.ino) && scratch.publishedName == None
    modifies fs
    ensures fs.Advances() && fs.lastBuild == old(fs.lastBuild)
    ensures fs.Holding(scratch.name, scratch.ino) || fs.Untouched()
    ensures ok ==> fs.Untouched()
    ensures fs.Smooth(old(fs.calls), fs.calls) ==> ok
  {
    hide Grown, Step, ScratchNamed, Job.Staged, Job.History, Job.Valid;
    ScratchIsListed(fs.job, fs.dirs, fs.next, scratch.name, scratch.ino);
    ok := RemoveContents(fs, scratch.ino, scratch.name, scratch.ino);
    if !ok {
      return;
    }
    ok := fs.Look();
    if !ok {
      return;
    }
    ScratchIsListed(fs.job, fs.dirs, fs.next, scratch.name, scratch.ino);
    ok := scratch.IsStable(fs);
    if !ok {
      return;
    }
    fs.job.Restores(fs.dirs, fs.next, scratch.name, scratch.ino);
    ghost var s, trace := fs.dirs, fs.trace;
    ok := fs.Rmdir(fs.job.top, scratch.name);
    if ok {
      HistoryReturns(fs.job, trace, s);
      ok := fs.Look();
    }
  }

  // ----- creating scratch directories -----

  /** A scratch directory was left because its removal failed, after an earlier fault; that removal is the last call. */
  ghost predicate Ignored(fs: FileSystem, from: int)
    reads fs
  {
    from < fs.calls && fs.Littered() && fs.fails(fs.calls - 1) && !fs.Smooth(from, fs.calls - 1)
  }

  /** Checking the new directory, or removing it again. */
  method AdoptScratch(fs: FileSystem, name: string, ino: int) returns (scratch: Scratch?, tidy: bool)
    requires fs.Holding(name, ino) && ino in fs.dirs && fs.dirs[ino].entries == map[] && fs.job.top in fs.dirs
    requires name in fs.dirs[fs.job.top].entries && fs.dirs[fs.job.top].entries[name] == Sub(ino)
    modifies fs
    ensures fs.Advances()
    ensures scratch != null ==>
      && fresh(scratch) && scratch.name == name && scratch.ino == ino && scratch.publishedName == None && tidy
      && fs.Holding(name, ino) && fs.dirs == old(fs.dirs)
    ensures scratch == null && tidy ==> fs.Untouched()
    ensures !tidy ==> Ignored(fs, old(fs.calls))
    ensures fs.Smooth(old(fs.calls), fs.calls) ==> scratch != null
  {
    hide Grown, Step, ScratchNamed, Job.Staged, Job.History, Job.Valid;
    scratch := new Scratch(name, ino);
    var stable := fs.Looks(3);
    if stable {
      stable := scratch.IsStable(fs);
    }
    if stable {
      return scratch, true;
    }
    fs.job.Restores(fs.dirs, fs.next, name, ino);
    ghost var s, trace := fs.dirs, fs.trace;
    tidy := fs.Rmdir(fs.job.top, name);
    if tidy {
      HistoryReturns(fs.job, trace, s);
    } else {
      assert fs.Holding(name, ino);
    }
    return null, tidy;
  }

  /** The table as it is when a scratch directory has just been created is among these. */
  ghost predicate Shown(job: Job, trace: seq<Dirs>, name: string)
    requires job.top in job.before
  {
    exists ino :: job.base <= ino && Made(job.before, job.top, name, ino) in trace
  }

  lemma ShownStays(job: Job, before: seq<Dirs>, after: seq<Dirs>, name: string)
    requires job.top in job.before && before <= after && Shown(job, before, name)
    ensures Shown(job, after, name)
  {
    var ino :| job.base <= ino && Made(job.before, job.top, name, ino) in before;
    var i :| 0 <= i < |before| && before[i] == Made(job.before, job.top, name, ino);
    assert after[i] == before[i];
  }

  /** The name was not taken before the run. */
  ghost predicate IsFree(fs: FileSystem, name: string)
    requires fs.job.top in fs.job.before
  {
    name !in fs.job.before[fs.job.top].entries
  }

  /** `create_scratch_directory`.  A failure removes the directory again, ignoring errors; `tidy` says no error was
      ignored. */
  method CreateScratch(fs: FileSystem, prefix: string) returns (scratch: Scratch?, tidy: bool)
    requires fs.Untouched() && (prefix == TARGET_PREFIX || prefix == PUBLISH_PREFIX)
    modifies fs
    ensures fs.Advances()
    ensures scratch != null ==>
      && fresh(scratch) && scratch.publishedName == None && tidy
      && fs.Holding(scratch.name, scratch.ino) && IsFree(fs, scratch.name)
      && scratch.ino in fs.dirs && fs.dirs[scratch.ino].entries == map[] && Shown(fs.job, fs.trace, scratch.name)
    ensures scratch == null && tidy ==> fs.Untouched()
    ensures !tidy ==> Ignored(fs, old(fs.calls))
    ensures
      var first := prefix + fs.draw(old(fs.calls));
      fs.Smooth(old(fs.calls), fs.calls) && IsFree(fs, first) ==> scratch != null && scratch.name == first
  {
    hide Grown, Step, Job.Staged, Job.History, IsToken;
    var top := fs.job.top;
    for attempt := 0 to MAX_ATTEMPTS
      invariant fs.Untouched() && fs.Advances()
      invariant attempt == 0 ==> fs.calls == old(fs.calls)
      invariant attempt > 0 ==> !IsFree(fs, prefix + fs.draw(old(fs.calls)))
    {
      var name := prefix + fs.draw(fs.calls);
      assert IsScratchName(name, fs.draw(fs.calls));
      ghost var next, trace := fs.next, fs.trace;
      var made := fs.Mkdir(top, name);
      if made.Failed? {
        return null, true;
      }
      if made.Created? {
        fs.job.Starts(name, next);
        fs.job.HistoryKeeps(trace, fs.job.before, fs.dirs, fs.next, name, made.ino);
        ScratchIsListed(fs.job, fs.dirs, fs.next, name, made.ino);
        ghost var shown := fs.trace;
        assert shown[|shown| - 1] == Made(fs.job.before, top, name, made.ino);
        assert Shown(fs.job, shown, name);
        scratch, tidy := AdoptScratch(fs, name, made.ino);
        ShownStays(fs.job, shown, fs.trace, name);
        return;
      }
    }
    return null, true;
  }

  // ----- staging -----

  /** `write_file_at` after the exclusive creation: mode, bytes, and a read back. */
  method FillFile(fs: FileSystem, n: string, raw: string, mode: int, ghost name: string, ino: int) returns (ok: bool)
    requires fs.Holding(name, ino) && ino in fs.dirs && fs.job.base <= ino
    requires n in fs.dirs[ino].entries && fs.dirs[ino].entries[n].File? && fs.dirs[ino].entries[n].raw == ""
    modifies fs
    ensures fs.Advances()
    ensures fs.Holding(name, ino) && ino in fs.dirs && n in fs.dirs[ino].entries && fs.dirs[ino].entries[n].File?
    ensures ok ==> fs.dirs[ino].entries == old(fs.dirs)[ino].entries[n := File(raw, mode)]
    ensures fs.Smooth(old(fs.calls), fs.calls) ==> ok
  {
    hide Grown, Step, ScratchNamed, Job.Staged, Job.History, Job.Valid;
    ghost var s, trace := fs.dirs, fs.trace;
    ok := fs.Store(ino, n, File("", mode));
    if !ok {
      return;
    }
    Stored(fs.job, trace, s, fs.next, name, ino, n, File("", mode));
    ok := WriteAll(fs, n, raw, mode, name, ino);
    if !ok {
      return;
    }
    ok := fs.Looks(3);
    return ok && fs.dirs[ino].entries[n] == File(raw, mode);
  }

  /** The `write` loop. */
  method WriteAll(fs: FileSystem, n: string, raw: string, mode: int, ghost name: string, ino: int) returns (ok: bool)
    requires fs.Holding(name, ino) && ino in fs.dirs && fs.job.base <= ino
    requires n in fs.dirs[ino].entries && fs.dirs[ino].entries[n] == File("", mode)
    modifies fs
    ensures fs.Advances()
    ensures fs.Holding(name, ino) && ino in fs.dirs && n in fs.dirs[ino].entries && fs.dirs[ino].entries[n].File?
    ensures ok ==> fs.dirs[ino].entries == old(fs.dirs)[ino].entries[n := File(raw, mode)]
    ensures fs.Smooth(old(fs.calls), fs.calls) ==> ok
  {
    hide Grown, Step, ScratchNamed, Job.Staged, Job.History, Job.Valid;
    var view := raw;
    while view != ""
      invariant fs.Advances() && fs.Holding(name, ino) && ino in fs.dirs && |view| <= |raw|
      invariant fs.dirs[ino].entries == old(fs.dirs)[ino].entries[n := File(raw[..|raw| - |view|], mode)]
      invariant view == raw[|raw| - |view|..]
      decreases |view|
    {
      ghost var s, trace := fs.dirs, fs.trace;
      var written;
      ok, written := fs.Write(ino, n, view);
      if !ok {
        return;
      }
      Stored(fs.job, trace, s, fs.next, name, ino, n, fs.dirs[ino].entries[n]);
      assert raw[..|raw| - |view|] + view[..written] == raw[..|raw| - |view| + written];
      if written <= 0 {
        return false;
      }
      view := view[written..];
    }
    assert raw[..|raw|] == raw;
    return true;
  }

  lemma Stored(job: Job, trace: seq<Dirs>, s: Dirs, next: int, name: string, ino: int, n: string, f: Entry)
    requires job.Valid() && job.History(trace, s) && job.Staged(s, next, name, ino) && ScratchNamed(name)
    requires ino in s && job.base <= ino && f.File? && (n in s[ino].entries ==> s[ino].entries[n].File?)
    requires Step(s, Put(s, ino, n, f))
    ensures job.Staged(Put(s, ino, n, f), next, name, ino)
    ensures job.History(trace + [Put(s, ino, n, f)], Put(s, ino, n, f))
  {
    hide Grown, Step, ScratchNamed, Job.Staged, Job.History, Job.Valid;
    job.PutKeeps(s, next, name, ino, ino, n, f);
    job.HistoryKeeps(trace, s, Put(s, ino, n, f), next, name, ino);
  }

  predicate IsFilename(n: string) {
    n != "" && '/' !in n && n != "." && n != ".."
  }

  /** `write_file_at`: a file that could not be completed is unlinked. */
  method WriteFile(fs: FileSystem, n: string, raw: string, mode: int, ghost name: string, ino: int) returns (ok: bool)
    requires fs.Holding(name, ino) && ino in fs.dirs && fs.job.base <= ino
    modifies fs
    ensures fs.Advances()
    ensures fs.Holding(name, ino) && ino in fs.dirs
    ensures ok ==> n != "" && '/' !in n && n != "." && n != ".."
    ensures ok ==> fs.dirs[ino].entries == old(fs.dirs)[ino].entries[n := File(raw, mode)]
    ensures fs.Smooth(old(fs.calls), fs.calls) && IsFilename(n) && n !in old(fs.dirs)[ino].entries ==> ok
  {
    hide Grown, Step, ScratchNamed, Job.Staged, Job.History, Job.Valid;
    if !IsFilename(n) {
      return false;
    }
    if n in fs.dirs[ino].entries {
      return false;
    }
    ghost var s, trace := fs.dirs, fs.trace;
    ok := fs.Store(ino, n, File("", 0x180));
    if !ok {
      return;
    }
    Stored(fs.job, trace, s, fs.next, name, ino, n, File("", 0x180));
    ok := FillFile(fs, n, raw, mode, name, ino);
    if ok {
      ok := fs.Look();
    } else {
      DiscardFile(fs, n, name, ino);
    }
  }

  /** The handler of `write_file_at`. */
  method DiscardFile(fs: FileSystem, n: string, ghost name: string, ino: int)
    requires fs.Holding(name, ino) && ino in fs.dirs && fs.job.base <= ino
    requires n in fs.dirs[ino].entries && fs.dirs[ino].entries[n].File?
    modifies fs
    ensures fs.Advances()
    ensures fs.Holding(name, ino) && ino in fs.dirs
  {
    hide Grown, Step, ScratchNamed, Job.Staged, Job.History, Job.Valid;
    var held := fs.Look();
    var closed := fs.Look();
    if !closed {
      return;
    }
    var lexical := fs.Look();
    if held && lexical {
      ghost var s, trace := fs.dirs, fs.trace;
      var unlinked := fs.Unlink(ino, n);
      if unlinked {
        fs.job.DropKeeps(s, fs.next, name, ino, ino, n);
        fs.job.HistoryKeeps(trace, s, fs.dirs, fs.next, name, ino);
      }
    }
  }

  /** `verify_exact_inventory` and `verify_staged_file` for each expected file: together they compare the whole
      directory. */
  method VerifyStaging(fs: FileSystem, ino: int) returns (ok: bool)
    requires ino in fs.dirs && forall n :: n in fs.job.expected ==> fs.job.expected[n].File?
    requires fs.job.expected.Keys == PUBLISHED_NAMES
    modifies fs`calls
    ensures fs.Advances()
    ensures ok ==> fs.dirs[ino].entries == fs.job.expected
    ensures fs.Smooth(old(fs.calls), fs.calls) && fs.dirs[ino].entries == fs.job.expected ==> ok
  {
    ok := fs.Look();
    var entries, expected := fs.dirs[ino].entries, fs.job.expected;
    if !ok || entries.Keys != PUBLISHED_NAMES {
      return false;
    }
    var todo := expected.Keys;
    while todo != {}
      invariant todo <= expected.Keys && old(fs.calls) <= fs.calls
      invariant forall n :: n in expected && n !in todo ==> entries[n] == expected[n]
      decreases |todo|
    {
      var n :| n in todo;
      ok := fs.Look();
      if !ok || entries[n] != expected[n] {
        return false;
      }
      todo := todo - {n};
    }
    assert entries == expected;
    return true;
  }

  /** The staged directory is as expected and the output name is free. */
  ghost predicate Matches(fs: FileSystem, ino: int)
    reads fs
  {
    && ino in fs.dirs && fs.dirs[ino].entries == fs.job.expected
    && fs.job.top in fs.dirs && fs.job.output !in fs.dirs[fs.job.top].entries
  }

  lemma HistoryPublishes(job: Job, trace: seq<Dirs>, s: Dirs, t: Dirs)
    requires job.Valid() && job.History(trace, s) && Step(s, t) && job.Published(t)
    ensures job.History(trace + [t], t)
  {
    hide Step, Job.History, Job.Safe, Job.Published;
    job.PublishedIsSafe(t);
    job.HistoryGrows(trace, s, t);
  }

  /** `publish_directory`. */
  method PublishDirectory(fs: FileSystem, scratch: Scratch) returns (ok: bool)
    requires fs.Holding(scratch.name, scratch.ino) && scratch.publishedName == None
    requires fs.job.expected.Keys == PUBLISHED_NAMES
    modifies fs, scratch
    ensures fs.Advances()
    ensures scratch.publishedName == None ==> fs.Holding(scratch.name, scratch.ino) && !ok
    ensures scratch.publishedName.Some? ==> fs.Committed()
    ensures fs.Smooth(old(fs.calls), fs.calls) && old(Matches(fs, scratch.ino)) ==> ok
  {
    hide Grown, Step, ScratchNamed, Job.Staged, Job.History, Job.Published;
    ScratchIsListed(fs.job, fs.dirs, fs.next, scratch.name, scratch.ino);
    ok := scratch.IsStable(fs);
    if !ok {
      return;
    }
    ok := VerifyStaging(fs, scratch.ino);
    if !ok {
      return;
    }
    ok := fs.Look();
    if !ok {
      return;
    }
    ghost var s, trace := fs.dirs, fs.trace;
    ok := fs.RenameNoReplace(fs.job.top, scratch.name, fs.job.output);
    if !ok {
      return;
    }
    fs.job.Publishes(s, fs.next, scratch.name, scratch.ino);
    HistoryPublishes(fs.job, trace, s, fs.dirs);
    scratch.publishedName := Some(fs.job.output);
    ok := scratch.IsStable(fs);
    if !ok {
      return;
    }
    ok := VerifyStaging(fs, scratch.ino);
    if !ok {
      return;
    }
    ok := fs.Look();
  }

  // ----- the run -----

  /** One thing the confined Cargo build does below the target scratch directory. */
  datatype Act =
    | WriteIn(dir: int, name: string, raw: string, mode: int)
    | MakeIn(dir: int, name: string)
    | UnlinkIn(dir: int, name: string)
    | RemoveIn(dir: int, name: string)

  /** The Cargo build: any sequence of acts, confined to the target scratch directory. */
  method RunCargo(fs: FileSystem, acts: seq<Act>, ghost name: string, ghost ino: int)
    requires fs.Holding(name, ino)
    modifies fs
    ensures fs.Advances()
    ensures fs.Holding(name, ino)
  {
    for i := 0 to |acts|
      invariant fs.Advances() && fs.Holding(name, ino)
    {
      if acts[i].dir in fs.dirs && fs.job.base <= acts[i].dir {
        RunAct(fs, acts[i], name, ino);
      }
    }
  }

  method RunAct(fs: FileSystem, act: Act, ghost name: string, ghost ino: int)
    requires fs.Holding(name, ino) && act.dir in fs.dirs && fs.job.base <= act.dir
    modifies fs
    ensures fs.Advances()
    ensures fs.Holding(name, ino)
  {
    hide Grown, Step, ScratchNamed, Job.Staged, Job.History, Job.Valid;
    ghost var s, next, trace := fs.dirs, fs.next, fs.trace;
    NextIsFree(fs.job, s, next, name, ino);
    var entries := fs.dirs[act.dir].entries;
    var isFile := act.name in entries && entries[act.name].File?;
    var ok := false;
    match act {
    case WriteIn(d, n, raw, mode) =>
      if n !in entries || isFile {
        ok := fs.Store(d, n, File(raw, mode));
        if ok {
          fs.job.PutKeeps(s, next, name, ino, d, n, File(raw, mode));
        }
      }
    case MakeIn(d, n) =>
      var made := fs.Mkdir(d, n);
      if made.Created? {
        ok := true;
        fs.job.MakeKeeps(s, next, name, ino, d, n);
      }
    case UnlinkIn(d, n) =>
      if isFile {
        ok := fs.Unlink(d, n);
        if ok {
          fs.job.DropKeeps(s, next, name, ino, d, n);
        }
      }
    case RemoveIn(d, n) =>
      ok := fs.Rmdir(d, n);
      if ok {
        fs.job.RemoveKeeps(s, next, name, ino, d, n);
      }
    }
    if ok {
      fs.job.HistoryKeeps(trace, s, fs.dirs, fs.next, name, ino);
    }
  }

  lemma NextIsFree(job: Job, s: Dirs, next: int, name: string, ino: int)
    requires job.Valid() && job.base <= next && job.Staged(s, next, name, ino)
    ensures next !in s
  {
  }

  /** The captured artifacts and the receipt, in the order they are written. */
  function Plan(agent: string, broker: string, worker: string, receipt: string): seq<(string, Entry)> {
    [(AGENT, File(agent, 0x16D)), (BROKER, File(broker, 0x16D)), (WORKER, File(worker, 0x16D)),
     (RECEIPT, File(receipt, 0x124))]
  }

  function Listing(plan: seq<(string, Entry)>): map<string, Entry> {
    if plan == [] then map[]
    else Listing(plan[..|plan| - 1])[plan[|plan| - 1].0 := plan[|plan| - 1].1]
  }

  predicate DistinctFiles(plan: seq<(string, Entry)>) {
    && (forall i :: 0 <= i < |plan| ==> plan[i].1.File? && IsFilename(plan[i].0))
    && (forall i, j :: 0 <= i < j < |plan| ==> plan[i].0 != plan[j].0)
  }

  lemma {:induction false} ListingKeys(plan: seq<(string, Entry)>)
    ensures forall n :: n in Listing(plan) <==> exists i :: 0 <= i < |plan| && plan[i].0 == n
  {
    if plan != [] {
      var front := plan[..|plan| - 1];
      ListingKeys(front);
      forall n ensures n in Listing(plan) <==> exists i :: 0 <= i < |plan| && plan[i].0 == n {
        if n in Listing(front) {
          var i :| 0 <= i < |front| && front[i].0 == n;
          assert plan[i].0 == n;
        }
        if i :| 0 <= i < |plan| && plan[i].0 == n {
          assert i < |front| ==> front[i].0 == n;
        }
      }
    }
  }

  lemma ListingExtends(plan: seq<(string, Entry)>, i: int)
    requires DistinctFiles(plan) && 0 <= i < |plan|
    ensures plan[i].0 !in Listing(plan[..i]) && Listing(plan[..i + 1]) == Listing(plan[..i])[plan[i].0 := plan[i].1]
  {
    ListingKeys(plan[..i]);
    assert plan[..i + 1][..i] == plan[..i];
  }

  /** The four files have different names. */
  lemma PlanIsDistinct(agent: string, broker: string, worker: string, receipt: string)
    ensures DistinctFiles(Plan(agent, broker, worker, receipt))
  {
    NamesDiffer(AGENT, BROKER, WORKER, RECEIPT);
  }

  lemma NamesDiffer(agent: string, broker: string, worker: string, receipt: string)
    requires agent == AGENT && broker == BROKER && worker == WORKER && receipt == RECEIPT
    ensures |{agent, broker, worker, receipt}| == 4
    ensures IsFilename(agent) && IsFilename(broker) && IsFilename(worker) && IsFilename(receipt)
  {
    assert |agent| == 24 && |broker| == 40 && |worker| == 40 && |receipt| == 44;
    assert broker[24] == 'b' && worker[24] == 'w';
  }

  /** They are listed under the published names. */
  lemma PlanNames(agent: string, broker: string, worker: string, receipt: string)
    ensures Listing(Plan(agent, broker, worker, receipt)).Keys == PUBLISHED_NAMES
  {
    var plan := Plan(agent, broker, worker, receipt);
    ListingKeys(plan);
    hide Listing;
    forall n ensures n in Listing(plan) <==> n in PUBLISHED_NAMES {
      assert plan[0].0 == AGENT && plan[1].0 == BROKER && plan[2].0 == WORKER && plan[3].0 == RECEIPT;
    }
  }

  /** What a run is asked to do. */
  ghost predicate Ready(fs: FileSystem, plan: seq<(string, Entry)>)
    reads fs
  {
    && fs.Untouched() && DistinctFiles(plan)
    && fs.job.expected == Listing(plan) && fs.job.expected.Keys == PUBLISHED_NAMES
  }

  /** The tool's own four files are such a plan. */
  lemma PlanIsReady(fs: FileSystem, agent: string, broker: string, worker: string, receipt: string)
    requires fs.Untouched() && fs.job.expected == Listing(Plan(agent, broker, worker, receipt))
    ensures Ready(fs, Plan(agent, broker, worker, receipt))
  {
    hide Plan, Listing, DistinctFiles, Job.History;
    PlanIsDistinct(agent, broker, worker, receipt);
    PlanNames(agent, broker, worker, receipt);
  }

  /** For a run that starts at call `from`: the output name and the first target name drawn are free. */
  ghost predicate TargetIsFree(fs: FileSystem, from: int)
    requires fs.job.top in fs.job.before
  {
    IsFree(fs, fs.job.output) && IsFree(fs, TARGET_PREFIX + fs.draw(from + 1))
  }

  /** So are the staging names drawn later. */
  ghost predicate StagingIsFree(fs: FileSystem, from: int)
    requires fs.job.top in fs.job.before
  {
    TargetIsFree(fs, from) && forall k :: from + 1 < k ==> IsFree(fs, PUBLISH_PREFIX + fs.draw(k))
  }

  /** Nor is one of these the output name. */
  ghost predicate Unhindered(fs: FileSystem, from: int)
    requires fs.job.top in fs.job.before
  {
    StagingIsFree(fs, from) && forall k :: from + 1 < k ==> PUBLISH_PREFIX + fs.draw(k) != fs.job.output
  }

  /** A staging directory drawn at a call after `from` has been created. */
  ghost predicate StagingShown(fs: FileSystem, from: int, trace: seq<Dirs>)
    requires fs.job.top in fs.job.before
  {
    exists k :: from < k && Shown(fs.job, trace, PUBLISH_PREFIX + fs.draw(k))
  }

  lemma StagingShownStays(fs: FileSystem, from: int, before: seq<Dirs>, after: seq<Dirs>)
    requires fs.job.top in fs.job.before && before <= after && StagingShown(fs, from, before)
    ensures StagingShown(fs, from, after)
  {
    hide Shown;
    var k :| from < k && Shown(fs.job, before, PUBLISH_PREFIX + fs.draw(k));
    ShownStays(fs.job, before, after, PUBLISH_PREFIX + fs.draw(k));
  }

  /** Staging the files. */
  method StageFiles(fs: FileSystem, plan: seq<(string, Entry)>, publish: Scratch) returns (ok: bool)
    requires fs.Holding(publish.name, publish.ino) && DistinctFiles(plan)
    requires publish.ino in fs.dirs && fs.dirs[publish.ino].entries == map[]
    modifies fs
    ensures fs.Advances()
    ensures fs.Holding(publish.name, publish.ino) && publish.ino in fs.dirs
    ensures ok ==> fs.dirs[publish.ino].entries == Listing(plan)
    ensures fs.Smooth(old(fs.calls), fs.calls) ==> ok
  {
    hide Grown, Step, ScratchNamed, Job.Staged, Job.History, Job.Valid;
    for i := 0 to |plan|
      invariant fs.Advances() && fs.Holding(publish.name, publish.ino) && publish.ino in fs.dirs
      invariant fs.dirs[publish.ino].entries == Listing(plan[..i])
    {
      ScratchIsListed(fs.job, fs.dirs, fs.next, publish.name, publish.ino);
      var (n, file) := plan[i];
      ListingExtends(plan, i);
      ok := WriteFile(fs, n, file.raw, file.mode, publish.name, publish.ino);
      if !ok {
        return;
      }
    }
    assert plan[..|plan|] == plan;
    return true;
  }

  /** What a stage that started at call `from` leaves behind when it returns no scratch directory. */
  ghost predicate Settled(fs: FileSystem, ok: bool, tidy: bool, from: int)
    reads fs
  {
    if ok then fs.Committed() else if tidy then fs.Untouched() else Ignored(fs, from)
  }

  /** A staging directory that is still to be closed or removed; it is there because of a fault since `from`, or
      because it has the output name. */
  ghost predicate Pending(fs: FileSystem, publish: Scratch, from: int)
    requires fs.job.top in fs.job.before
    reads fs, publish
  {
    && IsFree(fs, publish.name)
    && if publish.publishedName == None
       then fs.Holding(publish.name, publish.ino) && (OutputIsFree(fs, publish) ==> !fs.Smooth(from, fs.calls))
       else fs.Committed()
  }

  /** Staging and publishing, once the target scratch directory is gone. */
  method StageAndPublish(fs: FileSystem, plan: seq<(string, Entry)>) returns (ok: bool, publish: Scratch?, tidy: bool)
    requires Ready(fs, plan)
    modifies fs
    ensures fs.Advances()
    ensures publish != null ==> fresh(publish) && Pending(fs, publish, old(fs.calls)) && tidy && !ok
    ensures publish == null ==> Settled(fs, ok, tidy, old(fs.calls))
    ensures
      var first := PUBLISH_PREFIX + fs.draw(old(fs.calls));
      fs.Smooth(old(fs.calls), fs.calls) && IsFree(fs, first) ==>
        && Shown(fs.job, fs.trace, first)
        && (first != fs.job.output && IsFree(fs, fs.job.output) ==> ok && tidy)
  {
    hide ScratchNamed, Step, Job.History, Job.Published, Job.Staged, Grown, DistinctFiles, Shown;
    publish, tidy := CreateScratch(fs, PUBLISH_PREFIX);
    if publish == null {
      return false, null, tidy;
    }
    ghost var created := fs.trace;
    ok := StageAndCommit(fs, plan, publish);
    ShownStays(fs.job, created, fs.trace, publish.name);
    if ok {
      publish := null;
    }
  }

  ghost predicate OutputIsFree(fs: FileSystem, publish: Scratch)
    requires fs.job.top in fs.job.before
  {
    publish.name != fs.job.output && fs.job.output !in fs.job.before[fs.job.top].entries
  }

  /** Filling the staging directory and publishing it. */
  method StageAndCommit(fs: FileSystem, plan: seq<(string, Entry)>, publish: Scratch) returns (ok: bool)
    requires fs.Holding(publish.name, publish.ino) && publish.publishedName == None
    requires publish.ino in fs.dirs && fs.dirs[publish.ino].entries == map[]
    requires DistinctFiles(plan) && fs.job.expected == Listing(plan) && fs.job.expected.Keys == PUBLISHED_NAMES
    modifies fs, publish
    ensures fs.Advances()
    ensures if publish.publishedName == None then fs.Holding(publish.name, publish.ino) && !ok else fs.Committed()
    ensures fs.Smooth(old(fs.calls), fs.calls) && OutputIsFree(fs, publish) ==> ok
  {
    hide ScratchNamed, Step, Job.History, Job.Published, Job.Staged, Grown, DistinctFiles, Listing;
    ok := StageFiles(fs, plan, publish);
    if !ok {
      return;
    }
    StagedListing(fs.job, fs.dirs, fs.next, publish.name, publish.ino);
    ok := PublishDirectory(fs, publish);
    if ok {
      ok := fs.Look();
    }
  }

  lemma StagedListing(job: Job, s: Dirs, next: int, name: string, ino: int)
    requires job.Staged(s, next, name, ino)
    ensures job.top in s && (job.output in s[job.top].entries <==>
      job.output in job.before[job.top].entries || job.output == name)
  {
    hide Grown;
  }

  /** A target scratch directory that is still to be removed because of a fault since `from`. */
  ghost predicate TargetPending(fs: FileSystem, target: Scratch, from: int)
    requires fs.job.top in fs.job.before
    reads fs, target
  {
    && IsFree(fs, target.name) && target.publishedName == None && !fs.Smooth(from, fs.calls)
    && (fs.Holding(target.name, target.ino) || fs.Untouched())
  }

  /** The body of the run: build in a target scratch directory, remove it, stage and publish.  What is returned is
      what the final clean-up finds. */
  method Attempt(fs: FileSystem, acts: seq<Act>, plan: seq<(string, Entry)>)
    returns (ok: bool, target: Scratch?, publish: Scratch?, tidy: bool)
    requires Ready(fs, plan)
    modifies fs
    ensures fs.Advances()
    ensures publish != null ==>
      && fresh(publish) && Pending(fs, publish, old(fs.calls)) && IsFree(fs, fs.job.output)
      && target == null && tidy && !ok
    ensures target != null ==>
      fresh(target) && TargetPending(fs, target, old(fs.calls)) && publish == null && tidy && !ok
    ensures target == null && publish == null ==> Settled(fs, ok, tidy, old(fs.calls))
    ensures !IsFree(fs, fs.job.output) ==> !ok && fs.Untouched() && target == null && publish == null
    ensures fs.Smooth(old(fs.calls), fs.calls) ==>
      && (TargetIsFree(fs, old(fs.calls)) ==> Shown(fs.job, fs.trace, TARGET_PREFIX + fs.draw(old(fs.calls) + 1)))
      && (StagingIsFree(fs, old(fs.calls)) ==> StagingShown(fs, old(fs.calls) + 1, fs.trace))
      && (Unhindered(fs, old(fs.calls)) ==> ok && tidy)
  {
    hide ScratchNamed, Step, Job.History, Job.Published, Job.Staged, Grown, DistinctFiles, Shown;
    target, publish, tidy := null, null, true;
    ok := fs.Look();
    if !ok || fs.job.output in fs.dirs[fs.job.top].entries {
      return false, null, null, true;
    }
    target, ok, tidy := BuildTarget(fs, acts);
    if !ok {
      return;
    }
    ghost var cleaned := fs.trace;
    ok := fs.Look();
    if ok {
      ok, publish, tidy := StageAndPublish(fs, plan);
    }
    if Shown(fs.job, cleaned, TARGET_PREFIX + fs.draw(old(fs.calls) + 1)) {
      ShownStays(fs.job, cleaned, fs.trace, TARGET_PREFIX + fs.draw(old(fs.calls) + 1));
    }
  }

  /** The Cargo build in its target scratch directory, up to the removal of that directory. */
  method BuildTarget(fs: FileSystem, acts: seq<Act>) returns (target: Scratch?, ok: bool, tidy: bool)
    requires fs.Untouched()
    modifies fs
    ensures fs.Advances()
    ensures target != null ==> fresh(target) && TargetPending(fs, target, old(fs.calls)) && tidy && !ok
    ensures target == null ==> if tidy then fs.Untouched() else !ok && Ignored(fs, old(fs.calls))
    ensures ok ==> target == null && tidy && old(fs.calls) < fs.calls
    ensures
      var first := TARGET_PREFIX + fs.draw(old(fs.calls));
      fs.Smooth(old(fs.calls), fs.calls) && IsFree(fs, first) ==> ok && Shown(fs.job, fs.trace, first)
  {
    hide ScratchNamed, Step, Job.History, Job.Staged, Grown, Shown;
    target, tidy := CreateScratch(fs, TARGET_PREFIX);
    if target == null {
      return null, false, tidy;
    }
    ghost var created := fs.trace;
    RunCargo(fs, acts, target.name, target.ino);
    ok := fs.Look();
    if ok {
      ok := CleanupScratch(fs, target);
    }
    ShownStays(fs.job, created, fs.trace, target.name);
    if ok {
      target := null;
    }
  }

  /** One build run.  The trace is the history of the table, one system call a step, and extends the earlier one.  In
      each of its tables the output name is as it was or names the complete directory, and nothing else beside the
      run's own scratch directory has changed; only an output name that a scratch directory may get can show that
      directory instead.  A run that reports success has published.

      A scratch directory stays behind only after two faults: one that ends the run, and one in the clean-up.  The
      final clean-up starts at call `cleanup`, from which on the table only shrinks; without a fault from there on it
      leaves the table as it was or published, unless an earlier failed removal was ignored.

      A run in which nothing goes wrong publishes. */
  method BuildArtifacts(fs: FileSystem, acts: seq<Act>, plan: seq<(string, Entry)>)
    returns (ok: bool, ghost cleanup: int, ghost ignored: bool)
    requires Ready(fs, plan)
    modifies fs
    ensures fs.Advances() && fs.Recorded()
    ensures !ScratchNamed(fs.job.output) ==> fs.AlwaysSafe()
    ensures fs.Clean() || fs.Littered()
    ensures ok ==> fs.Committed()
    ensures !fs.Clean() ==> !fs.Smooth(old(fs.calls), fs.calls)
    ensures !fs.Clean() && !ScratchNamed(fs.job.output) ==> fs.TwoFaults(old(fs.calls), fs.calls)
    ensures old(fs.calls) <= cleanup <= fs.calls && fs.lastBuild < cleanup
    ensures ignored ==> cleanup == fs.calls && Ignored(fs, old(fs.calls))
    ensures !fs.Clean() && !ignored ==> !fs.Smooth(cleanup, fs.calls)
    ensures !IsFree(fs, fs.job.output) ==> !ok && fs.Untouched()
    ensures fs.Smooth(old(fs.calls), fs.calls) ==>
      && (TargetIsFree(fs, old(fs.calls)) ==> Shown(fs.job, fs.trace, TARGET_PREFIX + fs.draw(old(fs.calls) + 1)))
      && (StagingIsFree(fs, old(fs.calls)) ==> StagingShown(fs, old(fs.calls) + 1, fs.trace))
      && (Unhindered(fs, old(fs.calls)) ==> ok)
  {
    hide ScratchNamed, Step, Job.History, Job.Published, Job.Staged, Grown, DistinctFiles, Shown, StagingShown;
    var target, publish, tidy;
    ok, target, publish, tidy := Attempt(fs, acts, plan);
    cleanup, ignored := fs.calls, !ok && !tidy;
    ghost var attempted := fs.trace;
    if publish != null && publish.publishedName == None {
      var cleaned := CleanupScratch(fs, publish);
      assert fs.Holding(publish.name, publish.ino) ==> fs.Littered();
      OutputIsNotScratch(fs, publish);
    }
    if target != null {
      var cleaned := CleanupScratch(fs, target);
      assert fs.Holding(target.name, target.ino) ==> fs.Littered();
    }
    CountFaults(fs, old(fs.calls), cleanup, fs.calls);
    KeepShown(fs, old(fs.calls), attempted);
    if !ScratchNamed(fs.job.output) {
      TameIsSafe(fs.job, fs.trace, fs.dirs);
    }
  }

  lemma OutputIsNotScratch(fs: FileSystem, publish: Scratch)
    requires fs.job.top in fs.job.before && IsFree(fs, fs.job.output) && ScratchNamed(publish.name)
    ensures !ScratchNamed(fs.job.output) ==> OutputIsFree(fs, publish)
  {
    hide ScratchNamed;
  }

  /** Two faults: one in each part of the run, or the ignored one and an earlier one. */
  lemma CountFaults(fs: FileSystem, from: int, mid: int, to: int)
    ensures from <= mid <= to && !fs.Smooth(from, mid) && !fs.Smooth(mid, to) ==> fs.TwoFaults(from, to)
    ensures from < to && !fs.Smooth(from, to - 1) && fs.fails(to - 1) ==> fs.TwoFaults(from, to)
  {
    if from <= mid <= to && !fs.Smooth(from, mid) && !fs.Smooth(mid, to) {
      var i :| from <= i < mid && (fs.fails(i) || fs.accepts(i) <= 0);
      var j :| mid <= j < to && (fs.fails(j) || fs.accepts(j) <= 0);
      assert fs.Fault(i) && fs.Fault(j);
    }
    if from < to && !fs.Smooth(from, to - 1) && fs.fails(to - 1) {
      var i :| from <= i < to - 1 && (fs.fails(i) || fs.accepts(i) <= 0);
      assert fs.Fault(i) && fs.Fault(to - 1);
    }
  }

  lemma KeepShown(fs: FileSystem, from: int, attempted: seq<Dirs>)
    requires fs.job.top in fs.job.before && attempted <= fs.trace
    ensures
      var first := TARGET_PREFIX + fs.draw(from + 1);
      Shown(fs.job, attempted, first) ==> Shown(fs.job, fs.trace, first)
    ensures StagingShown(fs, from + 1, attempted) ==> StagingShown(fs, from + 1, fs.trace)
  {
    hide Shown, StagingShown;
    var first := TARGET_PREFIX + fs.draw(from + 1);
    if Shown(fs.job, attempted, first) {
      ShownStays(fs.job, attempted, fs.trace, first);
    }
    if StagingShown(fs, from + 1, attempted) {
      StagingShownStays(fs, from + 1, attempted, fs.trace);
    }
  }

  lemma TameIsSafe(job: Job, trace: seq<Dirs>, s: Dirs)
    requires job.History(trace, s) && !ScratchNamed(job.output)
    ensures forall i :: 0 <= i < |trace| ==> job.Safe(trace[i])
  {
    hide Job.Safe, Step;
  }

  /** A whole run that decides the question.  It draws `first` for its target directory and `second` afterwards: the
      output name shows an unfinished directory at some moment exactly when it has the form of a scratch name. */
  method ExposureRun(job: Job, acts: seq<Act>, plan: seq<(string, Entry)>, first: Token, second: Token)
    returns (fs: FileSystem)
    requires job.Valid() && job.output !in job.before[job.top].entries
    requires DistinctFiles(plan) && job.expected == Listing(plan) && job.expected.Keys == PUBLISHED_NAMES
    requires TARGET_PREFIX + first !in job.before[job.top].entries
    requires ScratchNamed(job.output) ==> job.output == TARGET_PREFIX + first || job.output == PUBLISH_PREFIX + second
    ensures fresh(fs) && fs.job == job && fs.Recorded()
    ensures (exists i :: 0 <= i < |fs.trace| && !job.Safe(fs.trace[i])) <==> ScratchNamed(job.output)
  {
    hide Step, Job.History, Job.Safe, Job.Staged, Grown, DistinctFiles, IsToken, Shown;
    fs := new FileSystem(job, _ => false, _ => 1, k => if k == 1 then first else second);
    ghost var cleanup, ignored;
    var ok;
    ok, cleanup, ignored := BuildArtifacts(fs, acts, plan);
    if ScratchNamed(job.output) {
      if job.output == PUBLISH_PREFIX + second {
        assert StagingIsFree(fs, 0);
        ghost var k :| 1 < k && Shown(job, fs.trace, PUBLISH_PREFIX + fs.draw(k));
      }
      Exposes(job, fs.trace);
    }
  }

  lemma Exposes(job: Job, trace: seq<Dirs>)
    requires job.Valid() && job.output !in job.before[job.top].entries && Shown(job, trace, job.output)
    ensures exists i :: 0 <= i < |trace| && !job.Safe(trace[i])
  {
    hide Job.Safe;
    var ino :| job.base <= ino && Made(job.before, job.top, job.output, ino) in trace;
    job.NewOutputIsUnsafe(ino);
  }

  /** What a published table shows: the four files with their bytes and modes under the output name, and no scratch
      directory beside it. */
  lemma OutputIsComplete(job: Job, s: Dirs, agent: string, broker: string, worker: string, receipt: string)
    requires job.Valid() && job.Published(s) && job.expected == Listing(Plan(agent, broker, worker, receipt))
    ensures job.output !in job.before[job.top].entries
    ensures s[job.top].entries.Keys == job.before[job.top].entries.Keys + {job.output}
    ensures s[job.top].entries[job.output].Sub? && s[job.top].entries[job.output].ino in s
    ensures s[s[job.top].entries[job.output].ino].entries == map[
      AGENT := File(agent, 0x16D), BROKER := File(broker, 0x16D), WORKER := File(worker, 0x16D),
      RECEIPT := File(receipt, 0x124)
    ]
  {
    var plan := Plan(agent, broker, worker, receipt);
    PlanIsDistinct(agent, broker, worker, receipt);
    assert plan[..4] == plan && plan[..0] == [];
    ListingExtends(plan, 0);
    ListingExtends(plan, 1);
    ListingExtends(plan, 2);
    ListingExtends(plan, 3);
  }
}
