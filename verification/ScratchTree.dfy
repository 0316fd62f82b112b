/** The directory that receives a shell artifact set, as a table of directories, and what a build run may do to it.
    The run creates one private scratch directory at a time beside the output name. */
module ScratchTree {
  /** A file's bytes (as characters) and mode, or a subdirectory. */
  datatype Entry = File(raw: string, mode: int) | Sub(ino: int)

  /** A directory knows the directory above it and its own name there. */
  datatype Directory = Directory(up: int, name: string, entries: map<string, Entry>)

  type Dirs = map<int, Directory>

  // ----- what a system call does to the table -----

  function Put(s: Dirs, d: int, name: string, e: Entry): Dirs
    requires d in s
  {
    s[d := s[d].(entries := s[d].entries[name := e])]
  }

  function Drop(s: Dirs, d: int, name: string): Dirs
    requires d in s
  {
    s[d := s[d].(entries := s[d].entries - {name})]
  }

  function Made(s: Dirs, d: int, name: string, ino: int): Dirs
    requires d in s
  {
    Put(s, d, name, Sub(ino))[ino := Directory(d, name, map[])]
  }

  function Removed(s: Dirs, d: int, name: string, ino: int): Dirs
    requires d in s
  {
    Drop(s, d, name) - {ino}
  }

  function Renamed(s: Dirs, d: int, from: string, to: string, ino: int): Dirs
    requires d in s && ino in s && d != ino
  {
    Put(Drop(s, d, from), d, to, Sub(ino))[ino := s[ino].(name := to)]
  }

  /** One change of the table by a system call. */
  datatype Change =
    | Make(dir: int, name: string, ino: int)
    | Remove(dir: int, name: string, ino: int)
    | Write(dir: int, name: string, file: Entry)
    | Unlink(dir: int, name: string)
    | Rename(dir: int, name: string, to: string, ino: int)

  /** The system call can make the change: names are not reused, only empty directories go, a rename replaces
      nothing. */
  predicate Possible(s: Dirs, c: Change) {
    && c.dir in s
    && var entries := s[c.dir].entries;
    && match c
       case Make(_, n, ino) => n !in entries && ino !in s
       case Remove(_, n, ino) => n in entries && entries[n] == Sub(ino) && ino in s && s[ino].entries == map[]
       case Write(_, n, f) => f.File? && (n in entries ==> entries[n].File?)
       case Unlink(_, n) => n in entries && entries[n].File?
       case Rename(d, n, to, ino) => n in entries && entries[n] == Sub(ino) && ino in s && ino != d && to !in entries
  }

  function Apply(s: Dirs, c: Change): Dirs
    requires Possible(s, c)
  {
    match c
    case Make(d, n, ino) => Made(s, d, n, ino)
    case Remove(d, n, ino) => Removed(s, d, n, ino)
    case Write(d, n, f) => Put(s, d, n, f)
    case Unlink(d, n) => Drop(s, d, n)
    case Rename(d, n, to, ino) => Renamed(s, d, n, to, ino)
  }

  /** One system call leads from one table to the next. */
  ghost predicate Step(s: Dirs, t: Dirs) {
    exists c :: Possible(s, c) && t == Apply(s, c)
  }

  lemma StepBy(s: Dirs, c: Change)
    requires Possible(s, c)
    ensures Step(s, Apply(s, c))
  {
  }

  // ----- scratch names -----

  const TARGET_PREFIX := ".shell-exec-target."
  const PUBLISH_PREFIX := ".shell-exec-artifacts."

  predicate IsToken(t: string) {
    |t| == 32 && forall c :: c in t ==> '0' <= c <= '9' || 'a' <= c <= 'f'
  }

  /** The result of `secrets.token_hex(16)`. */
  type Token = t: string | IsToken(t) witness seq(32, _ => '0')

  predicate IsScratchName(name: string, token: Token) {
    name == ".shell-exec-target." + token || name == ".shell-exec-artifacts." + token
  }

  /** The name could be drawn for a scratch directory. */
  ghost predicate ScratchNamed(name: string) {
    exists t: Token :: IsScratchName(name, t)
  }

  // ----- the part of the table a run has created -----

  /** Subdirectory `e` of `p` is in the table and points back. */
  predicate Linked(s: Dirs, p: int, name: string, e: int) {
    e in s && p < e && s[e].up == p && s[e].name == name
  }

  /** Directory `e` is listed by the directory above it. */
  predicate Hangs(s: Dirs, top: int, base: int, e: int)
    requires e in s
  {
    var u := s[e].up;
    && u in s && u < e && (u == top || base <= u)
    && s[e].name in s[u].entries && s[u].entries[s[e].name] == Sub(e)
  }

  /** Directories numbered from `base` form trees that hang from `top`. */
  ghost predicate Grown(s: Dirs, top: int, base: int, next: int) {
    && (forall p, n :: p in s && base <= p && n in s[p].entries && s[p].entries[n].Sub? ==>
          Linked(s, p, n, s[p].entries[n].ino))
    && (forall e :: e in s && base <= e ==> e < next && Hangs(s, top, base, e))
  }

  /** One run: the receiving directory `top`, the output name, the table before the run (all of it numbered below
      `base`), and the files to be published. */
  datatype Job = Job(top: int, output: string, before: Dirs, base: int, expected: map<string, Entry>) {
    ghost predicate Valid() {
      && top in before && top < base
      && (forall e :: e in before ==> e < base)
      && (forall n :: n in before[top].entries && before[top].entries[n].Sub? ==> before[top].entries[n].ino < base)
      && (forall n :: n in expected ==> expected[n].File?)
      && expected != map[]
    }

    /** Everything that was there is still there, unchanged. */
    ghost predicate Intact(s: Dirs) {
      && (forall e :: e in before ==> e in s && (e != top ==> s[e] == before[e]))
      && top in before && top in s
      && (forall n :: n in before[top].entries ==> n in s[top].entries && s[top].entries[n] == before[top].entries[n])
    }

    /** The table is the old one plus the output directory, which holds exactly the expected files. */
    ghost predicate Published(s: Dirs) {
      && top in s && top in before && output !in before[top].entries && output in s[top].entries
      && var e := s[top].entries[output];
      && e.Sub? && base <= e.ino
      && s == Put(before, top, output, e)[e.ino := Directory(top, output, expected)]
    }

    /** What holds at every moment of a run. */
    ghost predicate Safe(s: Dirs) {
      Intact(s) && ((output in s[top].entries ==> output in before[top].entries) || Published(s))
    }

    /** What holds at every moment of a run even if the output name is one that a scratch directory may get. */
    ghost predicate Tame(s: Dirs) {
      Safe(s) || (Intact(s) && ScratchNamed(output))
    }

    /** The tables of a run so far: it starts with the old one, each system call makes one step, and the last is `s`. */
    ghost predicate History(trace: seq<Dirs>, s: Dirs) {
      && trace != [] && trace[0] == before && trace[|trace| - 1] == s
      && (forall i :: 0 <= i < |trace| ==> Tame(trace[i]))
      && (forall i :: 0 <= i < |trace| - 1 ==> Step(trace[i], trace[i + 1]))
    }

    /** The table is the old one plus one scratch directory with anything in it. */
    ghost predicate Staged(s: Dirs, next: int, name: string, ino: int) {
      && base <= ino && top in before && name !in before[top].entries
      && (forall e :: e in before ==> e in s && (e != top ==> s[e] == before[e]))
      && (forall e :: e in s && e < base ==> e in before)
      && top in s && s[top] == before[top].(entries := before[top].entries[name := Sub(ino)])
      && ino in s && s[ino].up == top && s[ino].name == name
      && Grown(s, top, base, next)
    }

    lemma StagedIsSafe(s: Dirs, next: int, name: string, ino: int)
      requires Valid() && Staged(s, next, name, ino) && name != output
      ensures Safe(s)
    {
      hide Grown, Published;
    }

    lemma StagedIsIntact(s: Dirs, next: int, name: string, ino: int)
      requires Valid() && Staged(s, next, name, ino)
      ensures Intact(s)
    {
      hide Grown;
    }

    lemma HistoryStarts()
      requires Valid()
      ensures History([before], before)
    {
      hide Safe;
      BeforeIsSafe();
    }

    lemma HistoryGrows(trace: seq<Dirs>, s: Dirs, t: Dirs)
      requires History(trace, s) && Tame(t) && Step(s, t)
      ensures History(trace + [t], t)
    {
      hide Tame, Step;
    }

    /** A step that leaves one scratch directory. */
    lemma HistoryKeeps(trace: seq<Dirs>, s: Dirs, t: Dirs, next: int, name: string, ino: int)
      requires Valid() && History(trace, s) && Step(s, t) && Staged(t, next, name, ino) && ScratchNamed(name)
      ensures History(trace + [t], t)
    {
      hide History, Step, Staged, Safe, Valid, Intact, ScratchNamed;
      StagedIsIntact(t, next, name, ino);
      if name != output {
        StagedIsSafe(t, next, name, ino);
      }
      HistoryGrows(trace, s, t);
    }

    /** An output directory that has just been created shows nothing finished. */
    lemma NewOutputIsUnsafe(ino: int)
      requires Valid() && output !in before[top].entries && base <= ino
      ensures !Safe(Made(before, top, output, ino))
    {
      var s := Made(before, top, output, ino);
      var created := s[ino];
      assert created.entries == map[];
      assert Published(s) ==> created == Directory(top, output, expected);
    }

    lemma BeforeIsSafe()
      requires Valid()
      ensures Safe(before)
    {
      hide Published;
    }

    lemma PublishedIsSafe(s: Dirs)
      requires Valid() && Published(s)
      ensures Safe(s)
    {
    }

    /** Creating the scratch directory. */
    lemma Starts(name: string, next: int)
      requires Valid() && base <= next && name !in before[top].entries
      ensures Staged(Made(before, top, name, next), next + 1, name, next)
    {
    }

    /** Creating a directory inside the scratch directory. */
    lemma MakeKeeps(s: Dirs, next: int, name: string, ino: int, d: int, n: string)
      requires Valid() && base <= next && Staged(s, next, name, ino) && d in s && base <= d && n !in s[d].entries
      ensures Staged(Made(s, d, n, next), next + 1, name, ino)
    {
      GrownMake(s, top, base, next, d, n);
    }

    /** Writing a file inside the scratch directory. */
    lemma PutKeeps(s: Dirs, next: int, name: string, ino: int, d: int, n: string, e: Entry)
      requires Valid() && Staged(s, next, name, ino) && d in s && base <= d && e.File?
      requires n in s[d].entries ==> s[d].entries[n].File?
      ensures Staged(Put(s, d, n, e), next, name, ino)
    {
      GrownPut(s, top, base, next, d, n, e);
    }

    /** Unlinking a file inside the scratch directory. */
    lemma DropKeeps(s: Dirs, next: int, name: string, ino: int, d: int, n: string)
      requires Valid() && Staged(s, next, name, ino) && d in s && base <= d
      requires n in s[d].entries && s[d].entries[n].File?
      ensures Staged(Drop(s, d, n), next, name, ino)
    {
      GrownDrop(s, top, base, next, d, n);
    }

    /** Removing an empty directory inside the scratch directory. */
    lemma RemoveKeeps(s: Dirs, next: int, name: string, ino: int, d: int, n: string)
      requires Valid() && Staged(s, next, name, ino) && d in s && base <= d
      requires n in s[d].entries && s[d].entries[n].Sub?
      requires s[d].entries[n].ino in s && s[s[d].entries[n].ino].entries == map[]
      ensures Staged(Removed(s, d, n, s[d].entries[n].ino), next, name, ino)
    {
      GrownRemove(s, top, base, next, d, n);
    }

    /** When the scratch directory has no subdirectory, it is the only directory the run has left. */
    lemma {:induction false} NothingElse(s: Dirs, next: int, name: string, ino: int, e: int)
      requires Valid() && Staged(s, next, name, ino) && e in s && base <= e
      requires forall n :: n in s[ino].entries ==> s[ino].entries[n].File?
      ensures e == ino
      decreases e - base
    {
      assert Hangs(s, top, base, e);
      var u := s[e].up;
      if u != top {
        NothingElse(s, next, name, ino, u);
      }
    }

    lemma OnlyScratch(s: Dirs, next: int, name: string, ino: int)
      requires Valid() && Staged(s, next, name, ino)
      requires forall n :: n in s[ino].entries ==> s[ino].entries[n].File?
      ensures s == Put(before, top, name, Sub(ino))[ino := Directory(top, name, s[ino].entries)]
    {
      forall e | e in s && base <= e ensures e == ino {
        NothingElse(s, next, name, ino, e);
      }
      hide Grown;
      var t := Put(before, top, name, Sub(ino))[ino := Directory(top, name, s[ino].entries)];
      forall e | e in s ensures e in t {
        assert e < base ==> e in before;
      }
      forall e | e in t ensures e in s {
        assert e in before || e == ino;
      }
      forall e | e in t ensures s[e] == t[e] {
        assert e in before || e == ino;
      }
    }

    /** Removing the empty scratch directory restores the table. */
    lemma Restores(s: Dirs, next: int, name: string, ino: int)
      requires Valid() && Staged(s, next, name, ino) && s[ino].entries == map[]
      ensures Removed(s, top, name, ino) == before
    {
      OnlyScratch(s, next, name, ino);
      hide Grown, Staged;
      assert before[top].entries[name := Sub(ino)] - {name} == before[top].entries;
    }

    /** Renaming a scratch directory that holds exactly the expected files publishes them. */
    lemma Publishes(s: Dirs, next: int, name: string, ino: int)
      requires Valid() && Staged(s, next, name, ino) && s[ino].entries == expected && output !in s[top].entries
      ensures Published(Renamed(s, top, name, output, ino))
    {
      OnlyScratch(s, next, name, ino);
      hide Grown, Staged;
      assert before[top].entries[name := Sub(ino)] - {name} == before[top].entries;
    }
  }

  lemma GrownMake(s: Dirs, top: int, base: int, next: int, d: int, n: string)
    requires Grown(s, top, base, next) && d in s && base <= d && n !in s[d].entries && top < base <= next
    ensures Grown(Made(s, d, n, next), top, base, next + 1)
  {
    var t := Made(s, d, n, next);
    forall p, m | p in t && base <= p && m in t[p].entries && t[p].entries[m].Sub?
      ensures Linked(t, p, m, t[p].entries[m].ino)
    {
      if p in s && m in s[p].entries {
        assert Linked(s, p, m, s[p].entries[m].ino);
      }
    }
    forall e | e in t && base <= e ensures e < next + 1 && Hangs(t, top, base, e) {
      if e != next {
        assert Hangs(s, top, base, e);
      }
    }
  }

  lemma GrownPut(s: Dirs, top: int, base: int, next: int, d: int, n: string, f: Entry)
    requires Grown(s, top, base, next) && d in s && base <= d && f.File?
    requires n in s[d].entries ==> s[d].entries[n].File?
    ensures Grown(Put(s, d, n, f), top, base, next)
  {
    var t := Put(s, d, n, f);
    forall p, m | p in t && base <= p && m in t[p].entries && t[p].entries[m].Sub?
      ensures Linked(t, p, m, t[p].entries[m].ino)
    {
      assert Linked(s, p, m, s[p].entries[m].ino);
    }
    forall e | e in t && base <= e ensures e < next && Hangs(t, top, base, e) {
      assert Hangs(s, top, base, e);
    }
  }

  lemma GrownDrop(s: Dirs, top: int, base: int, next: int, d: int, n: string)
    requires Grown(s, top, base, next) && d in s && base <= d && n in s[d].entries && s[d].entries[n].File?
    ensures Grown(Drop(s, d, n), top, base, next)
  {
    var t := Drop(s, d, n);
    forall p, m | p in t && base <= p && m in t[p].entries && t[p].entries[m].Sub?
      ensures Linked(t, p, m, t[p].entries[m].ino)
    {
      assert Linked(s, p, m, s[p].entries[m].ino);
    }
    forall e | e in t && base <= e ensures e < next && Hangs(t, top, base, e) {
      assert Hangs(s, top, base, e);
    }
  }

  lemma GrownRemove(s: Dirs, top: int, base: int, next: int, d: int, n: string)
    requires Grown(s, top, base, next) && d in s && base <= d && n in s[d].entries && s[d].entries[n].Sub?
    requires s[d].entries[n].ino in s && s[s[d].entries[n].ino].entries == map[]
    ensures Grown(Removed(s, d, n, s[d].entries[n].ino), top, base, next)
  {
    var c := s[d].entries[n].ino;
    assert Linked(s, d, n, c);
    var t := Removed(s, d, n, c);
    forall p, m | p in t && base <= p && m in t[p].entries && t[p].entries[m].Sub?
      ensures Linked(t, p, m, t[p].entries[m].ino)
    {
      assert Linked(s, p, m, s[p].entries[m].ino);
    }
    forall e | e in t && base <= e ensures e < next && Hangs(t, top, base, e) {
      StillHangs(s, top, base, d, n, e);
    }
  }

  lemma StillHangs(s: Dirs, top: int, base: int, d: int, n: string, e: int)
    requires d in s && n in s[d].entries && s[d].entries[n].Sub? && s[d].entries[n].ino in s
    requires Linked(s, d, n, s[d].entries[n].ino) && s[s[d].entries[n].ino].entries == map[]
    requires e in s && e != s[d].entries[n].ino && Hangs(s, top, base, e)
    ensures Hangs(Removed(s, d, n, s[d].entries[n].ino), top, base, e)
  {
  }
}
