/** `inspect_normalized_tar`: the image builder's checker of normalized archives, and its agreement
    with the producer. */
module TarInspect {
  import opened Links
  import opened Outcomes
  import opened Paths
  import opened PathOrder
  import opened RootfsTar

  // ----- canonical_path -----

  function StripDotSlash(s: string): string {
    if |s| >= 2 && s[0] == '.' && s[1] == '/' then StripDotSlash(s[2..]) else s
  }

  function RStripSlashes(s: string): string {
    if s != "" && s[|s| - 1] == '/' then RStripSlashes(s[..|s| - 1]) else s
  }

  function CanonicalPath(raw: string): Outcome<string> {
    if raw == "" || raw[0] == '/' || '\0' in raw || '\\' in raw then Denied
    else
      var value := RStripSlashes(StripDotSlash(raw));
      if value == "" || value == "." then Accepted(".")
      else if exists i :: 0 <= i < |Split(value)| && Split(value)[i] in {"", ".", ".."} then Denied
      else Accepted(Join(Split(value)))
  }

  lemma {:induction false} TrailingSlashSplit(s: string)
    requires s != "" && s[|s| - 1] == '/'
    ensures var cs := Split(s); cs[|cs| - 1] == ""
  {
    SplitSingle("");
    if |s| > 1 {
      TrailingSlashSplit(s[1..]);
    }
  }

  lemma LeadingSlashSplit(s: string)
    requires s != "" && s[0] == '/'
    ensures Split(s)[0] == ""
  {
  }

  /** `canonical_path` returns its argument unchanged exactly for clean member names. */
  lemma CanonicalIsIdentity(p: string)
    ensures CanonicalPath(p) == Accepted(p) <==> MemberName(p) && '\0' !in p && '\\' !in p
  {
    if p != "" && p[0] == '/' {
      LeadingSlashSplit(p);
    }
    hide Split, Join;
    SplitSingle(".");
    SplitSingle("");
    JoinSplit(p);
    SplitIsSlashFree(p);
    if p != "" && p[|p| - 1] == '/' {
      TrailingSlashSplit(p);
    }
    if |p| >= 2 && p[0] == '.' && p[1] == '/' {
      assert p == "." + "/" + p[2..];
      SplitCons(".", p[2..]);
    }
    if CanonicalPath(p) == Accepted(p) && p != "." {
      var value := RStripSlashes(StripDotSlash(p));
      JoinSplit(value);
      assert value == p;
    }
  }

  // ----- the checker -----

  const MAX_MEMBERS := 200_000
  const MAX_REGULAR_BYTES := 32 * 1024 * 1024 * 1024

  /** The variables of the member loop. */
  datatype Checker = Checker(count: nat, regularBytes: nat, previous: Option<string>, seen: set<string>,
                             regular: set<string>)

  const START := Checker(0, 0, None, {}, {})

  predicate KindIsNormal(c: Checker, m: TarMember) {
    var mode := m.mode % 4096;  // member.mode & 0o7777
    match m.kind
    case Directory => mode == 365 && m.size == 0
    case Regular => (mode == 292 || mode == 365) && c.regularBytes + m.size <= MAX_REGULAR_BYTES
    case SymLink => mode == 511 && m.size == 0 && ValidateLink(m.name, m.linkname)
    case HardLink =>
      && (mode == 292 || mode == 365) && m.size == 0
      && CanonicalPath(m.linkname) == Accepted(m.linkname) && m.linkname in c.regular
    case Other => false
  }

  function InspectMember(epoch: int, c: Checker, m: TarMember): Outcome<Checker> {
    if c.count + 1 > MAX_MEMBERS || CanonicalPath(m.name) != Accepted(m.name) then Denied
    else if c.previous.Some? && !Before(c.previous.value, m.name) then Denied
    else if m.name in c.seen || m.pax != map[] || m.uid != 0 || m.gid != 0 || m.uname != "" || m.gname != "" then Denied
    else if m.mtime != epoch || !KindIsNormal(c, m) then Denied
    else Accepted(Checker(c.count + 1, c.regularBytes + (if m.kind.Regular? then m.size else 0), Some(m.name),
                          c.seen + {m.name}, if m.kind.Regular? then c.regular + {m.name} else c.regular))
  }

  datatype Totals = Totals(members: nat, regularBytes: nat)

  function Inspect(epoch: int, c: Checker, ms: seq<TarMember>): Outcome<Totals>
    decreases ms
  {
    if ms == [] then if "." in c.seen then Accepted(Totals(c.count, c.regularBytes)) else Denied
    else
      var next :- InspectMember(epoch, c, ms[0]);
      Inspect(epoch, next, ms[1..])
  }

  /** `inspect_normalized_tar`, as its loop over the archive. */
  method InspectNormalizedTar(ms: seq<TarMember>, epoch: int) returns (r: Outcome<Totals>)
    ensures r == Inspect(epoch, START, ms)
    ensures r == if Normalized(epoch, ms) then Accepted(Totals(|ms|, RegularBytes(ms))) else Denied
  {
    InspectIff(epoch, ms);
    hide CanonicalPath, KindIsNormal, Normalized;
    var c := START;
    assert ms[0..] == ms;
    for i := 0 to |ms|
      invariant Inspect(epoch, START, ms) == Inspect(epoch, c, ms[i..])
    {
      var m := ms[i];
      assert ms[i..][0] == m && ms[i..][1..] == ms[i + 1..];
      var before := c;
      c := c.(count := c.count + 1);
      if c.count > MAX_MEMBERS {
        return Denied;
      }
      if CanonicalPath(m.name) != Accepted(m.name) {
        return Denied;
      }
      if c.previous.Some? && !Before(c.previous.value, m.name) {
        return Denied;
      }
      c := c.(previous := Some(m.name));
      if m.name in c.seen || m.pax != map[] || m.uid != 0 || m.gid != 0 {
        return Denied;
      }
      if m.uname != "" || m.gname != "" || m.mtime != epoch {
        return Denied;
      }
      if !KindIsNormal(before, m) {
        return Denied;
      }
      if m.kind.Regular? {
        c := c.(regularBytes := c.regularBytes + m.size, regular := c.regular + {m.name});
      }
      c := c.(seen := c.seen + {m.name});
    }
    return if "." in c.seen then Accepted(Totals(c.count, c.regularBytes)) else Denied;
  }

  // ----- what the checker accepts -----

  /** A relative link that resolves inside the root. */
  ghost predicate SafeLink(name: string, target: string) {
    && target != "" && target[0] != '/' && '\0' !in target && '\\' !in target
    && !Escapes(Resolve(name, target))
  }

  /** Mode, size and link of each member kind; a hard link names an earlier regular member. */
  ghost predicate NormalKind(ms: seq<TarMember>, i: nat)
    requires i < |ms|
  {
    var m := ms[i];
    match m.kind
    case Directory => m.mode % 4096 == 365 && m.size == 0
    case Regular => m.mode % 4096 == 292 || m.mode % 4096 == 365
    case SymLink => m.mode % 4096 == 511 && m.size == 0 && SafeLink(m.name, m.linkname)
    case HardLink =>
      && (m.mode % 4096 == 292 || m.mode % 4096 == 365) && m.size == 0
      && exists j :: 0 <= j < i && ms[j].kind.Regular? && ms[j].name == m.linkname
    case Other => false
  }

  /** The member at `i`: a clean name, owner 0:0 without names, no pax headers, the archive's timestamp. */
  ghost predicate NormalAt(epoch: int, ms: seq<TarMember>, i: nat)
    requires i < |ms|
  {
    var m := ms[i];
    && MemberName(m.name) && '\0' !in m.name && '\\' !in m.name
    && m.uid == 0 && m.gid == 0 && m.uname == "" && m.gname == "" && m.pax == map[] && m.mtime == epoch
    && NormalKind(ms, i)
  }

  /** The first `k` members are normal, in archive order, and within both ceilings. */
  ghost predicate NormalUpTo(epoch: int, ms: seq<TarMember>, k: nat)
    requires k <= |ms|
  {
    && (forall i :: 0 <= i < k ==> NormalAt(epoch, ms, i))
    && (forall i, j :: 0 <= i < j < k ==> Precedes(ms[i].name, ms[j].name))
    && k <= 200_000 && RegularBytes(ms[..k]) <= 34_359_738_368
  }

  /** A normalized archive of the epoch, with a root. */
  ghost predicate Normalized(epoch: int, ms: seq<TarMember>) {
    NormalUpTo(epoch, ms, |ms|) && exists i :: 0 <= i < |ms| && ms[i].name == "."
  }

  /** The checker's variables after `k` members. */
  ghost predicate AfterMembers(c: Checker, ms: seq<TarMember>, k: nat)
    requires k <= |ms|
  {
    && c.count == k && c.regularBytes == RegularBytes(ms[..k])
    && c.previous == (if k == 0 then None else Some(ms[k - 1].name))
    && (forall n :: n in c.seen <==> exists i :: 0 <= i < k && ms[i].name == n)
    && (forall n :: n in c.regular <==> exists i :: 0 <= i < k && ms[i].kind.Regular? && ms[i].name == n)
  }

  lemma RegularBytesNext(ms: seq<TarMember>, k: nat)
    requires k < |ms|
    ensures RegularBytes(ms[..k + 1]) == RegularBytes(ms[..k]) + (if ms[k].kind.Regular? then ms[k].size else 0)
  {
    assert ms[..k + 1] == ms[..k] + [ms[k]];
    RegularBytesAppend(ms[..k], [ms[k]]);
    assert [ms[k]][1..] == [];
  }

  /** The kind test in declarative terms. */
  lemma KindIff(epoch: int, c: Checker, ms: seq<TarMember>, k: nat)
    requires k < |ms| && AfterMembers(c, ms, k) && MemberName(ms[k].name)
    requires forall i :: 0 <= i < k ==> CanonicalPath(ms[i].name) == Accepted(ms[i].name)
    ensures KindIsNormal(c, ms[k]) <==>
      NormalKind(ms, k) && (ms[k].kind.Regular? ==> RegularBytes(ms[..k + 1]) <= 34_359_738_368)
  {
    hide CanonicalPath, ValidateLink, Resolve, Escapes, RegularBytes, MemberName;
    RegularBytesNext(ms, k);
    MemberNameDepth(ms[k].name);
    ValidateLinkIff(ms[k].name, ms[k].linkname);
  }

  /** One member more: the checker goes on exactly when the longer prefix is normal. */
  lemma InspectMemberIff(epoch: int, c: Checker, ms: seq<TarMember>, k: nat)
    requires k < |ms| && AfterMembers(c, ms, k) && NormalUpTo(epoch, ms, k)
    ensures InspectMember(epoch, c, ms[k]).Accepted? <==> NormalUpTo(epoch, ms, k + 1)
    ensures InspectMember(epoch, c, ms[k]).Accepted? ==> AfterMembers(InspectMember(epoch, c, ms[k]).value, ms, k + 1)
  {
    hide CanonicalPath, KindIsNormal, NormalKind, MemberName, Before, Precedes, RegularBytes;
    forall i | 0 <= i <= k ensures CanonicalPath(ms[i].name) == Accepted(ms[i].name) <==>
      MemberName(ms[i].name) && '\0' !in ms[i].name && '\\' !in ms[i].name
    {
      CanonicalIsIdentity(ms[i].name);
    }
    forall i | 0 <= i < k ensures CanonicalPath(ms[i].name) == Accepted(ms[i].name) {
      assert NormalAt(epoch, ms, i);
    }
    RegularBytesNext(ms, k);
    NormalNext(epoch, ms, k);
    if MemberName(ms[k].name) {
      KindIff(epoch, c, ms, k);
    }
    OrderGoesOn(ms, k);
  }

  lemma NormalNext(epoch: int, ms: seq<TarMember>, k: nat)
    requires k < |ms| && NormalUpTo(epoch, ms, k)
    ensures NormalUpTo(epoch, ms, k + 1) <==>
      && NormalAt(epoch, ms, k) && (forall i :: 0 <= i < k ==> Precedes(ms[i].name, ms[k].name))
      && k + 1 <= 200_000 && RegularBytes(ms[..k + 1]) <= 34_359_738_368
  {
    hide NormalAt, Precedes, RegularBytes;
  }

  /** In an ordered prefix, following the last name is following every name, and is being new. */
  lemma OrderGoesOn(ms: seq<TarMember>, k: nat)
    requires k < |ms| && forall i, j :: 0 <= i < j < k ==> Precedes(ms[i].name, ms[j].name)
    ensures k > 0 ==>
      (Before(ms[k - 1].name, ms[k].name) <==> forall i :: 0 <= i < k ==> Precedes(ms[i].name, ms[k].name))
    ensures forall i :: 0 <= i < k && Precedes(ms[i].name, ms[k].name) ==> ms[i].name != ms[k].name
  {
    hide Before, Precedes;
    forall i | 0 <= i < k
      ensures Before(ms[i].name, ms[k].name) <==> Precedes(ms[i].name, ms[k].name)
      ensures Precedes(ms[i].name, ms[k].name) ==> ms[i].name != ms[k].name
      ensures i < k - 1 && Before(ms[k - 1].name, ms[k].name) ==> Before(ms[i].name, ms[k].name)
    {
      BeforeIff(ms[i].name, ms[k].name);
      BeforeIrreflexive(ms[k].name);
      if i < k - 1 && Before(ms[k - 1].name, ms[k].name) {
        BeforeIff(ms[i].name, ms[k - 1].name);
        BeforeTransitive(ms[i].name, ms[k - 1].name, ms[k].name);
      }
    }
  }

  lemma {:induction false} NormalPrefix(epoch: int, ms: seq<TarMember>, k: nat)
    requires k <= |ms| && NormalUpTo(epoch, ms, |ms|)
    ensures NormalUpTo(epoch, ms, k)
    decreases |ms| - k
  {
    hide NormalAt, Precedes, RegularBytes;
    if k < |ms| {
      NormalPrefix(epoch, ms, k + 1);
      RegularBytesNext(ms, k);
    }
  }

  lemma {:induction false} InspectFrom(epoch: int, c: Checker, ms: seq<TarMember>, k: nat)
    requires k <= |ms| && AfterMembers(c, ms, k) && NormalUpTo(epoch, ms, k)
    ensures Inspect(epoch, c, ms[k..]) ==
      if Normalized(epoch, ms) then Accepted(Totals(|ms|, RegularBytes(ms))) else Denied
    decreases |ms| - k
  {
    hide InspectMember, NormalUpTo, RegularBytes;
    if k == |ms| {
      assert ms[..k] == ms && ms[k..] == [];
    } else {
      assert ms[k..][0] == ms[k] && ms[k..][1..] == ms[k + 1..];
      InspectMemberIff(epoch, c, ms, k);
      if NormalUpTo(epoch, ms, k + 1) {
        InspectFrom(epoch, InspectMember(epoch, c, ms[k]).value, ms, k + 1);
      } else if NormalUpTo(epoch, ms, |ms|) {
        NormalPrefix(epoch, ms, k + 1);
      }
    }
  }

  /** The checker accepts exactly the normalized archives, and reports their member count and regular bytes. */
  lemma InspectIff(epoch: int, ms: seq<TarMember>)
    ensures Inspect(epoch, START, ms) ==
      if Normalized(epoch, ms) then Accepted(Totals(|ms|, RegularBytes(ms))) else Denied
  {
    assert ms[0..] == ms && ms[..0] == [];
    InspectFrom(epoch, START, ms, 0);
  }

  // ----- producer and checker agree -----

  predicate BackslashFree(paths: seq<string>) {
    forall i :: 0 <= i < |paths| ==> '\\' !in paths[i]
  }

  /** The checker's variables fit the producer's position: everything archived so far comes before the
      remaining paths, and hard links point at checked regular members. */
  ghost predicate InStep(c: Checker, paths: seq<string>, links: map<Identity, string>) {
    && (forall n, i :: n in c.seen && 0 <= i < |paths| ==> Before(n, paths[i]))
    && (c.previous.Some? ==> c.previous.value in c.seen)
    && (forall id :: id in links ==> links[id] in c.regular && CanonicalPath(links[id]) == Accepted(links[id]))
    && ("." in c.seen || "." in paths)
  }

  /** What the checker says about one produced member. */
  lemma MemberIsAccepted(job: Job, c: Checker, p: string, links: map<Identity, string>)
    requires WellFormed(job.fs) && Descending(job.cwd) && Listed(job, p)
    requires MemberFor(job, p, links).Accepted? && c.regularBytes <= MAX_REGULAR_BYTES
    requires forall n :: n in c.seen ==> Before(n, p)
    requires c.previous.Some? ==> c.previous.value in c.seen
    requires forall id :: id in links ==> links[id] in c.regular && CanonicalPath(links[id]) == Accepted(links[id])
    ensures var m := MemberFor(job, p, links).value;
            var size := if m.kind.Regular? then m.size else 0;
      && m.name == p
      && InspectMember(job.epoch, c, m) ==
         if c.count + 1 <= MAX_MEMBERS && c.regularBytes + size <= MAX_REGULAR_BYTES && '\\' !in p
         then Accepted(Checker(c.count + 1, c.regularBytes + size, Some(p), c.seen + {p},
                               if m.kind.Regular? then c.regular + {p} else c.regular))
         else Denied
  {
    hide MemberFor, InspectMember, WellFormed, Before, CanonicalPath, KindIsNormal, MemberName, Descending, Listed;
    MemberIsNormal(job, c, p, links);
    CanonicalIsIdentity(p);
    ListedIsEntry(job, p);
    MemberNameOf(job, p);
    InspectNormal(job.epoch, c, MemberFor(job, p, links).value);
  }

  lemma ListedIsEntry(job: Job, p: string)
    requires Listed(job, p)
    ensures p in job.fs.entries
  {
  }

  /** What the checker says about a member with normal header fields that follows everything seen. */
  lemma InspectNormal(epoch: int, c: Checker, m: TarMember)
    requires m.pax == map[] && m.uid == 0 && m.gid == 0 && m.uname == "" && m.gname == "" && m.mtime == epoch
    requires forall n :: n in c.seen ==> Before(n, m.name)
    requires c.previous.Some? ==> c.previous.value in c.seen
    ensures InspectMember(epoch, c, m) ==
      if c.count + 1 <= MAX_MEMBERS && CanonicalPath(m.name) == Accepted(m.name) && KindIsNormal(c, m)
      then Accepted(Checker(c.count + 1, c.regularBytes + (if m.kind.Regular? then m.size else 0), Some(m.name),
                            c.seen + {m.name}, if m.kind.Regular? then c.regular + {m.name} else c.regular))
      else Denied
  {
    hide Before, CanonicalPath, KindIsNormal;
    BeforeIrreflexive(m.name);
  }

  /** A produced member has the producer's header fields, and its kind fits them unless a regular file is too large. */
  lemma MemberIsNormal(job: Job, c: Checker, p: string, links: map<Identity, string>)
    requires WellFormed(job.fs) && Descending(job.cwd) && Listed(job, p)
    requires MemberFor(job, p, links).Accepted?
    requires forall id :: id in links ==> links[id] in c.regular && CanonicalPath(links[id]) == Accepted(links[id])
    ensures var m := MemberFor(job, p, links).value;
      && m.name == p && m.pax == map[] && m.uid == 0 && m.gid == 0 && m.uname == "" && m.gname == ""
      && m.mtime == job.epoch
      && (KindIsNormal(c, m) <==> (m.kind.Regular? ==> c.regularBytes + m.size <= MAX_REGULAR_BYTES))
  {
    hide NormalizedLink, ForbiddenPath, ValidateLink, ParentName, CanonicalPath, NormalMode, AnyExecute, WellFormed;
    hide Descending, MemberName;
    var entry := job.fs.entries[p];
    if entry.File? {
      NormalModeMeans(job.fs.inodes[entry.id].mode);
    }
    if entry.Symlink? {
      MemberNameOf(job, p);
      MemberNameDepth(p);
      NormalizedLinkIsValid(job.cwd, p, entry.target);
    }
  }

  lemma MemberNameOf(job: Job, p: string)
    requires WellFormed(job.fs) && p in job.fs.entries
    ensures MemberName(p) && '\0' !in p
  {
  }

  lemma {:induction false} CheckerFollows(job: Job, c: Checker, paths: seq<string>, links: map<Identity, string>)
    requires WellFormed(job.fs) && Descending(job.cwd) && AllListed(job, paths) && Ordered(paths)
    requires Members(job, paths, links).Accepted? && InStep(c, paths, links)
    requires c.count <= MAX_MEMBERS && c.regularBytes <= MAX_REGULAR_BYTES
    ensures var ms := Members(job, paths, links).value;
      Inspect(job.epoch, c, ms) ==
        if c.count + |ms| <= MAX_MEMBERS && c.regularBytes + RegularBytes(ms) <= MAX_REGULAR_BYTES &&
           BackslashFree(paths)
        then Accepted(Totals(c.count + |ms|, c.regularBytes + RegularBytes(ms))) else Denied
    decreases paths
  {
    hide MemberFor, CanonicalPath, Before, InspectMember, WellFormed;
    if paths != [] {
      var p, tail := paths[0], paths[1..];
      assert Listed(job, p);
      var m := MemberFor(job, p, links).value;
      var links' := LinksAfter(job, p, links);
      var rest := Members(job, tail, links').value;
      assert Members(job, paths, links).value == [m] + rest;
      assert ([m] + rest)[1..] == rest;
      assert BackslashFree(paths) <==> '\\' !in p && BackslashFree(tail) by {
        assert forall i :: 0 < i < |paths| ==> paths[i] == tail[i - 1];
        if BackslashFree(paths) {
          forall i | 0 <= i < |tail| ensures '\\' !in tail[i] { assert tail[i] == paths[i + 1]; }
        }
      }
      MemberIsAccepted(job, c, p, links);
      var r := InspectMember(job.epoch, c, m);
      if r.Accepted? {
        MemberKinds(job, p, links);
        CanonicalIsIdentity(p);
        MemberNameOf(job, p);
        StepKept(c, r.value, paths, links, links', p);
        CheckerFollows(job, r.value, tail, links');
      }
    }
  }

  lemma MemberKinds(job: Job, p: string, links: map<Identity, string>)
    requires Listed(job, p) && MemberFor(job, p, links).Accepted?
    ensures LinksAfter(job, p, links) ==
      if MemberFor(job, p, links).value.kind.Regular? then links[job.fs.entries[p].id := p] else links
    ensures MemberFor(job, p, links).value.kind.Regular? ==> job.fs.entries[p].File?
  {
    hide NormalizedLink, ForbiddenPath, NormalMode;
  }

  lemma StepKept(c: Checker, next: Checker, paths: seq<string>, links: map<Identity, string>,
                 links': map<Identity, string>, p: string)
    requires Ordered(paths) && paths != [] && paths[0] == p && InStep(c, paths, links)
    requires next.seen == c.seen + {p} && next.previous == Some(p) && c.regular <= next.regular
    requires CanonicalPath(p) == Accepted(p)
    requires forall id :: id in links' ==>
      (id in links && links'[id] == links[id]) || (links'[id] == p && p in next.regular)
    ensures InStep(next, paths[1..], links')
  {
    hide CanonicalPath, Before;
    assert paths == [p] + paths[1..];
  }

  /** Agreement: on every archive the producer emits, the checker at the same epoch accepts exactly when the member
      and byte ceilings hold and no name contains a backslash, and then reports the producer's totals. */
  lemma ProducerCheckerAgree(job: Job, listing: seq<string>)
    requires WellFormed(job.fs) && Descending(job.cwd) && job.fs.entries.Keys == (set p | p in listing)
    requires AllListed(job, Sorted(listing))
    requires Members(job, Sorted(listing), map[]).Accepted?
    ensures var ms := Members(job, Sorted(listing), map[]).value;
      Inspect(job.epoch, START, ms) ==
        if |ms| <= MAX_MEMBERS && RegularBytes(ms) <= MAX_REGULAR_BYTES && BackslashFree(Sorted(listing))
        then Accepted(Totals(|ms|, RegularBytes(ms))) else Denied
  {
    hide Members, Inspect, Sorted;
    SortedIsOrdered(listing);
    assert "." in job.fs.entries.Keys;
    CheckerFollows(job, START, Sorted(listing), map[]);
  }

  // ----- a tree on which they disagree -----

  /** A root directory with one empty file of this name. */
  function OneFile(name: string): Rootfs {
    Rootfs(map["." := Dir, name := File(Identity(1, 2))], map[Identity(1, 2) := Inode(420, [])])
  }

  lemma BackslashIsArchivable(job: Job, name: string)
    requires name == "\\" && job.fs == OneFile(name)
    ensures WellFormed(job.fs) && Listed(job, name) && Archivable(job, name) && Listed(job, ".") && Archivable(job, ".")
  {
    SplitSingle(name);
    assert "." != name;
    ShortNameIsAllowed(name);
    hide ForbiddenPath;
  }

  lemma ShortNameIsAllowed(name: string)
    requires |name| == 1
    ensures !ForbiddenPath(name)
  {
  }

  /** One such input: the producer archives a file whose name is a backslash, and the checker refuses the archive. */
  lemma BackslashExample(job: Job, name: string)
    requires name == "\\" && job.fs == OneFile(name) && Descending(job.cwd)
    ensures AllListed(job, Sorted([".", name])) && Members(job, Sorted([".", name]), map[]).Accepted?
    ensures Inspect(job.epoch, START, Members(job, Sorted([".", name]), map[]).value) == Denied
  {
    var listing := [".", name];
    SortedIsOrdered(listing);
    BackslashIsArchivable(job, name);
    hide Sorted, Archivable, Listed, WellFormed, Members, Inspect, Ordered, Descending;
    forall i | 0 <= i < |Sorted(listing)| ensures Sorted(listing)[i] == "." || Sorted(listing)[i] == name {
      assert Sorted(listing)[i] in listing;
    }
    BuildSucceeds(job, Sorted(listing), map[]);
    assert job.fs.entries.Keys == (set p | p in listing);
    ProducerCheckerAgree(job, listing);
    assert name in Sorted(listing);
  }
}
