/** `build_normalized_tar`: a root filesystem printed as a list of normalized tar members. */
module RootfsTar {
  import opened Bits
  import opened Links
  import opened Outcomes
  import opened Paths
  import opened PathOrder
  import opened TarHeaders

  // ----- the tree -----

  /** Device and inode number, which tell hard links apart from copies. */
  datatype Identity = Identity(dev: nat, ino: nat)

  datatype Inode = Inode(mode: nat, content: seq<byte>)

  datatype Entry = Dir | File(id: Identity) | Symlink(target: string) | Special

  /** Every path of the tree, as `canonical_relative` prints it, and the inodes its files share. */
  datatype Rootfs = Rootfs(entries: map<string, Entry>, inodes: map<Identity, Inode>)

  /** What a mounted tree always satisfies: a root, proper names, parents that are directories, live inodes. */
  ghost predicate WellFormed(fs: Rootfs) {
    && "." in fs.entries && fs.entries["."].Dir?
    && (forall p :: p in fs.entries && p != "." ==>
          Descending(Split(p)) && '\0' !in p && ParentName(p) in fs.entries && fs.entries[ParentName(p)].Dir?)
    && (forall p :: p in fs.entries && fs.entries[p].File? ==> fs.entries[p].id in fs.inodes)
  }

  // ----- members -----

  datatype Kind = Directory | Regular | HardLink | SymLink | Other

  datatype TarMember = TarMember(name: string, kind: Kind, mode: nat, size: nat, linkname: string, content: seq<byte>,
                                 mtime: int, uid: nat, gid: nat, uname: string, gname: string, pax: map<string, string>)

  const FORBIDDEN_PATH_PREFIXES := [
    "home/", "root/", "usr/share/X11/", "usr/share/applications/", "usr/share/gnome", "usr/share/wayland-sessions/" ]

  predicate ForbiddenPath(p: string) {
    p != "." && exists i :: 0 <= i < |FORBIDDEN_PATH_PREFIXES| && FORBIDDEN_PATH_PREFIXES[i] <= p
  }

  /** What is forbidden: home directories and the shares of a graphical session. */
  lemma ForbiddenIff(p: string)
    ensures ForbiddenPath(p) <==>
      p != "." &&
      ("home/" <= p || "root/" <= p || "usr/share/X11/" <= p || "usr/share/applications/" <= p ||
       "usr/share/gnome" <= p || "usr/share/wayland-sessions/" <= p)
  {
    var all := FORBIDDEN_PATH_PREFIXES;
    assert all[0] == "home/" && all[1] == "root/" && all[2] == "usr/share/X11/" && all[3] == "usr/share/applications/";
    assert all[4] == "usr/share/gnome" && all[5] == "usr/share/wayland-sessions/";
  }

  /** `0o555 if st_mode & 0o111 else 0o444`. */
  function NormalMode(mode: nat): nat {
    if BitAnd(mode, 73) != 0 then 365 else 292
  }

  /** The owner, the group or others may execute: bit 6, 3 or 0 is set. */
  predicate AnyExecute(mode: nat) {
    mode % 2 == 1 || mode / 8 % 2 == 1 || mode / 64 % 2 == 1
  }

  /** A file becomes 0555 exactly when somebody may execute it, and 0444 otherwise. */
  lemma NormalModeMeans(mode: nat)
    ensures NormalMode(mode) == if AnyExecute(mode) then 365 else 292
  {
    hide BitAnd;
    BitAndStep(mode, 73);
    BitAndStep(mode / 2, 36);
    BitAndStep(mode / 4, 18);
    BitAndStep(mode / 8, 9);
    BitAndStep(mode / 16, 4);
    BitAndStep(mode / 32, 2);
    BitAndStep(mode / 64, 1);
    BitAndZero(mode / 128);
    assert mode / 2 / 2 == mode / 4 && mode / 4 / 2 == mode / 8 && mode / 8 / 2 == mode / 16;
    assert mode / 16 / 2 == mode / 32 && mode / 32 / 2 == mode / 64 && mode / 64 / 2 == mode / 128;
  }

  /** One run of the producer: the tree, the process's working directory, and the archive timestamp. */
  datatype Job = Job(fs: Rootfs, cwd: seq<string>, epoch: int)

  function Header(job: Job, name: string, kind: Kind, mode: nat, size: nat, linkname: string, content: seq<byte>)
    : TarMember
  {
    TarMember(name, kind, mode, size, linkname, content, job.epoch, 0, 0, "", "", map[])
  }

  predicate Listed(job: Job, p: string) {
    p in job.fs.entries && (job.fs.entries[p].File? ==> job.fs.entries[p].id in job.fs.inodes)
  }

  /** The member for one path, given the first path already archived for each inode. */
  function MemberFor(job: Job, p: string, links: map<Identity, string>): Outcome<TarMember>
    requires Listed(job, p)
  {
    if ForbiddenPath(p) then Denied
    else
      match job.fs.entries[p]
      case Dir => Accepted(Header(job, p, Directory, 365, 0, "", []))
      case File(id) =>
        var inode := job.fs.inodes[id];
        if id in links then Accepted(Header(job, p, HardLink, NormalMode(inode.mode), 0, links[id], []))
        else Accepted(Header(job, p, Regular, NormalMode(inode.mode), |inode.content|, "", inode.content))
      case Symlink(target) =>
        var link :- NormalizedLink(job.cwd, p, target);
        Accepted(Header(job, p, SymLink, 511, 0, link, []))
      case Special => Denied
  }

  /** `hardlink_targets` after one path. */
  function LinksAfter(job: Job, p: string, links: map<Identity, string>): map<Identity, string>
    requires Listed(job, p)
  {
    var entry := job.fs.entries[p];
    if entry.File? && entry.id !in links then links[entry.id := p] else links
  }

  ghost predicate AllListed(job: Job, paths: seq<string>) {
    forall i :: 0 <= i < |paths| ==> Listed(job, paths[i])
  }

  function Members(job: Job, paths: seq<string>, links: map<Identity, string>): Outcome<seq<TarMember>>
    requires AllListed(job, paths)
    decreases paths
  {
    if paths == [] then Accepted([])
    else
      var first :- MemberFor(job, paths[0], links);
      var rest :- Members(job, paths[1..], LinksAfter(job, paths[0], links));
      Accepted([first] + rest)
  }

  function RegularBytes(ms: seq<TarMember>): nat {
    if ms == [] then 0 else (if ms[0].kind.Regular? then ms[0].size else 0) + RegularBytes(ms[1..])
  }

  datatype Archive = Archive(members: seq<TarMember>, count: nat, regularBytes: nat)

  lemma {:induction false} RegularBytesAppend(a: seq<TarMember>, b: seq<TarMember>)
    ensures RegularBytes(a + b) == RegularBytes(a) + RegularBytes(b)
  {
    if a == [] {
      assert a + b == b;
    } else {
      assert (a + b)[1..] == a[1..] + b;
      RegularBytesAppend(a[1..], b);
    }
  }

  /** `build_normalized_tar` over one enumeration of the tree. */
  method BuildNormalizedTar(job: Job, listing: seq<string>) returns (r: Outcome<Archive>)
    requires AllListed(job, Sorted(listing))
    ensures var ms := Members(job, Sorted(listing), map[]);
      r == if ms.Accepted? then Accepted(Archive(ms.value, |ms.value|, RegularBytes(ms.value))) else Denied
    ensures r.Accepted? ==>
      && |r.value.members| == |Sorted(listing)|
      && forall i :: 0 <= i < |r.value.members| ==> Describes(job, Sorted(listing), i, r.value.members[i])
  {
    hide MemberFor, Describes;
    var paths := Sorted(listing);
    var members, count: nat, regularBytes, links := [], 0, 0, map[];
    ghost var whole := Members(job, paths, map[]);
    assert paths[0..] == paths;
    for i := 0 to |paths|
      invariant AllListed(job, paths[i..])
      invariant count == |members| && regularBytes == RegularBytes(members)
      invariant Prepend([], whole) == Prepend(members, Members(job, paths[i..], links))
    {
      var p := paths[i];
      assert Listed(job, paths[i..][0]);
      assert paths[i..][1..] == paths[i + 1..];
      var member := MemberFor(job, p, links);
      if member.Denied? {
        return Denied;
      }
      ghost var rest := Members(job, paths[i + 1..], LinksAfter(job, p, links));
      if rest.Accepted? {
        assert members + ([member.value] + rest.value) == members + [member.value] + rest.value;
      }
      RegularBytesAppend(members, [member.value]);
      assert [member.value][1..] == [];
      links := LinksAfter(job, p, links);
      members := members + [member.value];
      count := count + 1;
      if member.value.kind.Regular? {
        regularBytes := regularBytes + member.value.size;
      }
    }
    assert paths[|paths|..] == [] && members + [] == members;
    if whole.Accepted? {
      assert [] + whole.value == whole.value;
      ArchiveDescribesTree(job, listing);
    }
    return Accepted(Archive(members, count, regularBytes));
  }

  /** The archive does not depend on the order in which the operating system lists the tree. */
  lemma ArchiveIgnoresListingOrder(job: Job, a: seq<string>, b: seq<string>)
    requires forall p :: p in a <==> p in b
    requires AllListed(job, Sorted(a))
    ensures Sorted(a) == Sorted(b) && Members(job, Sorted(a), map[]) == Members(job, Sorted(b), map[])
  {
    SortedIsOrdered(a);
    SortedIsOrdered(b);
    OrderedIsUnique(Sorted(a), Sorted(b));
  }

  /** A path the producer can archive. */
  predicate Archivable(job: Job, p: string)
    requires Listed(job, p)
  {
    && !ForbiddenPath(p)
    && match job.fs.entries[p]
       case Symlink(target) => NormalizedLink(job.cwd, p, target).Accepted?
       case Special => false
       case _ => true
  }

  lemma MemberForIff(job: Job, p: string, links: map<Identity, string>)
    requires Listed(job, p)
    ensures MemberFor(job, p, links).Accepted? <==> Archivable(job, p)
    ensures MemberFor(job, p, links).Accepted? ==> MemberFor(job, p, links).value.name == p
  {
    hide ForbiddenPath, NormalizedLink, NormalMode;
  }

  /** The producer succeeds exactly when every path is archivable; then the members carry the paths, in order. */
  lemma {:induction false} BuildSucceeds(job: Job, paths: seq<string>, links: map<Identity, string>)
    requires AllListed(job, paths)
    ensures Members(job, paths, links).Accepted? <==> forall i :: 0 <= i < |paths| ==> Archivable(job, paths[i])
    ensures Members(job, paths, links).Accepted? ==>
      var ms := Members(job, paths, links).value;
      |ms| == |paths| && forall i :: 0 <= i < |ms| ==> ms[i].name == paths[i]
    decreases paths
  {
    hide MemberFor, Archivable;
    if paths != [] {
      assert Listed(job, paths[0]);
      MemberForIff(job, paths[0], links);
      BuildSucceeds(job, paths[1..], LinksAfter(job, paths[0], links));
      var rest := Members(job, paths[1..], LinksAfter(job, paths[0], links));
      assert forall i :: 0 < i < |paths| ==> paths[i] == paths[1..][i - 1];
      if rest.Accepted? {
        assert forall i :: 0 <= i < |paths[1..]| ==> Archivable(job, paths[1..][i]);
      } else {
        var i :| 0 <= i < |paths[1..]| && !Archivable(job, paths[1..][i]);
        assert !Archivable(job, paths[i + 1]);
      }
    }
  }

  // ----- every field of every member -----

  ghost predicate IsFileAt(job: Job, paths: seq<string>, j: int, id: Identity) {
    0 <= j < |paths| && paths[j] in job.fs.entries && job.fs.entries[paths[j]] == File(id)
  }

  /** `j` is the first position at which the inode is archived. */
  ghost predicate FirstAt(job: Job, paths: seq<string>, j: int, id: Identity) {
    IsFileAt(job, paths, j, id) && forall k :: 0 <= k < j ==> !IsFileAt(job, paths, k, id)
  }

  /** The member of position `i`: ownership, timestamp and mode are normalized; the first path of an inode
      carries its size and bytes, every later one is a hard link to that first path. */
  ghost predicate Describes(job: Job, paths: seq<string>, i: nat, m: TarMember)
    requires AllListed(job, paths) && i < |paths|
  {
    && m.name == paths[i] && m.mtime == job.epoch
    && m.uid == 0 && m.gid == 0 && m.uname == "" && m.gname == "" && m.pax == map[]
    && match job.fs.entries[paths[i]]
       case Dir => m.kind == Directory && m.mode == 365 && m.size == 0 && m.linkname == "" && m.content == []
       case Symlink(target) =>
         && m.kind == SymLink && m.mode == 511 && m.size == 0 && m.content == []
         && NormalizedLink(job.cwd, paths[i], target) == Accepted(m.linkname)
       case File(id) =>
         && m.mode == (if AnyExecute(job.fs.inodes[id].mode) then 365 else 292)
         && (if FirstAt(job, paths, i, id) then
               && m.kind == Regular && m.linkname == ""
               && m.content == job.fs.inodes[id].content && m.size == |m.content|
             else
               && m.kind == HardLink && m.size == 0 && m.content == []
               && exists j :: j < i && FirstAt(job, paths, j, id) && m.linkname == paths[j])
       case Special => false
  }

  /** `links` maps each inode archived before position `k` to its first path. */
  ghost predicate FirstPaths(job: Job, paths: seq<string>, k: nat, links: map<Identity, string>) {
    && (forall id :: id in links ==> exists j :: j < k && FirstAt(job, paths, j, id) && links[id] == paths[j])
    && (forall j, id :: j < k && IsFileAt(job, paths, j, id) ==> id in links)
  }

  lemma MemberIsDescribed(job: Job, paths: seq<string>, i: nat, links: map<Identity, string>)
    requires AllListed(job, paths) && i < |paths| && FirstPaths(job, paths, i, links)
    requires MemberFor(job, paths[i], links).Accepted?
    ensures Describes(job, paths, i, MemberFor(job, paths[i], links).value)
    ensures FirstPaths(job, paths, i + 1, LinksAfter(job, paths[i], links))
  {
    hide NormalizedLink, ForbiddenPath, NormalMode, AnyExecute;
    assert Listed(job, paths[i]);
    var entry := job.fs.entries[paths[i]];
    if entry.File? {
      NormalModeMeans(job.fs.inodes[entry.id].mode);
      assert IsFileAt(job, paths, i, entry.id);
      assert entry.id !in links ==> FirstAt(job, paths, i, entry.id);
    }
  }

  /** Whatever the producer emits, each member says what its source entry is. */
  lemma {:induction false} MembersAreDescribed(job: Job, paths: seq<string>, k: nat, links: map<Identity, string>)
    requires AllListed(job, paths) && k <= |paths| && FirstPaths(job, paths, k, links)
    requires Members(job, paths[k..], links).Accepted?
    ensures var ms := Members(job, paths[k..], links).value;
      |ms| == |paths| - k && forall i :: 0 <= i < |ms| ==> Describes(job, paths, k + i, ms[i])
    decreases |paths| - k
  {
    hide MemberFor, Describes, FirstPaths, LinksAfter;
    var rest := paths[k..];
    if rest != [] {
      assert Listed(job, paths[k]) && rest[0] == paths[k] && rest[1..] == paths[k + 1..];
      MemberIsDescribed(job, paths, k, links);
      var links' := LinksAfter(job, paths[k], links);
      MembersAreDescribed(job, paths, k + 1, links');
      var ms, tail := Members(job, rest, links).value, Members(job, paths[k + 1..], links').value;
      assert ms == [MemberFor(job, paths[k], links).value] + tail;
      forall i | 0 <= i < |ms| ensures Describes(job, paths, k + i, ms[i]) {
        assert i > 0 ==> ms[i] == tail[i - 1];
      }
    }
  }

  /** The archive in terms of the tree, whole. */
  lemma ArchiveDescribesTree(job: Job, listing: seq<string>)
    requires AllListed(job, Sorted(listing)) && Members(job, Sorted(listing), map[]).Accepted?
    ensures var ms, paths := Members(job, Sorted(listing), map[]).value, Sorted(listing);
      |ms| == |paths| && forall i :: 0 <= i < |ms| ==> Describes(job, paths, i, ms[i])
  {
    hide Describes, Sorted, Members;
    var paths := Sorted(listing);
    assert paths[0..] == paths;
    MembersAreDescribed(job, paths, 0, map[]);
    forall i | 0 <= i < |paths| ensures Describes(job, paths, i, Members(job, paths, map[]).value[i]) {
      assert 0 + i == i;
    }
  }
}
