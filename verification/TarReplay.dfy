/** Extracting the members in order: an independent reader of the archive, and the round trip that
    extraction rebuilds exactly the normalized tree. */
module TarReplay {
  import opened Links
  import opened Outcomes
  import opened PathOrder
  import opened Paths
  import opened RootfsTar
  import opened TarHeaders

  /** Nodes of an extracted tree; files are numbered in order of creation and hard links share the number. */
  datatype Node = DirNode(mode: nat) | FileNode(file: nat) | LinkNode(target: string)

  datatype FileData = FileData(mode: nat, content: seq<byte>)

  datatype Tree = Tree(nodes: map<string, Node>, files: seq<FileData>)

  const EMPTY := Tree(map[], [])

  /** Extraction of one member; it needs a fresh name, an existing parent directory, and for a hard
      link an existing file. */
  function Extract(tree: Tree, m: TarMember): Outcome<Tree> {
    if m.name in tree.nodes then Denied
    else if m.name != "." && !(ParentName(m.name) in tree.nodes && tree.nodes[ParentName(m.name)].DirNode?) then Denied
    else
      match m.kind
      case Directory => Accepted(tree.(nodes := tree.nodes[m.name := DirNode(m.mode)]))
      case SymLink => Accepted(tree.(nodes := tree.nodes[m.name := LinkNode(m.linkname)]))
      case Regular =>
        Accepted(Tree(tree.nodes[m.name := FileNode(|tree.files|)], tree.files + [FileData(m.mode, m.content)]))
      case HardLink =>
        if m.linkname in tree.nodes && tree.nodes[m.linkname].FileNode?
        then Accepted(tree.(nodes := tree.nodes[m.name := tree.nodes[m.linkname]])) else Denied
      case Other => Denied
  }

  function Replay(tree: Tree, ms: seq<TarMember>): Outcome<Tree>
    decreases ms
  {
    if ms == [] then Accepted(tree)
    else
      var next :- Extract(tree, ms[0]);
      Replay(next, ms[1..])
  }

  // ----- agreement between the source tree and an extracted one -----

  /** `p` was extracted as the normalized form of its source entry. */
  ghost predicate Matches(job: Job, tree: Tree, p: string)
    requires Listed(job, p) && p in tree.nodes
  {
    match job.fs.entries[p]
    case Dir => tree.nodes[p] == DirNode(365)
    case Symlink(target) =>
      && NormalizedLink(job.cwd, p, target).Accepted?
      && tree.nodes[p] == LinkNode(NormalizedLink(job.cwd, p, target).value)
    case File(id) =>
      && tree.nodes[p].FileNode? && tree.nodes[p].file < |tree.files|
      && tree.files[tree.nodes[p].file].content == job.fs.inodes[id].content
      && tree.files[tree.nodes[p].file].mode == if AnyExecute(job.fs.inodes[id].mode) then 365 else 292
    case Special => false
  }

  predicate IsFile(job: Job, p: string) {
    Listed(job, p) && job.fs.entries[p].File?
  }

  /** Two extracted files are one file exactly when their sources are one inode. */
  ghost predicate SameClasses(job: Job, tree: Tree) {
    forall p, q :: p in tree.nodes && q in tree.nodes && IsFile(job, p) && IsFile(job, q) ==>
      (tree.nodes[p] == tree.nodes[q] <==> job.fs.entries[p].id == job.fs.entries[q].id)
  }

  /** The extracted tree is the normalized image of the source paths it holds. */
  ghost predicate Image(job: Job, tree: Tree) {
    && (forall p :: p in tree.nodes ==> Listed(job, p) && Matches(job, tree, p))
    && SameClasses(job, tree)
  }

  /** `links` records, for each archived inode, one extracted path of it. */
  ghost predicate LinksSound(job: Job, tree: Tree, links: map<Identity, string>) {
    && (forall id :: id in links ==>
          links[id] in tree.nodes && IsFile(job, links[id]) && job.fs.entries[links[id]].id == id)
    && (forall p :: p in tree.nodes && IsFile(job, p) ==> job.fs.entries[p].id in links)
  }

  /** `next` is `tree` with the new node of `p`, and possibly new files. */
  ghost predicate Extends(tree: Tree, next: Tree, p: string) {
    p !in tree.nodes && p in next.nodes && next.nodes == tree.nodes[p := next.nodes[p]] && tree.files <= next.files
  }

  lemma ImageExtends(job: Job, tree: Tree, next: Tree, p: string)
    requires Image(job, tree) && Extends(tree, next, p)
    requires Listed(job, p) && Matches(job, next, p)
    requires IsFile(job, p) ==> forall q :: q in tree.nodes && IsFile(job, q) ==>
      (tree.nodes[q] == next.nodes[p] <==> job.fs.entries[q].id == job.fs.entries[p].id)
    ensures Image(job, next)
  {
    hide NormalizedLink, AnyExecute;
    forall q | q in next.nodes ensures Listed(job, q) && Matches(job, next, q) {
      if q != p {
        assert Matches(job, tree, q);
      }
    }
  }

  lemma LinksExtend(job: Job, tree: Tree, next: Tree, links: map<Identity, string>, p: string)
    requires LinksSound(job, tree, links) && Extends(tree, next, p) && Listed(job, p)
    ensures LinksSound(job, next, LinksAfter(job, p, links))
  {
  }

  /** Extracting one member keeps the image and extends it by that path. */
  lemma ExtractKeepsImage(job: Job, tree: Tree, links: map<Identity, string>, p: string)
    requires Listed(job, p) && MemberFor(job, p, links).Accepted?
    requires Image(job, tree) && LinksSound(job, tree, links)
    requires p !in tree.nodes
    requires p == "." || (ParentName(p) in tree.nodes && job.fs.entries[ParentName(p)].Dir?)
    ensures Extract(tree, MemberFor(job, p, links).value).Accepted?
    ensures var next := Extract(tree, MemberFor(job, p, links).value).value;
      && next.nodes.Keys == tree.nodes.Keys + {p}
      && Image(job, next) && LinksSound(job, next, LinksAfter(job, p, links))
  {
    ExtractedNode(job, tree, links, p);
    var next := Extract(tree, MemberFor(job, p, links).value).value;
    if IsFile(job, p) {
      forall q | q in tree.nodes && IsFile(job, q)
        ensures tree.nodes[q] == next.nodes[p] <==> job.fs.entries[q].id == job.fs.entries[p].id
      {
        ExtractedClass(job, tree, links, p, q);
      }
    }
    hide Extract, MemberFor, Matches, Image, LinksSound, LinksAfter;
    LinksExtend(job, tree, next, links, p);
    ImageExtends(job, tree, next, p);
  }

  /** The extracted node is the normalized form of its source entry. */
  lemma ExtractedNode(job: Job, tree: Tree, links: map<Identity, string>, p: string)
    requires Listed(job, p) && MemberFor(job, p, links).Accepted?
    requires Image(job, tree) && LinksSound(job, tree, links)
    requires p !in tree.nodes
    requires p == "." || (ParentName(p) in tree.nodes && job.fs.entries[ParentName(p)].Dir?)
    ensures Extract(tree, MemberFor(job, p, links).value).Accepted?
    ensures var next := Extract(tree, MemberFor(job, p, links).value).value;
      Extends(tree, next, p) && Matches(job, next, p)
  {
    hide NormalizedLink, ForbiddenPath, ParentName, NormalMode, AnyExecute, SameClasses;
    assert p != "." ==> Matches(job, tree, ParentName(p));
    var entry := job.fs.entries[p];
    if entry.File? {
      NormalModeMeans(job.fs.inodes[entry.id].mode);
    }
    if entry.File? && entry.id in links {
      assert Matches(job, tree, links[entry.id]);
    }
  }

  /** An extracted file is a new one, or the one its inode already has. */
  lemma ExtractedClass(job: Job, tree: Tree, links: map<Identity, string>, p: string, q: string)
    requires IsFile(job, p) && MemberFor(job, p, links).Accepted?
    requires Image(job, tree) && LinksSound(job, tree, links) && q in tree.nodes && IsFile(job, q)
    requires Extract(tree, MemberFor(job, p, links).value).Accepted?
    ensures var next := Extract(tree, MemberFor(job, p, links).value).value;
      p in next.nodes && (tree.nodes[q] == next.nodes[p] <==> job.fs.entries[q].id == job.fs.entries[p].id)
  {
    hide NormalizedLink, ForbiddenPath, ParentName, NormalMode, AnyExecute;
    assert Matches(job, tree, q);
    var id := job.fs.entries[p].id;
    if id in links {
      assert IsFile(job, links[id]);
    }
  }

  /** Parents come first: in archive order every parent of a listed path precedes it. */
  lemma ParentsAreExtracted(job: Job, done: set<string>, paths: seq<string>)
    requires WellFormed(job.fs) && paths != [] && paths[0] != "."
    requires job.fs.entries.Keys == done + (set p | p in paths)
    requires Ordered(paths)
    ensures ParentName(paths[0]) in done && job.fs.entries[ParentName(paths[0])].Dir?
  {
    var p := paths[0];
    assert p in job.fs.entries.Keys;
    ParentIsBefore(p);
    var parent := ParentName(p);
    assert parent in job.fs.entries;
    if parent in paths {
      FirstIsLeast(paths, parent);
      if parent != p {
        BeforeTransitive(p, parent, p);
      }
      BeforeIrreflexive(p);
    }
  }

  lemma TakeFirst(paths: seq<string>)
    requires Ordered(paths) && paths != []
    ensures Ordered(paths[1..])
    ensures (set p | p in paths) == {paths[0]} + (set p | p in paths[1..]) && paths[0] !in (set p | p in paths[1..])
  {
    FirstIsAlone(paths);
    assert paths == [paths[0]] + paths[1..];
  }

  lemma {:induction false} ReplayRebuilds(job: Job, done: set<string>, paths: seq<string>,
                                          links: map<Identity, string>, tree: Tree)
    requires WellFormed(job.fs) && AllListed(job, paths) && Ordered(paths)
    requires job.fs.entries.Keys == done + (set p | p in paths) && done !! (set p | p in paths)
    requires tree.nodes.Keys == done && Image(job, tree) && LinksSound(job, tree, links)
    requires Members(job, paths, links).Accepted?
    ensures Replay(tree, Members(job, paths, links).value).Accepted?
    ensures var end := Replay(tree, Members(job, paths, links).value).value;
      end.nodes.Keys == job.fs.entries.Keys && Image(job, end)
    decreases paths
  {
    hide MemberFor, Extract, Image, LinksSound, LinksAfter, WellFormed, Ordered, Listed;
    if paths != [] {
      var p, tail := paths[0], paths[1..];
      if p != "." {
        ParentsAreExtracted(job, done, paths);
      }
      assert Listed(job, p);
      TakeFirst(paths);
      ExtractKeepsImage(job, tree, links, p);
      var m := MemberFor(job, p, links).value;
      var next := Extract(tree, m).value;
      var links' := LinksAfter(job, p, links);
      ReplayRebuilds(job, done + {p}, tail, links', next);
      var rest := Members(job, tail, links').value;
      assert Members(job, paths, links).value == [m] + rest;
      assert ([m] + rest)[1..] == rest;
    }
  }

  /** Round trip: whenever the producer succeeds, extracting its members in order succeeds and rebuilds exactly
      the normalized tree: the same paths, kinds, normalized modes, contents and link targets, and the same
      hard-link classes. */
  lemma RoundTrip(job: Job, listing: seq<string>)
    requires WellFormed(job.fs) && job.fs.entries.Keys == (set p | p in listing)
    requires AllListed(job, Sorted(listing))
    requires Members(job, Sorted(listing), map[]).Accepted?
    ensures Replay(EMPTY, Members(job, Sorted(listing), map[]).value).Accepted?
    ensures var tree := Replay(EMPTY, Members(job, Sorted(listing), map[]).value).value;
      && tree.nodes.Keys == job.fs.entries.Keys
      && (forall p :: p in tree.nodes ==> Listed(job, p) && Matches(job, tree, p))
      && SameClasses(job, tree)
  {
    hide Members, Replay, Sorted;
    var paths := Sorted(listing);
    SortedIsOrdered(listing);
    assert (set p | p in paths) == (set p | p in listing);
    assert {} + (set p | p in paths) == (set p | p in paths);
    ReplayRebuilds(job, {}, paths, map[], EMPTY);
  }

  /** What the round trip means for symbolic links: every extracted link is relative and stays inside the root,
      a relative target comes back as it was, and an absolute one that stays under the root leads to the same place. */
  lemma LinksSurvive(job: Job, tree: Tree, p: string)
    requires WellFormed(job.fs) && Descending(job.cwd)
    requires p in tree.nodes && p in job.fs.entries && job.fs.entries[p].Symlink?
    requires Matches(job, tree, p)
    ensures tree.nodes[p].LinkNode?
    ensures var source, target := job.fs.entries[p].target, tree.nodes[p].target;
      && source != "" && target != "" && target[0] != '/' && !Escapes(Resolve(p, target))
      && (source[0] != '/' ==> target == source)
      && (source[0] == '/' && StaysUnderRoot(source) ==> Resolve(p, target) == AbsoluteMeaning(source))
  {
    var source := job.fs.entries[p].target;
    EntryIsCanonical(job, p);
    NormalizedLinkIsValid(job.cwd, p, source);
    if source[0] == '/' {
      NormalizedLinkKeepsMeaning(job.cwd, p, source);
    }
  }

  lemma EntryIsCanonical(job: Job, p: string)
    requires WellFormed(job.fs) && p in job.fs.entries
    ensures CanonicalName(p)
  {
    MemberNameDepth(p);
  }
}
