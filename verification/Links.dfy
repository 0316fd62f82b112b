/** Symbolic links of the rootfs: the producer's rewriting of absolute targets, the image checker's
    normalising test, and the staging filter's depth counter, all judged by one lexical resolution. */
module Links {
  import opened Outcomes
  import opened Paths

  // ----- the three source functions -----

  /** `PurePosixPath(path).parent`, as parts. */
  function Parent(path: string): seq<string> {
    var parts := Parts(path);
    if parts == [] then [] else parts[..|parts| - 1]
  }

  function LStripSlashes(s: string): string {
    if s != "" && s[0] == '/' then LStripSlashes(s[1..]) else s
  }

  predicate ForbiddenText(target: string) {
    target == "" || '\0' in target || '\\' in target
  }

  /** The escape test of `normalized_link` and `validate_link`, as they print and compare paths. */
  predicate ResolvesOutside(path: string, target: string) {
    PrintsEscape(NormPath(AsPosix(Parent(path) + Parts(target))))
  }

  /** `normalized_link`, run in working directory `cwd` (which `os.path.relpath` consults). */
  function NormalizedLink(cwd: seq<string>, path: string, target: string): Outcome<string> {
    if ForbiddenText(target) then Denied
    else
      var relative :=
        if target[0] == '/' then RelPath(cwd, AsPosix(Parts(LStripSlashes(target))), AsPosix(Parent(path))) else target;
      if ResolvesOutside(path, relative) then Denied else Accepted(relative)
  }

  /** `validate_link`. */
  predicate ValidateLink(path: string, target: string) {
    !ForbiddenText(target) && target[0] != '/' && !ResolvesOutside(path, target)
  }

  predicate HasControl(c: string) {
    exists i :: 0 <= i < |c| && (c[i] < ' ' || c[i] == '\U{7F}')
  }

  /** The checks `_android_staging_filter_relative_link_is_contained` makes on each component. */
  predicate CleanComponent(c: string) {
    c != "" && c != "." && !HasControl(c)
  }

  /** The depth counter over the remaining components. */
  function DepthStays(depth: nat, cs: seq<string>): bool
    decreases cs
  {
    if cs == [] then true
    else if !CleanComponent(cs[0]) then false
    else if cs[0] == ".." then depth != 0 && DepthStays(depth - 1, cs[1..])
    else DepthStays(depth + 1, cs[1..])
  }

  predicate Contained(member: string, target: string) {
    target != "" && target[0] != '/' && target[|target| - 1] != '/' && DepthStays(CountSlashes(member), Split(target))
  }

  /** `_android_staging_filter_relative_link_is_contained`: the loop with its running depth. */
  method CheckContained(member: string, target: string) returns (ok: bool)
    ensures ok == Contained(member, target)
  {
    if target == "" || target[0] == '/' || target[|target| - 1] == '/' {
      return false;
    }
    var depth, cs := CountSlashes(member), Split(target);
    for i := 0 to |cs|
      invariant DepthStays(CountSlashes(member), cs) == DepthStays(depth, cs[i..])
    {
      assert cs[i..][1..] == cs[i + 1..];
      if !CleanComponent(cs[i]) {
        return false;
      }
      if cs[i] == ".." {
        if depth == 0 {
          return false;
        }
        depth := depth - 1;
      } else {
        depth := depth + 1;
      }
    }
    return true;
  }

  // ----- lexical resolution and the net effect of a walk -----

  /** Where a link at `path` with `target` points, relative to the root. */
  function Resolve(path: string, target: string): seq<string> {
    Norm([], Parent(path) + Parts(target))
  }

  /** What a walk does to whatever directory it starts in: leave `ups` levels, then enter `down`. */
  datatype Walk = Walk(ups: nat, down: seq<string>)

  /** One more component of a walk. */
  function Move(w: Walk, c: string): Walk {
    if c != ".." then w.(down := w.down + [c])
    else if w.down == [] then w.(ups := w.ups + 1)
    else w.(down := w.down[..|w.down| - 1])
  }

  function Net(w: Walk, cs: seq<string>): Walk
    decreases cs
  {
    if cs == [] then w else Net(Move(w, cs[0]), cs[1..])
  }

  const STILL := Walk(0, [])

  /** The walk taken from inside `dir`, by `normpath` (which remembers climbing above the root). */
  function Land(dir: seq<string>, w: Walk): seq<string> {
    if w.ups <= |dir| then dir[..|dir| - w.ups] + w.down else Ups(w.ups - |dir|) + w.down
  }

  /** The walk taken from inside `dir` of an absolute path (which stays at the root). */
  function LandClamped(dir: seq<string>, w: Walk): seq<string> {
    dir[..if w.ups <= |dir| then |dir| - w.ups else 0] + w.down
  }

  lemma {:induction false} NetProper(w: Walk, cs: seq<string>)
    requires Descending(w.down) && Proper(cs)
    ensures Descending(Net(w, cs).down)
    ensures forall c :: c in Net(w, cs).down ==> c in w.down || c in cs
    decreases cs
  {
    if cs != [] {
      NetProper(Move(w, cs[0]), cs[1..]);
    }
  }

  lemma DropLast<T>(a: seq<T>, b: seq<T>)
    requires b != []
    ensures (a + b)[|a + b| - 1] == b[|b| - 1] && (a + b)[..|a + b| - 1] == a + b[..|b| - 1]
  {
  }

  lemma MoveKeepsDescending(w: Walk, c: string)
    requires Descending(w.down) && Proper([c])
    ensures Descending(Move(w, c).down)
  {
    assert [c][0] == c;
  }

  /** The part of the starting directory that a walk keeps, in front of the names it enters. */
  function Kept(dir: seq<string>, ups: nat): seq<string> {
    if ups <= |dir| then dir[..|dir| - ups] else Ups(ups - |dir|)
  }

  lemma LandIsKept(dir: seq<string>, w: Walk)
    ensures Land(dir, w) == Kept(dir, w.ups) + w.down
  {
  }

  lemma ClimbLeaves(dir: seq<string>, ups: nat)
    requires Descending(dir)
    ensures Climb(Kept(dir, ups), "..") == Kept(dir, ups + 1)
  {
    if ups >= |dir| {
      assert Kept(dir, ups) + [".."] == Ups(ups + 1 - |dir|);
    }
  }

  lemma ClimbLands(dir: seq<string>, w: Walk, c: string)
    requires Descending(dir) && Descending(w.down) && Proper([c])
    ensures Climb(Land(dir, w), c) == Land(dir, Move(w, c)) && Descending(Move(w, c).down)
  {
    MoveKeepsDescending(w, c);
    LandIsKept(dir, w);
    LandIsKept(dir, Move(w, c));
    var kept := Kept(dir, w.ups);
    hide Kept, Land;
    if c != ".." {
      assert kept + w.down + [c] == kept + (w.down + [c]);
    } else if w.down != [] {
      DropLast(kept, w.down);
    } else {
      ClimbLeaves(dir, w.ups);
      assert kept + [] == kept && Kept(dir, w.ups + 1) + [] == Kept(dir, w.ups + 1);
    }
  }

  lemma ClampStepLands(dir: seq<string>, w: Walk, c: string)
    requires Descending(dir) && Descending(w.down) && Proper([c])
    ensures ClampStep(LandClamped(dir, w), c) == LandClamped(dir, Move(w, c)) && Descending(Move(w, c).down)
  {
    MoveKeepsDescending(w, c);
    hide Descending, Proper;
    var kept := dir[..if w.ups <= |dir| then |dir| - w.ups else 0];
    if c != ".." {
      assert kept + w.down + [c] == kept + (w.down + [c]);
    } else if w.down != [] {
      DropLast(kept, w.down);
    } else {
      assert kept + [] == kept;
    }
  }

  lemma {:induction false} NormIsLand(dir: seq<string>, w: Walk, cs: seq<string>)
    requires Descending(dir) && Descending(w.down) && Proper(cs)
    ensures Norm(Land(dir, w), cs) == Land(dir, Net(w, cs))
    decreases cs
  {
    hide Climb, Land, Move;
    if cs != [] {
      ClimbLands(dir, w, cs[0]);
      NormIsLand(dir, Move(w, cs[0]), cs[1..]);
    }
  }

  lemma {:induction false} ClampIsLand(dir: seq<string>, w: Walk, cs: seq<string>)
    requires Descending(dir) && Descending(w.down) && Proper(cs)
    ensures Clamp(LandClamped(dir, w), cs) == LandClamped(dir, Net(w, cs))
    decreases cs
  {
    hide ClampStep, LandClamped, Move;
    if cs != [] {
      ClampStepLands(dir, w, cs[0]);
      ClampIsLand(dir, Move(w, cs[0]), cs[1..]);
    }
  }

  lemma {:induction false} NetOfClimb(k: nat, n: nat, down: seq<string>)
    requires Descending(down)
    ensures Net(Walk(k, []), Ups(n) + down) == Walk(k + n, down)
    decreases n
  {
    var cs := Ups(n) + down;
    if n > 0 {
      assert cs[1..] == Ups(n - 1) + down;
      NetOfClimb(k + 1, n - 1, down);
    } else {
      assert cs == down;
      NetOfDescent(Walk(k, []), down);
    }
  }

  lemma {:induction false} NetOfDescent(w: Walk, cs: seq<string>)
    requires Descending(cs)
    ensures Net(w, cs) == Walk(w.ups, w.down + cs)
    decreases cs
  {
    if cs != [] {
      NetOfDescent(w.(down := w.down + [cs[0]]), cs[1..]);
      assert w.down + [cs[0]] + cs[1..] == w.down + cs;
    }
  }

  ghost predicate CanonicalName(path: string) {
    Descending(Parts(path))
  }

  /** Resolution is the walk of the target taken from the link's parent. */
  lemma ResolveIsLand(path: string, target: string)
    requires CanonicalName(path)
    ensures Resolve(path, target) == Land(Parent(path), Net(STILL, Parts(target)))
    ensures Descending(Net(STILL, Parts(target)).down)
    ensures Escapes(Resolve(path, target)) <==> Net(STILL, Parts(target)).ups > |Parent(path)|
  {
    var dir := Parent(path);
    PartsAreProper(target);
    NetProper(STILL, Parts(target));
    NormAppend([], dir, Parts(target));
    NormDescending([], dir);
    assert [] + dir == dir;
    assert Land(dir, STILL) == dir;
    NormIsLand(dir, STILL, Parts(target));
  }

  /** The printed test of the tools is the lexical one. */
  lemma ResolvesOutsideIffEscapes(path: string, target: string)
    requires CanonicalName(path)
    ensures ResolvesOutside(path, target) <==> Escapes(Resolve(path, target))
  {
    PartsAreProper(target);
    var cs := Parent(path) + Parts(target);
    PartsAsPosix(cs);
    NormIsProper([], cs);
    PrintsEscapeIffEscapes(Norm([], cs));
  }

  // ----- rewriting absolute targets -----

  lemma {:induction false} LStripKeepsParts(s: string)
    ensures Parts(LStripSlashes(s)) == Parts(s)
  {
    if s != "" && s[0] == '/' {
      LStripKeepsParts(s[1..]);
      assert ([""] + Split(s[1..]))[1..] == Split(s[1..]);
    }
  }

  /** `abspath` of a relative path is where its walk lands from the working directory. */
  lemma AbsolutePath(cwd: seq<string>, cs: seq<string>)
    requires Descending(cwd) && Proper(cs)
    ensures Clamp([], cwd + cs) == LandClamped(cwd, Net(STILL, cs))
    ensures Descending(LandClamped(cwd, Net(STILL, cs)))
  {
    hide Clamp, Net;
    ClampAppend([], cwd, cs);
    ClampDescending([], cwd);
    assert [] + cwd == cwd;
    assert LandClamped(cwd, STILL) == cwd;
    ClampIsLand(cwd, STILL, cs);
    NetProper(STILL, cs);
  }

  /** `relpath` to a target of net walk `w` is the way to where `w` lands from the working directory. */
  lemma RelPathIsWay(cwd: seq<string>, dir: seq<string>, dest: seq<string>)
    requires Descending(cwd) && Descending(dir) && Proper(dest)
    ensures RelPath(cwd, AsPosix(dest), AsPosix(dir)) == AsPosix(Way(cwd + dir, LandClamped(cwd, Net(STILL, dest))))
    ensures Descending(LandClamped(cwd, Net(STILL, dest)))
  {
    PartsAsPosix(dest);
    PartsAsPosix(dir);
    AbsolutePath(cwd, dest);
    ClampDescending([], cwd + dir);
    assert [] + (cwd + dir) == cwd + dir;
  }

  /** A way leads back to its destination, and leaves the root exactly when the destination is not
      under the working directory. */
  lemma WayLands(cwd: seq<string>, dir: seq<string>, absolute: seq<string>)
    requires Descending(absolute)
    ensures var w := Net(STILL, Way(cwd + dir, absolute));
      && (w.ups > |dir| <==> !(cwd <= absolute))
      && (cwd <= absolute ==> Land(dir, w) == absolute[|cwd|..])
  {
    var i := CommonPrefix(cwd + dir, absolute);
    WayNet(cwd + dir, absolute);
    CommonPrefixOfInside(cwd, dir, absolute);
    hide CommonPrefix, Net, Way, Descending;
    assert |cwd + dir| == |cwd| + |dir|;
    if cwd <= absolute {
      SharedPart(cwd, dir, absolute, i);
    }
  }

  lemma WayNet(from: seq<string>, to: seq<string>)
    requires Descending(to)
    ensures Net(STILL, Way(from, to)) == Walk(|from| - CommonPrefix(from, to), to[CommonPrefix(from, to)..])
  {
    hide CommonPrefix, Net;
    NetOfClimb(0, |from| - CommonPrefix(from, to), to[CommonPrefix(from, to)..]);
  }

  lemma SharedPart<T>(cwd: seq<T>, dir: seq<T>, absolute: seq<T>, i: nat)
    requires |cwd| <= i <= |cwd + dir| && i <= |absolute| && (cwd + dir)[..i] == absolute[..i]
    ensures dir[..i - |cwd|] + absolute[i..] == absolute[|cwd|..]
  {
    assert dir[..i - |cwd|] == (cwd + dir)[..i][|cwd|..] == absolute[..i][|cwd|..];
    assert absolute[..i][|cwd|..] + absolute[i..] == absolute[|cwd|..];
  }

  /** Where a rewritten target resolves. */
  lemma RelPathResolves(cwd: seq<string>, path: string, target: string)
    requires Descending(cwd) && CanonicalName(path)
    ensures var absolute := LandClamped(cwd, Net(STILL, Parts(target)));
            var r := RelPath(cwd, AsPosix(Parts(target)), AsPosix(Parent(path)));
      && (Escapes(Resolve(path, r)) <==> !(cwd <= absolute))
      && (cwd <= absolute ==> Resolve(path, r) == absolute[|cwd|..])
  {
    PartsAreProper(target);
    var absolute := LandClamped(cwd, Net(STILL, Parts(target)));
    RelPathIsWay(cwd, Parent(path), Parts(target));
    var way := Way(cwd + Parent(path), absolute);
    WayIsProper(cwd + Parent(path), absolute);
    hide Way, LandClamped, Net, Parts, AsPosix, RelPath, Land, Resolve, Parent, Descending, Proper;
    PartsAsPosix(way);
    WayLands(cwd, Parent(path), absolute);
    ResolveIsLand(path, AsPosix(way));
  }

  /** The names of a way under the working directory are names the walk entered. */
  lemma WayNames(cwd: seq<string>, dir: seq<string>, w: Walk)
    requires cwd <= LandClamped(cwd, w)
    ensures forall part :: part in Way(cwd + dir, LandClamped(cwd, w)) ==> part == ".." || part in w.down
  {
    var absolute := LandClamped(cwd, w);
    CommonPrefixOfInside(cwd, dir, absolute);
    var i := CommonPrefix(cwd + dir, absolute);
    hide CommonPrefix;
    var skipped := |absolute| - |w.down|;
    assert absolute[skipped..] == w.down;
    assert absolute[i..] == w.down[i - skipped..];
  }

  lemma WayIsProper(from: seq<string>, to: seq<string>)
    requires Descending(to)
    ensures Proper(Way(from, to))
  {
  }

  /** How a rewritten target is spelled. */
  lemma RelPathSpelling(cwd: seq<string>, path: string, target: string)
    requires Descending(cwd) && CanonicalName(path)
    ensures var absolute := LandClamped(cwd, Net(STILL, Parts(target)));
            var r := RelPath(cwd, AsPosix(Parts(target)), AsPosix(Parent(path)));
      && r != "" && r[0] != '/'
      && (cwd <= absolute ==> forall c :: c in r ==> c == '/' || c == '.' || c in target)
  {
    PartsAreProper(target);
    var w := Net(STILL, Parts(target));
    RelPathIsWay(cwd, Parent(path), Parts(target));
    var way := Way(cwd + Parent(path), LandClamped(cwd, w));
    WayIsProper(cwd + Parent(path), LandClamped(cwd, w));
    NetProper(STILL, Parts(target));
    hide Way, LandClamped, Net, Parts, RelPath, AsPosix;
    FirstCharacter(way);
    if cwd <= LandClamped(cwd, w) {
      WayNames(cwd, Parent(path), w);
      RelativeCharacters(way, target, w);
    }
  }

  lemma CommonPrefixOfInside(cwd: seq<string>, dir: seq<string>, absolute: seq<string>)
    ensures CommonPrefix(cwd + dir, absolute) >= |cwd| <==> cwd <= absolute
  {
    var i := CommonPrefix(cwd + dir, absolute);
    if i >= |cwd| {
      forall j | 0 <= j < |cwd| ensures cwd[j] == absolute[j] {
        assert cwd[j] == (cwd + dir)[..i][j] == absolute[..i][j];
      }
    }
  }

  lemma FirstCharacter(cs: seq<string>)
    requires Proper(cs)
    ensures AsPosix(cs) != "" && AsPosix(cs)[0] != '/'
  {
    if cs != [] {
      assert cs[0] != "" && AsPosix(cs)[0] == cs[0][0];
    }
  }

  lemma {:induction false} JoinCharacters(cs: seq<string>)
    ensures forall c :: c in Join(cs) ==> c == '/' || exists i :: 0 <= i < |cs| && c in cs[i]
  {
    if |cs| == 1 {
    } else if cs != [] {
      JoinCharacters(cs[1..]);
      forall c | c in Join(cs) ensures c == '/' || exists i :: 0 <= i < |cs| && c in cs[i] {
        if c != '/' && c !in cs[0] {
          assert c in Join(cs[1..]);
          var i :| 0 <= i < |cs[1..]| && c in cs[1..][i];
          assert c in cs[i + 1];
        }
      }
    }
  }

  /** A rewritten target inside the root is spelled with the original target's characters. */
  lemma RelativeCharacters(rel: seq<string>, target: string, w: Walk)
    requires forall part :: part in rel ==> part == ".." || part in w.down
    requires w == Net(STILL, Parts(target))
    ensures forall c :: c in AsPosix(rel) ==> c == '/' || c == '.' || c in target
  {
    PartsAreProper(target);
    NetProper(STILL, Parts(target));
    JoinCharacters(rel);
    forall c | c in AsPosix(rel) ensures c == '/' || c == '.' || c in target {
      if rel != [] && c != '/' {
        var i :| 0 <= i < |rel| && c in rel[i];
        if rel[i] != ".." {
          assert rel[i] in Parts(target);
          var j :| 0 <= j < |Parts(target)| && Parts(target)[j] == rel[i];
        }
      }
    }
  }

  /** An absolute target stays under the root when its walk never leaves the directory it starts in. */
  ghost predicate StaysUnderRoot(target: string) {
    Net(STILL, Parts(target)).ups == 0
  }

  /** Where an absolute target points inside the root: `/..` is `/`. */
  function AbsoluteMeaning(target: string): seq<string> {
    Clamp([], Parts(target))
  }

  /** Every link the producer emits is relative, clean, inside the root, and accepted by the checker;
      relative targets are emitted as they are. */
  lemma NormalizedLinkIsValid(cwd: seq<string>, path: string, target: string)
    requires Descending(cwd) && CanonicalName(path)
    requires NormalizedLink(cwd, path, target).Accepted?
    ensures var r := NormalizedLink(cwd, path, target).value;
      ValidateLink(path, r) && !Escapes(Resolve(path, r)) && (target[0] != '/' ==> r == target)
  {
    var r := NormalizedLink(cwd, path, target).value;
    ResolvesOutsideIffEscapes(path, r);
    if target[0] == '/' {
      LStripKeepsParts(target);
      RelPathResolves(cwd, path, target);
      RelPathSpelling(cwd, path, target);
    }
  }

  /** A relative target is emitted exactly when it is not empty, has no NUL or backslash and resolves inside the
      root, and it is emitted as it is. */
  lemma RelativeLinkIsKept(cwd: seq<string>, path: string, target: string)
    requires CanonicalName(path) && (target == "" || target[0] != '/')
    ensures NormalizedLink(cwd, path, target) ==
      if target != "" && '\0' !in target && '\\' !in target && !Escapes(Resolve(path, target))
      then Accepted(target) else Denied
  {
    ResolvesOutsideIffEscapes(path, target);
  }

  /** The checker's link test: a non-empty relative target without NUL or backslash that resolves inside the root. */
  lemma ValidateLinkIff(path: string, target: string)
    requires CanonicalName(path)
    ensures ValidateLink(path, target) <==>
      && target != "" && target[0] != '/' && '\0' !in target && '\\' !in target
      && !Escapes(Resolve(path, target))
  {
    ResolvesOutsideIffEscapes(path, target);
  }

  /** Rewriting an absolute target that stays under the root always succeeds and keeps its meaning.
      Any other absolute target that is accepted keeps its meaning only from working directory `/`. */
  lemma NormalizedLinkKeepsMeaning(cwd: seq<string>, path: string, target: string)
    requires Descending(cwd) && CanonicalName(path)
    requires !ForbiddenText(target) && target[0] == '/'
    ensures StaysUnderRoot(target) ==> NormalizedLink(cwd, path, target).Accepted?
    ensures StaysUnderRoot(target) ==> AbsoluteMeaning(target) == Norm([], Parts(target))
    ensures NormalizedLink(cwd, path, target).Accepted? ==>
      (Resolve(path, NormalizedLink(cwd, path, target).value) == AbsoluteMeaning(target) <==>
       (StaysUnderRoot(target) || cwd == []))
  {
    var w := Net(STILL, Parts(target));
    RewriteOutcome(cwd, path, target);
    RelPathResolves(cwd, path, target);
    MeaningIsDown(target);
    InsideMeansNoClimb(cwd, w);
  }

  lemma RewriteOutcome(cwd: seq<string>, path: string, target: string)
    requires Descending(cwd) && CanonicalName(path)
    requires !ForbiddenText(target) && target[0] == '/'
    ensures NormalizedLink(cwd, path, target) ==
      if cwd <= LandClamped(cwd, Net(STILL, Parts(target)))
      then Accepted(RelPath(cwd, AsPosix(Parts(target)), AsPosix(Parent(path)))) else Denied
  {
    LStripKeepsParts(target);
    RelPathResolves(cwd, path, target);
    ResolvesOutsideIffEscapes(path, RelPath(cwd, AsPosix(Parts(target)), AsPosix(Parent(path))));
  }

  lemma InsideMeansNoClimb(cwd: seq<string>, w: Walk)
    ensures var absolute := LandClamped(cwd, w);
      && (w.ups == 0 || cwd == [] ==> cwd <= absolute)
      && (cwd <= absolute ==> (absolute[|cwd|..] == w.down <==> (w.ups == 0 || cwd == [])))
  {
    var absolute := LandClamped(cwd, w);
    if w.ups == 0 || cwd == [] {
      assert absolute == cwd + w.down;
    } else if cwd <= absolute {
      assert |absolute[|cwd|..]| < |w.down|;
    }
  }

  lemma MeaningIsDown(target: string)
    ensures var w := Net(STILL, Parts(target));
      AbsoluteMeaning(target) == w.down && (w.ups == 0 ==> Norm([], Parts(target)) == w.down)
  {
    PartsAreProper(target);
    assert LandClamped([], STILL) == [] && Land([], STILL) == [];
    ClampIsLand([], STILL, Parts(target));
    NormIsLand([], STILL, Parts(target));
    var w := Net(STILL, Parts(target));
    assert LandClamped([], w) == w.down && (w.ups == 0 ==> Land([], w) == w.down);
  }

  /** The condition is not idle: from any working directory but `/`, a target that climbs above the root
      and comes back through that directory's own names is accepted and points somewhere else. */
  lemma ReenteringTarget(cwd: seq<string>, path: string, target: string, name: string)
    requires Descending(cwd) && CanonicalName(path)
    requires !ForbiddenText(target) && target[0] == '/'
    requires Descending([name]) && Parts(target) == Ups(|cwd|) + (cwd + [name])
    ensures NormalizedLink(cwd, path, target).Accepted?
    ensures Resolve(path, NormalizedLink(cwd, path, target).value) == [name]
    ensures AbsoluteMeaning(target) == cwd + [name]
  {
    NetOfClimb(0, |cwd|, cwd + [name]);
    var w := Net(STILL, Parts(target));
    assert LandClamped(cwd, w) == cwd + [name];
    RewriteOutcome(cwd, path, target);
    RelPathResolves(cwd, path, target);
    MeaningIsDown(target);
  }

  lemma ExampleParts(target: string)
    requires target == "/../w/a"
    ensures Parts(target) == Ups(1) + (["w"] + ["a"])
  {
    assert target == "" + "/" + (".." + "/" + ("w" + "/" + "a"));
    ThreeParts("..", "w", "a");
    assert ["..", "w", "a"] == Ups(1) + (["w"] + ["a"]);
  }

  /** The parts of an absolute path with three names. */
  lemma ThreeParts(a: string, b: string, c: string)
    requires Proper([a, b, c])
    ensures Parts("" + "/" + (a + "/" + (b + "/" + c))) == [a, b, c]
  {
    hide Split;
    assert '/' !in a && '/' !in b && '/' !in c by {
      assert [a, b, c][0] == a && [a, b, c][1] == b && [a, b, c][2] == c;
    }
    SplitCons("", a + "/" + (b + "/" + c));
    SplitCons(a, b + "/" + c);
    SplitCons(b, c);
    SplitSingle(c);
    var cs := [a, b, c];
    assert [""] + ([a] + ([b] + [c])) == [""] + cs && ([""] + cs)[1..] == cs;
    KeepProper(cs);
  }

  /** One such input: `/../w/a`, in working directory `/w`. */
  lemma ReenteringExample(cwd: seq<string>, path: string, target: string)
    requires cwd == ["w"] && CanonicalName(path) && target == "/../w/a"
    ensures NormalizedLink(cwd, path, target).Accepted?
    ensures Resolve(path, NormalizedLink(cwd, path, target).value) != AbsoluteMeaning(target)
  {
    ExampleParts(target);
    ReenteringTarget(cwd, path, target, "a");
  }

  // ----- the depth counter refines normalisation -----

  ghost predicate CleanComponents(cs: seq<string>) {
    forall i :: 0 <= i < |cs| ==> CleanComponent(cs[i])
  }

  ghost predicate CleanTarget(target: string) {
    target != "" && target[0] != '/' && target[|target| - 1] != '/' && CleanComponents(Split(target))
  }

  lemma {:induction false} DepthCounterIsNet(depth: nat, w: Walk, cs: seq<string>)
    requires Proper(cs) && CleanComponents(cs)
    requires w.ups <= depth
    ensures DepthStays(depth - w.ups + |w.down|, cs) <==> Net(w, cs).ups <= depth
    decreases cs
  {
    if cs != [] {
      if cs[0] != ".." {
        DepthCounterIsNet(depth, w.(down := w.down + [cs[0]]), cs[1..]);
      } else if w.down != [] {
        DepthCounterIsNet(depth, w.(down := w.down[..|w.down| - 1]), cs[1..]);
      } else if w.ups < depth {
        DepthCounterIsNet(depth, w.(ups := w.ups + 1), cs[1..]);
      } else {
        NetUpsGrow(w.(ups := w.ups + 1), cs[1..]);
      }
    }
  }

  lemma {:induction false} NetUpsGrow(w: Walk, cs: seq<string>)
    ensures Net(w, cs).ups >= w.ups
    decreases cs
  {
    if cs != [] {
      var w' := if cs[0] != ".." then w.(down := w.down + [cs[0]])
                else if w.down == [] then w.(ups := w.ups + 1)
                else w.(down := w.down[..|w.down| - 1]);
      NetUpsGrow(w', cs[1..]);
    }
  }

  lemma {:induction false} DepthNeedsClean(depth: nat, cs: seq<string>)
    requires DepthStays(depth, cs)
    ensures CleanComponents(cs)
    decreases cs
  {
    if cs != [] {
      DepthNeedsClean(if cs[0] == ".." then depth - 1 else depth + 1, cs[1..]);
    }
  }

  /** A name as the staging filter and the checker accept it: `.`, or proper components without `..`. */
  ghost predicate MemberName(path: string) {
    path == "." || Descending(Split(path))
  }

  lemma MemberNameDepth(path: string)
    requires MemberName(path)
    ensures CanonicalName(path) && |Parent(path)| == CountSlashes(path)
  {
    if path == "." {
      assert Split(".") == ["."];
      assert CountSlashes(".") == 0;
    } else {
      KeepProper(Split(path));
      CountSlashesSplit(path);
    }
  }

  /** The stepwise counter accepts exactly the clean targets whose resolution stays inside the root. */
  lemma ContainedIffInside(member: string, target: string)
    requires MemberName(member)
    ensures Contained(member, target) <==> CleanTarget(target) && !Escapes(Resolve(member, target))
  {
    var cs := Split(target);
    if Contained(member, target) {
      DepthNeedsClean(CountSlashes(member), cs);
    }
    if CleanTarget(target) {
      SplitIsSlashFree(target);
      KeepProper(cs);
      MemberNameDepth(member);
      ResolveIsLand(member, target);
      DepthCounterIsNet(CountSlashes(member), STILL, cs);
    }
  }

  /** On clean targets without a backslash the filter's counter and the checker's `validate_link` agree. */
  lemma CounterAgreesWithChecker(member: string, target: string)
    requires MemberName(member)
    requires CleanTarget(target) && '\\' !in target
    ensures Contained(member, target) <==> ValidateLink(member, target)
  {
    ContainedIffInside(member, target);
    MemberNameDepth(member);
    ResolvesOutsideIffEscapes(member, target);
    if '\0' in target {
      CharacterIsInComponent(target, '\0');
      assert false;
    }
  }

  lemma {:induction false} CharacterIsInComponent(s: string, c: char)
    requires c in s && c != '/'
    ensures exists i :: 0 <= i < |Split(s)| && c in Split(s)[i]
  {
    var rest := Split(s[1..]);
    if s[0] == c {
      assert c in Split(s)[0];
    } else {
      CharacterIsInComponent(s[1..], c);
      var i :| 0 <= i < |rest| && c in rest[i];
      if s[0] == '/' {
        assert c in Split(s)[i + 1];
      } else {
        assert c in Split(s)[i];
      }
    }
  }
}
