/** The build environment and its receipt projection: the compiler sees inherited descriptors by number,
    the receipt names them by role, and the number allocation never shows. */
module ReceiptEnv {
  import opened Outcomes

  // ----- roles and descriptors -----

  datatype Role = Rustc | TargetLinker | HostLinkerWrapper | Zig | ZigRoot | CargoHomeInput | Target | Cargo

  const BUILD_INPUT_ROLES := {Rustc, TargetLinker, HostLinkerWrapper, Zig, ZigRoot, CargoHomeInput, Target, Cargo}

  type Descriptors = map<Role, int>

  /** `validate_build_role_descriptors`. */
  predicate ValidDescriptors(d: Descriptors) {
    && d.Keys == BUILD_INPUT_ROLES
    && (forall r :: r in d ==> d[r] >= 3)
    && (forall r, q :: r in d && q in d && d[r] == d[q] ==> r == q)
  }

  // ----- decimal numerals -----

  predicate IsDigit(c: char) {
    '0' <= c <= '9'
  }

  function Decimal(n: nat): string {
    if n < 10 then [('0' as int + n) as char] else Decimal(n / 10) + [('0' as int + n % 10) as char]
  }

  predicate AllDigits(s: string) {
    forall c :: c in s ==> IsDigit(c)
  }

  function Number(s: string): nat
    requires AllDigits(s)
  {
    if s == "" then 0
    else
      assert s[|s| - 1] in s;
      Number(s[..|s| - 1]) * 10 + (s[|s| - 1] as int - '0' as int)
  }

  lemma {:induction false} NumberOfDecimal(n: nat)
    ensures AllDigits(Decimal(n)) && Decimal(n) != "" && Number(Decimal(n)) == n
  {
    var s := Decimal(n);
    if n < 10 {
      assert s[..0] == "";
    } else {
      NumberOfDecimal(n / 10);
      assert s[..|s| - 1] == Decimal(n / 10);
    }
  }

  // ----- the descriptor pattern -----

  const FD_PREFIX := "/proc/self/fd/"

  /** `retained_self_path`. */
  function FdPath(n: nat): string {
    FD_PREFIX + Decimal(n)
  }

  function DigitRun(s: string): (n: nat)
    ensures n <= |s| && AllDigits(s[..n]) && (n < |s| ==> !IsDigit(s[n]))
    ensures s != "" && IsDigit(s[0]) ==> n > 0
  {
    if s == "" || !IsDigit(s[0]) then 0
    else
      var n := 1 + DigitRun(s[1..]);
      assert s[..n] == [s[0]] + s[1..][..n - 1];
      n
  }

  /** The text starts with a match of `/proc/self/fd/([0-9]+)`. */
  predicate Matches(s: string) {
    |s| > 14 && s[..14] == FD_PREFIX && IsDigit(s[14])
  }

  /** The number and the length of the greedy match at the start. */
  function MatchNumber(s: string): nat
    requires Matches(s)
  {
    Number(s[14..][..DigitRun(s[14..])])
  }

  function MatchLength(s: string): (n: nat)
    requires Matches(s)
    ensures 14 < n <= |s|
  {
    14 + DigitRun(s[14..])
  }

  /** `re.sub`, leftmost and greedy, failing on an unbound descriptor. */
  function Substitute(s: string, labels: map<int, string>): Outcome<string>
    decreases |s|
  {
    if s == "" then Accepted("")
    else if Matches(s) then
      if MatchNumber(s) !in labels then Denied
      else
        var rest :- Substitute(s[MatchLength(s)..], labels);
        Accepted(labels[MatchNumber(s)] + rest)
    else
      var rest :- Substitute(s[1..], labels);
      Accepted([s[0]] + rest)
  }

  predicate PrefixAt(s: string, i: int) {
    0 <= i && i + 14 <= |s| && s[i..i + 14] == FD_PREFIX
  }

  /** `"/proc/self/fd/" in s`. */
  predicate ContainsPrefix(s: string) {
    exists i :: 0 <= i <= |s| && PrefixAt(s, i)
  }

  function LabelBody(r: Role): string {
    match r
    case CargoHomeInput => "@CARGO_HOME_INPUT"
    case Target => "@TARGET_SCRATCH"
    case ZigRoot => "@ZIG_ROOT"
    case Rustc => "@RUSTC"
    case TargetLinker => "@TARGET_LINKER"
    case HostLinkerWrapper => "@HOST_LINKER_WRAPPER"
    case Zig => "@ZIG_DRIVER"
    case Cargo => "@CARGO"
  }

  /** The receipt's name for a role, such as `@TARGET_SCRATCH@`. */
  function RoleLabel(r: Role): string {
    LabelBody(r) + "@"
  }

  /** The `replacements` dictionary: descriptor number to role label. */
  ghost predicate IsReplacements(labels: map<int, string>, d: Descriptors) {
    && (forall r :: r in d ==> d[r] in labels && labels[d[r]] == RoleLabel(r))
    && (forall n :: n in labels ==> exists r :: r in d && d[r] == n)
  }

  function Replacements(d: Descriptors): (labels: map<int, string>)
    requires ValidDescriptors(d)
    ensures IsReplacements(labels, d)
  {
    map[d[CargoHomeInput] := RoleLabel(CargoHomeInput)][d[Target] := RoleLabel(Target)]
       [d[ZigRoot] := RoleLabel(ZigRoot)]
       [d[Rustc] := RoleLabel(Rustc)][d[TargetLinker] := RoleLabel(TargetLinker)]
       [d[HostLinkerWrapper] := RoleLabel(HostLinkerWrapper)][d[Zig] := RoleLabel(Zig)][d[Cargo] := RoleLabel(Cargo)]
  }

  /** An environment: variables in insertion order. */
  type Environment = seq<(string, string)>

  function ProjectValue(value: string, labels: map<int, string>): Outcome<string> {
    var canonical :- Substitute(value, labels);
    if ContainsPrefix(canonical) then Denied else Accepted(canonical)
  }

  function ProjectAll(env: Environment, labels: map<int, string>): Outcome<Environment> {
    if env == [] then Accepted([])
    else
      var value :- ProjectValue(env[0].1, labels);
      var rest :- ProjectAll(env[1..], labels);
      Accepted([(env[0].0, value)] + rest)
  }

  function Receipt(env: Environment, d: Descriptors): Outcome<Environment> {
    if ValidDescriptors(d) then ProjectAll(env, Replacements(d)) else Denied
  }

  /** `receipt_environment`, as its loop over the variables. */
  method ReceiptEnvironment(env: Environment, d: Descriptors) returns (r: Outcome<Environment>)
    ensures r == Receipt(env, d)
  {
    hide ProjectValue, ValidDescriptors, Replacements;
    if !ValidDescriptors(d) {
      return Denied;
    }
    var labels := Replacements(d);
    var projected: Environment := [];
    ghost var whole := ProjectAll(env, labels);
    assert env[0..] == env;
    for i := 0 to |env|
      invariant Prepend([], whole) == Prepend(projected, ProjectAll(env[i..], labels))
    {
      assert env[i..][0] == env[i] && env[i..][1..] == env[i + 1..];
      var value := ProjectValue(env[i].1, labels);
      if value.Denied? {
        return Denied;
      }
      ghost var rest := ProjectAll(env[i + 1..], labels);
      if rest.Accepted? {
        var pair := (env[i].0, value.value);
        assert projected + ([pair] + rest.value) == projected + [pair] + rest.value;
      }
      projected := projected + [(env[i].0, value.value)];
    }
    assert env[|env|..] == [] && projected + [] == projected;
    if whole.Accepted? {
      assert [] + whole.value == whole.value;
    }
    return Accepted(projected);
  }

  // ----- the build environment -----

  /** Path arguments of the caller, as `str(Path)` prints them. */
  datatype Callers = Callers(workspace: string, androidRoot: string, artifactRoot: string, manifestParent: string,
                             outputParent: string, rustRoot: string, zigRoot: string)

  const UNIT_SEPARATOR := '\U{1F}'

  /** `"\x1f".join(parts)`. */
  function JoinFlags(parts: seq<string>): string {
    if parts == [] then "" else if |parts| == 1 then parts[0] else parts[0] + [UNIT_SEPARATOR] + JoinFlags(parts[1..])
  }

  function Remap(source: string, replacement: string): seq<string> {
    ["--remap-path-prefix", source + "=" + replacement]
  }

  function BaseFlags(path: Role -> string): seq<string> {
    ["-C", "debuginfo=0", "-C", "strip=symbols", "-C", "codegen-units=1", "-C", "linker" + "=" + path(TargetLinker),
     "-C", "linker-flavor=ld.lld", "-C", "link-arg=--build-id=sha1"]
  }

  /** The `remaps` pairs, in order. */
  function Remaps(callers: Callers, path: Role -> string): seq<(string, string)> {
    [ (callers.workspace, "/usr/src/trillionnium-os"),
      (path(Target), "/usr/src/trillionnium-target"),
      (callers.rustRoot, "/usr/src/trillionnium-rust-toolchain"),
      (path(CargoHomeInput), "/usr/src/trillionnium-cargo-home-input"),
      (path(Target) + "/cargo-home", "/usr/src/trillionnium-cargo-home"),
      (callers.zigRoot, "/usr/src/trillionnium-zig-toolchain"),
      (path(ZigRoot), "/usr/src/trillionnium-zig-toolchain"),
      (callers.androidRoot, "/usr/src/trillionnium-android"),
      (callers.artifactRoot, "/usr/src/trillionnium-empty-artifacts"),
      (callers.manifestParent, "/usr/src/trillionnium-manifest-parent"),
      (callers.outputParent, "/usr/src/trillionnium-output-parent") ]
  }

  function RemapFlags(remaps: seq<(string, string)>): seq<string> {
    if remaps == [] then [] else Remap(remaps[0].0, remaps[0].1) + RemapFlags(remaps[1..])
  }

  function RustFlags(callers: Callers, path: Role -> string): seq<string> {
    BaseFlags(path) + RemapFlags(Remaps(callers, path))
  }

  /** The environment with each role's path spelled by `path`. */
  function Template(callers: Callers, path: Role -> string): Environment {
    [ ("CARGO_BUILD_JOBS", "1"),
      ("CARGO_CACHE_RUSTC_INFO", "0"),
      ("CARGO_ENCODED_RUSTFLAGS", JoinFlags(RustFlags(callers, path))),
      ("CARGO_HOME", path(Target) + "/cargo-home"),
      ("CARGO_INCREMENTAL", "0"),
      ("CARGO_NET_OFFLINE", "true"),
      ("CARGO_TARGET_X86_64_UNKNOWN_LINUX_GNU_LINKER", path(HostLinkerWrapper)),
      ("CARGO_TARGET_DIR", path(Target)),
      ("HOME", path(Target) + "/home"),
      ("LANG", "C"),
      ("LC_ALL", "C"),
      ("PATH", ""),
      ("RUSTC", path(Rustc)),
      ("RUST_BACKTRACE", "0"),
      ("SOURCE_DATE_EPOCH", "1785110400"),
      ("TMPDIR", path(Target) + "/tmp"),
      ("TRILLIONNIUM_ZIG_REAL", path(Zig)),
      ("TZ", "UTC"),
      ("ZIG_GLOBAL_CACHE_DIR", path(Target) + "/zig-global-cache"),
      ("ZIG_LIB_DIR", path(ZigRoot) + "/lib"),
      ("ZIG_LOCAL_CACHE_DIR", path(Target) + "/zig-local-cache") ]
  }

  /** Each role's path in a run: its descriptor under `/proc/self/fd`. */
  function PathIn(d: Descriptors): Role -> string {
    (r: Role) => if r in d && d[r] >= 0 then FdPath(d[r]) else ""
  }

  /** `build_environment`. */
  function BuildEnvironment(callers: Callers, d: Descriptors): Outcome<Environment> {
    if ValidDescriptors(d) then Accepted(Template(callers, PathIn(d))) else Denied
  }

  // ----- substitution and separators -----

  /** A character that occurs neither in the descriptor prefix nor in a numeral. */
  predicate Separates(c: char) {
    c == '=' || c == '@' || c == UNIT_SEPARATOR
  }

  lemma MatchAcrossSeparator(a: string, c: char, b: string)
    requires a != "" && Separates(c)
    ensures Matches(a + [c] + b) <==> Matches(a)
    ensures Matches(a) ==> MatchNumber(a + [c] + b) == MatchNumber(a) && MatchLength(a + [c] + b) == MatchLength(a)
  {
    var s := a + [c] + b;
    if |a| < 14 {
      assert s[|a|] == c;
      assert |s| >= 14 ==> s[..14][|a|] == c;
    } else if |a| == 14 {
      assert s[14] == c;
    } else {
      assert s[..14] == a[..14] && s[14] == a[14];
      if Matches(a) {
        assert s[14..] == a[14..] + [c] + b;
        DigitRunAcross(a[14..], c, b);
      }
    }
  }

  lemma {:induction false} DigitRunAcross(a: string, c: char, b: string)
    requires Separates(c)
    ensures DigitRun(a + [c] + b) == DigitRun(a)
    ensures (a + [c] + b)[..DigitRun(a)] == a[..DigitRun(a)]
  {
    if a != "" && IsDigit(a[0]) {
      assert (a + [c] + b)[1..] == a[1..] + [c] + b;
      DigitRunAcross(a[1..], c, b);
    }
  }

  function Chain(x: Outcome<string>, c: char, y: Outcome<string>): Outcome<string> {
    if x.Accepted? && y.Accepted? then Accepted(x.value + [c] + y.value) else Denied
  }

  /** No match spans a separator, so substitution works on the two sides separately. */
  lemma {:induction false} SubstituteSplits(a: string, c: char, b: string, labels: map<int, string>)
    requires Separates(c)
    ensures Substitute(a + [c] + b, labels) == Chain(Substitute(a, labels), c, Substitute(b, labels))
    decreases |a|
  {
    hide Matches, MatchNumber, Separates;
    var s := a + [c] + b;
    if a == "" {
      SeparatorDoesNotMatch(c, b);
      assert s == [c] + b && s[1..] == b;
    } else {
      MatchAcrossSeparator(a, c, b);
      var skip := if Matches(a) then MatchLength(a) else 1;
      assert s[skip..] == a[skip..] + [c] + b;
      SubstituteSplits(a[skip..], c, b, labels);
      var front := if Matches(a) && MatchNumber(a) in labels then labels[MatchNumber(a)] else [a[0]];
      var left, right := Substitute(a[skip..], labels), Substitute(b, labels);
      if left.Accepted? && right.Accepted? {
        assert front + (left.value + [c] + right.value) == (front + left.value) + [c] + right.value;
      }
    }
  }

  lemma SeparatorDoesNotMatch(c: char, b: string)
    requires Separates(c)
    ensures !Matches([c] + b)
  {
    var s := [c] + b;
    assert |s| > 14 ==> s[..14][0] == c;
  }

  lemma PrefixInParts(a: string, c: char, b: string, i: int)
    requires Separates(c) && PrefixAt(a + [c] + b, i)
    ensures PrefixAt(a, i) || PrefixAt(b, i - |a| - 1)
  {
    var s := a + [c] + b;
    var found := s[i..i + 14];
    assert forall k :: 0 <= k < 14 ==> FD_PREFIX[k] != c;
    assert forall k :: i <= k < i + 14 ==> s[k] == found[k - i];
    assert s[|a|] == c;
    if i > |a| {
      assert b[i - |a| - 1..i - |a| + 13] == found;
    } else {
      assert a[i..i + 14] == found;
    }
  }

  /** No occurrence of the prefix spans a separator. */
  lemma ContainsSplits(a: string, c: char, b: string)
    requires Separates(c)
    ensures ContainsPrefix(a + [c] + b) ==> ContainsPrefix(a) || ContainsPrefix(b)
  {
    hide PrefixAt, Separates;
    var s := a + [c] + b;
    if i :| 0 <= i <= |s| && PrefixAt(s, i) {
      PrefixInParts(a, c, b, i);
      PrefixBounds(a, i);
      PrefixBounds(b, i - |a| - 1);
    }
  }

  lemma PrefixBounds(s: string, i: int)
    ensures PrefixAt(s, i) ==> 0 <= i <= |s|
  {
  }

  lemma ContainsTail(s: string)
    requires s != ""
    ensures Matches(s) || ContainsPrefix(s[1..]) ==> ContainsPrefix(s)
  {
    if Matches(s) {
      assert PrefixAt(s, 0);
    }
    if i :| 0 <= i <= |s[1..]| && PrefixAt(s[1..], i) {
      assert s[i + 1..i + 15] == s[1..][i..i + 14];
      assert PrefixAt(s, i + 1);
    }
  }

  lemma {:induction false} SubstituteClean(s: string, labels: map<int, string>)
    requires !ContainsPrefix(s)
    ensures Substitute(s, labels) == Accepted(s)
  {
    hide ContainsPrefix, Matches;
    if s != "" {
      ContainsTail(s);
      SubstituteClean(s[1..], labels);
      assert [s[0]] + s[1..] == s;
    }
  }

  /** A slash is never followed by `p`, so no descriptor prefix starts here. */
  predicate NoProc(s: string) {
    forall i :: 0 <= i < |s| - 1 && s[i] == '/' ==> s[i + 1] != 'p'
  }

  lemma NoProcIsClean(s: string)
    ensures ContainsPrefix(s) ==> !NoProc(s)
  {
    if i :| 0 <= i <= |s| && PrefixAt(s, i) {
      var found := s[i..i + 14];
      assert found[0] == '/' && found[1] == 'p';
      assert s[i] == '/' && s[i + 1] == 'p';
    }
  }

  /** A bound descriptor path, not followed by a digit, becomes its label. */
  lemma SubstituteFd(n: nat, tail: string, labels: map<int, string>)
    requires n in labels && (tail != "" ==> !IsDigit(tail[0]))
    ensures Substitute(FdPath(n) + tail, labels)
         == if Substitute(tail, labels).Accepted? then Accepted(labels[n] + Substitute(tail, labels).value) else Denied
  {
    hide Decimal, Number, DigitRun;
    var s := FdPath(n) + tail;
    FdPathMatches(n, tail);
    assert s[14 + |Decimal(n)|..] == tail;
  }

  lemma FdPathMatches(n: nat, tail: string)
    requires tail != "" ==> !IsDigit(tail[0])
    ensures var s := FdPath(n) + tail;
      Matches(s) && MatchNumber(s) == n && MatchLength(s) == 14 + |Decimal(n)|
  {
    hide Decimal, Number, DigitRun;
    var s := FdPath(n) + tail;
    NumberOfDecimal(n);
    RunOfDigits(Decimal(n), tail);
    assert s[14..] == Decimal(n) + tail;
    assert s[..14] == FD_PREFIX && s[14] == Decimal(n)[0];
    assert Decimal(n)[0] in Decimal(n);
    assert s[14..][..|Decimal(n)|] == Decimal(n);
  }

  lemma {:induction false} RunOfDigits(ds: string, tail: string)
    requires AllDigits(ds) && (tail != "" ==> !IsDigit(tail[0]))
    ensures DigitRun(ds + tail) == |ds|
  {
    if ds != "" {
      assert (ds + tail)[1..] == ds[1..] + tail;
      RunOfDigits(ds[1..], tail);
    } else {
      assert ds + tail == tail;
    }
  }

  // ----- values that project -----

  /** `raw` becomes `out`, with no descriptor left. */
  ghost predicate Projects(raw: string, out: string, labels: map<int, string>) {
    Substitute(raw, labels) == Accepted(out) && !ContainsPrefix(out)
  }

  lemma CleanProjects(s: string, labels: map<int, string>)
    requires !ContainsPrefix(s)
    ensures Projects(s, s, labels)
  {
    SubstituteClean(s, labels);
  }

  lemma LiteralProjects(s: string, labels: map<int, string>)
    requires NoProc(s)
    ensures Projects(s, s, labels)
  {
    NoProcIsClean(s);
    SubstituteClean(s, labels);
  }

  lemma ChainProjects(a: string, a': string, c: char, b: string, b': string, labels: map<int, string>)
    requires Separates(c) && Projects(a, a', labels) && Projects(b, b', labels)
    ensures Projects(a + [c] + b, a' + [c] + b', labels)
  {
    SubstituteSplits(a, c, b, labels);
    ContainsSplits(a', c, b');
  }

  /** A role's path with a literal suffix projects to the role's label with that suffix. */
  lemma RoleProjects(d: Descriptors, r: Role, suffix: string)
    requires ValidDescriptors(d) && NoProc(suffix) && (suffix != "" ==> !IsDigit(suffix[0]))
    ensures Projects(FdPath(d[r]) + suffix, RoleLabel(r) + suffix, Replacements(d))
  {
    hide Replacements, Substitute, FdPath, ContainsPrefix;
    var labels := Replacements(d);
    NoProcIsClean(suffix);
    SubstituteClean(suffix, labels);
    SubstituteFd(d[r], suffix, labels);
    LabelIsClean(r, suffix);
  }

  lemma LabelIsClean(r: Role, suffix: string)
    requires !ContainsPrefix(suffix)
    ensures !ContainsPrefix(RoleLabel(r) + suffix)
  {
    hide ContainsPrefix, LabelBody;
    var body := LabelBody(r);
    LabelBodyIsClean(r);
    NoProcIsClean(body);
    ContainsSplits(body, '@', suffix);
    assert body + ['@'] + suffix == RoleLabel(r) + suffix;
  }

  lemma LabelBodyIsClean(r: Role)
    ensures NoProc(LabelBody(r))
  {
    match r {
      case CargoHomeInput => assert NoProc("@CARGO_HOME_INPUT");
      case Target => assert NoProc("@TARGET_SCRATCH");
      case ZigRoot => assert NoProc("@ZIG_ROOT");
      case Rustc => assert NoProc("@RUSTC");
      case TargetLinker => assert NoProc("@TARGET_LINKER");
      case HostLinkerWrapper => assert NoProc("@HOST_LINKER_WRAPPER");
      case Zig => assert NoProc("@ZIG_DRIVER");
      case Cargo => assert NoProc("@CARGO");
    }
  }

  ghost predicate AllProject(raws: seq<string>, outs: seq<string>, labels: map<int, string>) {
    |raws| == |outs| && forall i :: 0 <= i < |raws| ==> Projects(raws[i], outs[i], labels)
  }

  lemma {:induction false} JoinedProjects(raws: seq<string>, outs: seq<string>, labels: map<int, string>)
    requires AllProject(raws, outs, labels)
    ensures Projects(JoinFlags(raws), JoinFlags(outs), labels)
  {
    hide Projects;
    if raws == [] {
      assert NoProc("");
      LiteralProjects("", labels);
    } else if |raws| > 1 {
      JoinedProjects(raws[1..], outs[1..], labels);
      assert Projects(raws[0], outs[0], labels);
      ChainProjects(raws[0], outs[0], UNIT_SEPARATOR, JoinFlags(raws[1..]), JoinFlags(outs[1..]), labels);
    }
  }

  lemma AppendProject(a: seq<string>, a': seq<string>, b: seq<string>, b': seq<string>, labels: map<int, string>)
    requires AllProject(a, a', labels) && AllProject(b, b', labels)
    ensures AllProject(a + b, a' + b', labels)
  {
    hide Projects;
  }

  lemma RemapProjects(source: string, source': string, replacement: string, labels: map<int, string>)
    requires Projects(source, source', labels) && NoProc(replacement)
    ensures AllProject(Remap(source, replacement), Remap(source', replacement), labels)
  {
    hide Projects;
    assert NoProc("--remap-path-prefix");
    LiteralProjects("--remap-path-prefix", labels);
    LiteralProjects(replacement, labels);
    ChainProjects(source, source', '=', replacement, replacement, labels);
    assert source + "=" + replacement == source + ['='] + replacement;
    assert source' + "=" + replacement == source' + ['='] + replacement;
  }

  // ----- the receipt is the template -----

  /** Caller paths that do not name inherited descriptors themselves. */
  predicate CleanCallers(c: Callers) {
    && !ContainsPrefix(c.workspace) && !ContainsPrefix(c.androidRoot) && !ContainsPrefix(c.artifactRoot)
    && !ContainsPrefix(c.manifestParent) && !ContainsPrefix(c.outputParent)
    && !ContainsPrefix(c.rustRoot) && !ContainsPrefix(c.zigRoot)
  }

  function Labels(): Role -> string {
    (r: Role) => RoleLabel(r)
  }

  /** Every role's path, bare or with a suffix, projects to its label. */
  lemma PathProjects(d: Descriptors, r: Role)
    requires ValidDescriptors(d)
    ensures Projects(PathIn(d)(r), Labels()(r), Replacements(d))
  {
    hide Replacements, Projects, FdPath, RoleLabel;
    assert NoProc("");
    RoleProjects(d, r, "");
    assert FdPath(d[r]) + "" == FdPath(d[r]) && RoleLabel(r) + "" == RoleLabel(r);
  }

  lemma SuffixProjects(d: Descriptors, r: Role, suffix: string)
    requires ValidDescriptors(d) && NoProc(suffix) && (suffix != "" ==> !IsDigit(suffix[0]))
    ensures Projects(PathIn(d)(r) + suffix, Labels()(r) + suffix, Replacements(d))
  {
    hide Replacements, Projects, FdPath, RoleLabel;
    RoleProjects(d, r, suffix);
  }

  lemma BaseFlagsProject(d: Descriptors)
    requires ValidDescriptors(d)
    ensures AllProject(BaseFlags(PathIn(d)), BaseFlags(Labels()), Replacements(d))
  {
    hide Replacements, Projects, PathIn, Labels, ValidDescriptors;
    var labels := Replacements(d);
    LiteralProjects("-C", labels);
    LiteralProjects("debuginfo=0", labels);
    LiteralProjects("strip=symbols", labels);
    LiteralProjects("codegen-units=1", labels);
    LiteralProjects("linker", labels);
    LiteralProjects("linker-flavor=ld.lld", labels);
    LiteralProjects("link-arg=--build-id=sha1", labels);
    PathProjects(d, TargetLinker);
    ChainProjects("linker", "linker", '=', PathIn(d)(TargetLinker), Labels()(TargetLinker), labels);
    assert "linker" + "=" == "linker" + ['='];
  }

  /** Pairs whose sources project and whose replacements are literal. */
  ghost predicate RemapsProject(raws: seq<(string, string)>, outs: seq<(string, string)>, labels: map<int, string>) {
    |raws| == |outs| && forall i :: 0 <= i < |raws| ==>
      Projects(raws[i].0, outs[i].0, labels) && raws[i].1 == outs[i].1 && NoProc(raws[i].1)
  }

  lemma {:induction false} RemapFlagsProject(raws: seq<(string, string)>, outs: seq<(string, string)>,
                                             labels: map<int, string>)
    requires RemapsProject(raws, outs, labels)
    ensures AllProject(RemapFlags(raws), RemapFlags(outs), labels)
  {
    hide Projects, NoProc;
    if raws != [] {
      assert Projects(raws[0].0, outs[0].0, labels);
      RemapProjects(raws[0].0, outs[0].0, raws[0].1, labels);
      RemapFlagsProject(raws[1..], outs[1..], labels);
      AppendProject(Remap(raws[0].0, raws[0].1), Remap(outs[0].0, outs[0].1), RemapFlags(raws[1..]),
                    RemapFlags(outs[1..]), labels);
    }
  }

  lemma ReplacementsAreLiteral()
    ensures NoProc("/usr/src/trillionnium-os") && NoProc("/usr/src/trillionnium-target")
    ensures NoProc("/usr/src/trillionnium-rust-toolchain") && NoProc("/usr/src/trillionnium-cargo-home-input")
    ensures NoProc("/usr/src/trillionnium-cargo-home") && NoProc("/usr/src/trillionnium-zig-toolchain")
  {
  }

  lemma CallerReplacementsAreLiteral()
    ensures NoProc("/usr/src/trillionnium-android") && NoProc("/usr/src/trillionnium-empty-artifacts")
    ensures NoProc("/usr/src/trillionnium-manifest-parent") && NoProc("/usr/src/trillionnium-output-parent")
  {
  }

  lemma RemapsAllProject(callers: Callers, d: Descriptors)
    requires ValidDescriptors(d) && CleanCallers(callers)
    ensures RemapsProject(Remaps(callers, PathIn(d)), Remaps(callers, Labels()), Replacements(d))
  {
    hide Replacements, Projects, PathIn, Labels, ValidDescriptors, ContainsPrefix;
    var labels := Replacements(d);
    ReplacementsAreLiteral();
    CallerReplacementsAreLiteral();
    PathProjects(d, Target);
    PathProjects(d, CargoHomeInput);
    PathProjects(d, ZigRoot);
    SuffixProjects(d, Target, "/cargo-home");
    CleanProjects(callers.workspace, labels);
    CleanProjects(callers.androidRoot, labels);
    CleanProjects(callers.artifactRoot, labels);
    CleanProjects(callers.manifestParent, labels);
    CleanProjects(callers.outputParent, labels);
    CleanProjects(callers.rustRoot, labels);
    CleanProjects(callers.zigRoot, labels);
    hide NoProc;
  }

  lemma RustFlagsProject(callers: Callers, d: Descriptors)
    requires ValidDescriptors(d) && CleanCallers(callers)
    ensures Projects(JoinFlags(RustFlags(callers, PathIn(d))), JoinFlags(RustFlags(callers, Labels())), Replacements(d))
  {
    hide Replacements, Projects, PathIn, Labels, ValidDescriptors, CleanCallers, BaseFlags, Remaps, RemapFlags;
    hide JoinFlags, AllProject;
    var labels := Replacements(d);
    BaseFlagsProject(d);
    RemapsAllProject(callers, d);
    RemapFlagsProject(Remaps(callers, PathIn(d)), Remaps(callers, Labels()), labels);
    AppendProject(BaseFlags(PathIn(d)), BaseFlags(Labels()), RemapFlags(Remaps(callers, PathIn(d))),
                  RemapFlags(Remaps(callers, Labels())), labels);
    JoinedProjects(RustFlags(callers, PathIn(d)), RustFlags(callers, Labels()), labels);
  }

  ghost predicate VariablesProject(env: Environment, outs: Environment, labels: map<int, string>) {
    |env| == |outs| && forall i :: 0 <= i < |env| ==> env[i].0 == outs[i].0 && Projects(env[i].1, outs[i].1, labels)
  }

  lemma {:induction false} ProjectAllVariables(env: Environment, outs: Environment, labels: map<int, string>)
    requires VariablesProject(env, outs, labels)
    ensures ProjectAll(env, labels) == Accepted(outs)
  {
    hide Substitute, ContainsPrefix;
    if env != [] {
      assert Projects(env[0].1, outs[0].1, labels);
      ProjectAllVariables(env[1..], outs[1..], labels);
      assert outs == [outs[0]] + outs[1..];
    }
  }

  lemma TemplateProjects(callers: Callers, d: Descriptors)
    requires ValidDescriptors(d) && CleanCallers(callers)
    ensures VariablesProject(Template(callers, PathIn(d)), Template(callers, Labels()), Replacements(d))
  {
    hide Replacements, Projects, PathIn, Labels, ValidDescriptors, CleanCallers, JoinFlags, RustFlags;
    var labels := Replacements(d);
    RustFlagsProject(callers, d);
    LiteralProjects("1", labels);
    LiteralProjects("0", labels);
    LiteralProjects("true", labels);
    LiteralProjects("C", labels);
    LiteralProjects("", labels);
    LiteralProjects("1785110400", labels);
    LiteralProjects("UTC", labels);
    PathProjects(d, HostLinkerWrapper);
    PathProjects(d, Target);
    PathProjects(d, Rustc);
    PathProjects(d, Zig);
    SuffixProjects(d, Target, "/cargo-home");
    SuffixProjects(d, Target, "/home");
    SuffixProjects(d, Target, "/tmp");
    SuffixProjects(d, Target, "/zig-global-cache");
    SuffixProjects(d, Target, "/zig-local-cache");
    SuffixProjects(d, ZigRoot, "/lib");
    hide NoProc;
  }

  /** The receipt of a built environment is the same environment with every descriptor path replaced by its
      role's label, whatever numbers the run was given. */
  lemma ReceiptIsTemplate(callers: Callers, d: Descriptors)
    requires ValidDescriptors(d) && CleanCallers(callers)
    ensures BuildEnvironment(callers, d).Accepted?
    ensures Receipt(BuildEnvironment(callers, d).value, d) == Accepted(Template(callers, Labels()))
  {
    hide Template, Labels, PathIn, Replacements, ProjectAll, CleanCallers;
    TemplateProjects(callers, d);
    ProjectAllVariables(Template(callers, PathIn(d)), Template(callers, Labels()), Replacements(d));
  }

  /** Receipt independence: two runs with different descriptor numbers have the same receipt environment,
      and distinct roles keep distinct labels in it. */
  lemma ReceiptIgnoresAllocation(callers: Callers, d1: Descriptors, d2: Descriptors)
    requires ValidDescriptors(d1) && ValidDescriptors(d2) && CleanCallers(callers)
    ensures BuildEnvironment(callers, d1).Accepted? && BuildEnvironment(callers, d2).Accepted?
    ensures Receipt(BuildEnvironment(callers, d1).value, d1) == Receipt(BuildEnvironment(callers, d2).value, d2)
    ensures Receipt(BuildEnvironment(callers, d1).value, d1).Accepted?
    ensures forall r, q :: RoleLabel(r) == RoleLabel(q) ==> r == q
  {
    hide BuildEnvironment, Receipt, Template, ValidDescriptors, CleanCallers, RoleLabel;
    ReceiptIsTemplate(callers, d1);
    ReceiptIsTemplate(callers, d2);
    forall r, q | RoleLabel(r) == RoleLabel(q) ensures r == q {
      LabelsAreDistinct(r, q);
    }
  }

  lemma LabelsAreDistinct(r: Role, q: Role)
    requires RoleLabel(r) == RoleLabel(q)
    ensures r == q
  {
    var a, b := RoleLabel(r), RoleLabel(q);
    assert a[1] == b[1] && a[2] == b[2] && |a| == |b|;
  }

  // ----- unbound descriptors -----

  /** A match never starts inside another match. */
  lemma NoMatchInside(s: string, i: nat)
    requires Matches(s) && 0 < i < MatchLength(s) && i <= |s|
    ensures !Matches(s[i..])
  {
    var t := s[i..];
    if i >= 14 {
      assert s[i] == s[14..][..DigitRun(s[14..])][i - 14];
      assert IsDigit(s[i]);
    } else {
      assert s[i] == FD_PREFIX[i];
      assert i < 13 ==> s[i + 1] == FD_PREFIX[i + 1];
    }
    MatchStart(t);
  }

  lemma MatchStart(s: string)
    ensures Matches(s) ==> |s| > 14 && s[0] == '/' && s[1] == 'p'
  {
    if Matches(s) {
      var found := s[..14];
      assert found[0] == '/' && found[1] == 'p';
    }
  }

  /** Any occurrence of a descriptor path whose full numeral is unbound makes the projection fail, even when a
      shorter prefix of that numeral is bound. */
  lemma {:induction false} UnboundIsRejected(s: string, labels: map<int, string>, i: nat)
    requires i <= |s| && Matches(s[i..]) && MatchNumber(s[i..]) !in labels
    ensures Substitute(s, labels) == Denied
    decreases |s|
  {
    hide Matches, MatchNumber;
    assert s[0..] == s;
    MatchStart(s[i..]);
    if i > 0 {
      var skip := if Matches(s) then MatchLength(s) else 1;
      if Matches(s) && i < skip {
        NoMatchInside(s, i);
      }
      assert s[i..] == s[skip..][i - skip..];
      UnboundIsRejected(s[skip..], labels, i - skip);
    }
  }

  /** An environment naming an unbound descriptor has no receipt. */
  lemma {:induction false} UnboundEnvironmentIsRejected(env: Environment, d: Descriptors, v: nat, i: nat)
    requires v < |env| && i <= |env[v].1| && Matches(env[v].1[i..])
    requires forall r :: r in d ==> d[r] != MatchNumber(env[v].1[i..])
    ensures Receipt(env, d) == Denied
  {
    if ValidDescriptors(d) {
      UnboundIsRejected(env[v].1, Replacements(d), i);
      DeniedVariable(env, Replacements(d), v);
    }
  }

  lemma {:induction false} DeniedVariable(env: Environment, labels: map<int, string>, v: nat)
    requires v < |env| && Substitute(env[v].1, labels).Denied?
    ensures ProjectAll(env, labels) == Denied
  {
    if v > 0 {
      DeniedVariable(env[1..], labels, v - 1);
    }
  }

  // ----- which variable names which role -----

  /** The code-generation flags name the target linker. */
  ghost predicate FlagsNameLinker(flags: seq<string>, path: Role -> string) {
    && |flags| == 34 && (forall k :: 0 <= k < 12 && k % 2 == 0 ==> flags[k] == "-C")
    && flags[1] == "debuginfo=0" && flags[3] == "strip=symbols" && flags[5] == "codegen-units=1"
    && flags[7] == "linker" + "=" + path(TargetLinker)
    && flags[9] == "linker-flavor=ld.lld" && flags[11] == "link-arg=--build-id=sha1"
  }

  /** The remap flags rewrite the paths under three roles and the caller's seven. */
  ghost predicate FlagsNameRoles(flags: seq<string>, callers: Callers, path: Role -> string) {
    && FlagsNameLinker(flags, path)
    && (forall k :: 12 <= k < 34 && k % 2 == 0 ==> flags[k] == "--remap-path-prefix")
    && flags[13] == callers.workspace + "=" + "/usr/src/trillionnium-os"
    && flags[15] == path(Target) + "=" + "/usr/src/trillionnium-target"
    && flags[17] == callers.rustRoot + "=" + "/usr/src/trillionnium-rust-toolchain"
    && flags[19] == path(CargoHomeInput) + "=" + "/usr/src/trillionnium-cargo-home-input"
    && flags[21] == path(Target) + "/cargo-home" + "=" + "/usr/src/trillionnium-cargo-home"
    && flags[23] == callers.zigRoot + "=" + "/usr/src/trillionnium-zig-toolchain"
    && flags[25] == path(ZigRoot) + "=" + "/usr/src/trillionnium-zig-toolchain"
    && flags[27] == callers.androidRoot + "=" + "/usr/src/trillionnium-android"
    && flags[29] == callers.artifactRoot + "=" + "/usr/src/trillionnium-empty-artifacts"
    && flags[31] == callers.manifestParent + "=" + "/usr/src/trillionnium-manifest-parent"
    && flags[33] == callers.outputParent + "=" + "/usr/src/trillionnium-output-parent"
  }

  /** The environment gives each variable the path of its own role. */
  ghost predicate NamesRoles(env: Environment, callers: Callers, path: Role -> string) {
    && |env| == 21
    && env[12] == ("RUSTC", path(Rustc)) && env[16] == ("TRILLIONNIUM_ZIG_REAL", path(Zig))
    && env[6] == ("CARGO_TARGET_X86_64_UNKNOWN_LINUX_GNU_LINKER", path(HostLinkerWrapper))
    && env[7] == ("CARGO_TARGET_DIR", path(Target)) && env[3] == ("CARGO_HOME", path(Target) + "/cargo-home")
    && env[8] == ("HOME", path(Target) + "/home") && env[15] == ("TMPDIR", path(Target) + "/tmp")
    && env[18] == ("ZIG_GLOBAL_CACHE_DIR", path(Target) + "/zig-global-cache")
    && env[19] == ("ZIG_LIB_DIR", path(ZigRoot) + "/lib")
    && env[20] == ("ZIG_LOCAL_CACHE_DIR", path(Target) + "/zig-local-cache")
    && env[2].0 == "CARGO_ENCODED_RUSTFLAGS"
    && exists flags :: FlagsNameRoles(flags, callers, path) && env[2].1 == JoinFlags(flags)
  }

  /** Nothing else comes in from outside: no search path, no network, one job, fixed locale, zone and timestamp. */
  ghost predicate IsClosed(env: Environment) {
    && |env| == 21
    && env[11] == ("PATH", "") && env[5] == ("CARGO_NET_OFFLINE", "true") && env[0] == ("CARGO_BUILD_JOBS", "1")
    && env[1] == ("CARGO_CACHE_RUSTC_INFO", "0") && env[4] == ("CARGO_INCREMENTAL", "0")
    && env[9] == ("LANG", "C") && env[10] == ("LC_ALL", "C") && env[17] == ("TZ", "UTC")
    && env[13] == ("RUST_BACKTRACE", "0") && env[14] == ("SOURCE_DATE_EPOCH", "1785110400")
  }

  /** The path of a role's descriptor. */
  ghost predicate IsDescriptorPath(path: Role -> string, d: Descriptors) {
    forall r :: r in d && d[r] >= 0 && path(r) == "/proc/self/fd/" + Decimal(d[r])
  }

  /** The receipt's name of each role. */
  ghost predicate IsLabel(path: Role -> string) {
    && path(Rustc) == "@RUSTC@" && path(Zig) == "@ZIG_DRIVER@" && path(ZigRoot) == "@ZIG_ROOT@"
    && path(TargetLinker) == "@TARGET_LINKER@" && path(HostLinkerWrapper) == "@HOST_LINKER_WRAPPER@"
    && path(CargoHomeInput) == "@CARGO_HOME_INPUT@" && path(Target) == "@TARGET_SCRATCH@"
    && path(Cargo) == "@CARGO@"
  }

  lemma RemapFlagAt(remaps: seq<(string, string)>, k: nat)
    requires k < |remaps|
    ensures |RemapFlags(remaps)| == 2 * |remaps|
    ensures RemapFlags(remaps)[2 * k] == "--remap-path-prefix"
    ensures RemapFlags(remaps)[2 * k + 1] == remaps[k].0 + "=" + remaps[k].1
    decreases remaps
  {
    if |remaps| == 1 {
      assert remaps[1..] == [];
    } else {
      RemapFlagAt(remaps[1..], if k > 0 then k - 1 else 0);
    }
  }

  lemma TemplateFlags(callers: Callers, path: Role -> string)
    ensures FlagsNameRoles(RustFlags(callers, path), callers, path)
  {
    var remaps, flags := Remaps(callers, path), RustFlags(callers, path);
    hide RemapFlags;
    RemapFlagAt(remaps, 0);
    BaseFlagsNameLinker(path, RemapFlags(remaps));
    forall k: nat | k < 11 ensures FlagPair(flags, remaps, k) {
      RemapFlagAt(remaps, k);
    }
    hide BaseFlags;
    assert FlagPair(flags, remaps, 0) && FlagPair(flags, remaps, 1) && FlagPair(flags, remaps, 2);
    assert FlagPair(flags, remaps, 3) && FlagPair(flags, remaps, 4) && FlagPair(flags, remaps, 5);
    assert FlagPair(flags, remaps, 6) && FlagPair(flags, remaps, 7) && FlagPair(flags, remaps, 8);
    assert FlagPair(flags, remaps, 9) && FlagPair(flags, remaps, 10);
  }

  ghost predicate FlagPair(flags: seq<string>, remaps: seq<(string, string)>, k: nat)
    requires k < |remaps|
  {
    && |flags| == 34
    && 13 + 2 * k < 34 && flags[12 + 2 * k] == "--remap-path-prefix"
    && flags[13 + 2 * k] == remaps[k].0 + "=" + remaps[k].1
  }

  lemma BaseFlagsNameLinker(path: Role -> string, more: seq<string>)
    requires |more| == 22
    ensures |BaseFlags(path)| == 12 && FlagsNameLinker(BaseFlags(path) + more, path)
  {
  }

  lemma TemplateNamesRoles(callers: Callers, path: Role -> string)
    ensures NamesRoles(Template(callers, path), callers, path) && IsClosed(Template(callers, path))
  {
    hide JoinFlags, RustFlags, FlagsNameRoles;
    TemplateFlags(callers, path);
  }

  lemma LabelsAreSpelled()
    ensures IsLabel(Labels())
  {
    assert "@RUSTC" + "@" == "@RUSTC@" && "@ZIG_DRIVER" + "@" == "@ZIG_DRIVER@" && "@ZIG_ROOT" + "@" == "@ZIG_ROOT@";
    assert "@TARGET_LINKER" + "@" == "@TARGET_LINKER@" && "@CARGO" + "@" == "@CARGO@";
    assert "@HOST_LINKER_WRAPPER" + "@" == "@HOST_LINKER_WRAPPER@";
    assert "@CARGO_HOME_INPUT" + "@" == "@CARGO_HOME_INPUT@" && "@TARGET_SCRATCH" + "@" == "@TARGET_SCRATCH@";
  }

  lemma EveryRoleIsBuildInput(r: Role)
    ensures r in BUILD_INPUT_ROLES
  {
  }

  /** Valid are eight different descriptors, none of them a standard stream. */
  lemma DescriptorsIff(d: Descriptors)
    ensures ValidDescriptors(d) <==>
      && (forall r: Role :: r in d && d[r] > 2)
      && forall r: Role, q: Role :: r in d && q in d && r != q ==> d[r] != d[q]
  {
    forall r: Role ensures r in BUILD_INPUT_ROLES {
      EveryRoleIsBuildInput(r);
    }
    assert (forall r: Role :: r in d) <==> d.Keys == BUILD_INPUT_ROLES by {
      assert (forall r: Role :: r in d) ==> forall r :: r in BUILD_INPUT_ROLES <==> r in d.Keys;
      assert d.Keys == BUILD_INPUT_ROLES ==> forall r: Role :: r in d.Keys;
    }
  }

  lemma PathsAreDescriptors(d: Descriptors)
    requires ValidDescriptors(d)
    ensures IsDescriptorPath(PathIn(d), d)
  {
    hide Decimal;
    forall r: Role ensures r in d && d[r] >= 0 && PathIn(d)(r) == "/proc/self/fd/" + Decimal(d[r]) {
      EveryRoleIsBuildInput(r);
      assert r in d.Keys;
    }
  }

  /** Every build environment is closed and gives each role's variable the path of that role's descriptor, and its
      receipt gives the same variable that role's label. */
  lemma EnvironmentNamesRoles(callers: Callers, d: Descriptors)
    requires ValidDescriptors(d)
    ensures BuildEnvironment(callers, d).Accepted?
    ensures IsClosed(BuildEnvironment(callers, d).value)
    ensures exists path :: IsDescriptorPath(path, d) && NamesRoles(BuildEnvironment(callers, d).value, callers, path)
    ensures CleanCallers(callers) ==>
      && Receipt(BuildEnvironment(callers, d).value, d).Accepted?
      && exists path :: IsLabel(path) && NamesRoles(Receipt(BuildEnvironment(callers, d).value, d).value, callers, path)
  {
    hide NamesRoles, IsClosed, IsLabel, IsDescriptorPath, CleanCallers, Template, PathIn, Labels;
    TemplateNamesRoles(callers, PathIn(d));
    TemplateNamesRoles(callers, Labels());
    LabelsAreSpelled();
    PathsAreDescriptors(d);
    if CleanCallers(callers) {
      ReceiptIsTemplate(callers, d);
    }
  }
}
