/** Lexical POSIX paths as the tools compute with them: `split`, `join`, `PurePosixPath` parts,
    `os.path.normpath` and `os.path.relpath`.  Bytes are characters below 256, so the same functions
    serve decoded member names and raw header fields. */
module Paths {
  // ----- split and join -----

  /** `s.split("/")`. */
  function Split(s: string): (r: seq<string>)
    ensures |r| >= 1
  {
    if s == "" then [""]
    else
      var rest := Split(s[1..]);
      if s[0] == '/' then [""] + rest else [[s[0]] + rest[0]] + rest[1..]
  }

  /** `"/".join(cs)`. */
  function Join(cs: seq<string>): string {
    if cs == [] then "" else if |cs| == 1 then cs[0] else cs[0] + "/" + Join(cs[1..])
  }

  ghost predicate SlashFree(cs: seq<string>) {
    forall i :: 0 <= i < |cs| ==> '/' !in cs[i]
  }

  lemma {:induction false} SplitIsSlashFree(s: string)
    ensures SlashFree(Split(s))
    ensures forall i, c :: 0 <= i < |Split(s)| && c in Split(s)[i] ==> c in s
  {
    if s != "" {
      SplitIsSlashFree(s[1..]);
      var rest := Split(s[1..]);
      forall i, c | 0 <= i < |Split(s)| && c in Split(s)[i] ensures c in s {
        if s[0] == '/' {
          assert c in rest[i - 1] && c in s[1..];
        } else if i > 0 || c != s[0] {
          assert c in rest[i] && c in s[1..];
        }
      }
    }
  }

  lemma {:induction false} SplitCons(c: string, s: string)
    requires '/' !in c
    ensures Split(c + "/" + s) == [c] + Split(s)
  {
    var whole := c + "/" + s;
    if c == "" {
      assert whole[1..] == s;
    } else {
      assert whole[1..] == c[1..] + "/" + s;
      SplitCons(c[1..], s);
      assert [c[0]] + c[1..] == c;
    }
  }

  lemma {:induction false} SplitSingle(c: string)
    requires '/' !in c
    ensures Split(c) == [c]
  {
    if c != "" {
      SplitSingle(c[1..]);
      assert [c[0]] + c[1..] == c;
    }
  }

  lemma {:induction false} SplitJoin(cs: seq<string>)
    requires cs != [] && SlashFree(cs)
    ensures Split(Join(cs)) == cs
  {
    if |cs| == 1 {
      SplitSingle(cs[0]);
    } else {
      SplitJoin(cs[1..]);
      SplitCons(cs[0], Join(cs[1..]));
      assert [cs[0]] + cs[1..] == cs;
    }
  }

  lemma {:induction false} JoinSplit(s: string)
    ensures Join(Split(s)) == s
  {
    if s != "" {
      JoinSplit(s[1..]);
      var rest := Split(s[1..]);
      if s[0] == '/' {
        assert ([""] + rest)[1..] == rest;
        assert "" + "/" + s[1..] == s;
      } else {
        var whole := [[s[0]] + rest[0]] + rest[1..];
        if |rest| == 1 {
          assert [s[0]] + s[1..] == s;
        } else {
          assert whole[1..] == rest[1..];
          assert ([s[0]] + rest[0]) + "/" + Join(rest[1..]) == [s[0]] + s[1..] == s;
        }
      }
    }
  }

  /** `s.count("/")`. */
  function CountSlashes(s: string): nat {
    if s == "" then 0 else (if s[0] == '/' then 1 else 0) + CountSlashes(s[1..])
  }

  lemma {:induction false} CountSlashesSplit(s: string)
    ensures |Split(s)| == CountSlashes(s) + 1
  {
    if s != "" {
      CountSlashesSplit(s[1..]);
    }
  }

  // ----- PurePosixPath parts of a relative path -----

  predicate ProperPart(c: string) {
    c != "" && c != "." && '/' !in c
  }

  ghost predicate Proper(cs: seq<string>) {
    forall i :: 0 <= i < |cs| ==> ProperPart(cs[i])
  }

  /** Proper parts that never climb: the shape of a name inside the tree. */
  ghost predicate Descending(cs: seq<string>) {
    Proper(cs) && forall i :: 0 <= i < |cs| ==> cs[i] != ".."
  }

  function Keep(cs: seq<string>): seq<string> {
    if cs == [] then [] else (if cs[0] == "" || cs[0] == "." then [] else [cs[0]]) + Keep(cs[1..])
  }

  /** The parts of a relative `PurePosixPath`: empty and `.` components vanish. */
  function Parts(s: string): seq<string> {
    Keep(Split(s))
  }

  /** `as_posix`: the empty path prints as `.`. */
  function AsPosix(cs: seq<string>): string {
    if cs == [] then "." else Join(cs)
  }

  lemma {:induction false} KeepIsProper(cs: seq<string>)
    requires SlashFree(cs)
    ensures Proper(Keep(cs))
    ensures forall c :: c in Keep(cs) ==> c in cs
  {
    if cs != [] {
      KeepIsProper(cs[1..]);
    }
  }

  lemma {:induction false} KeepProper(cs: seq<string>)
    requires Proper(cs)
    ensures Keep(cs) == cs
  {
    if cs != [] {
      KeepProper(cs[1..]);
    }
  }

  lemma PartsAreProper(s: string)
    ensures Proper(Parts(s))
    ensures forall i, c :: 0 <= i < |Parts(s)| && c in Parts(s)[i] ==> c in s
  {
    SplitIsSlashFree(s);
    KeepIsProper(Split(s));
    forall i, c | 0 <= i < |Parts(s)| && c in Parts(s)[i] ensures c in s {
      assert Parts(s)[i] in Split(s);
    }
  }

  lemma PartsAsPosix(cs: seq<string>)
    requires Proper(cs)
    ensures Parts(AsPosix(cs)) == cs
  {
    if cs == [] {
      SplitSingle(".");
    } else {
      SplitJoin(cs);
      KeepProper(cs);
    }
  }

  // ----- normpath -----

  /** One component of a relative `normpath`: `..` cancels a name and piles up at the front. */
  function Climb(stack: seq<string>, c: string): seq<string> {
    if c != ".." then stack + [c]
    else if stack == [] || stack[|stack| - 1] == ".." then stack + [".."]
    else stack[..|stack| - 1]
  }

  function Norm(stack: seq<string>, cs: seq<string>): seq<string>
    decreases cs
  {
    if cs == [] then stack else Norm(Climb(stack, cs[0]), cs[1..])
  }

  /** `os.path.normpath` of a relative path. */
  function NormPath(s: string): string {
    AsPosix(Norm([], Parts(s)))
  }

  ghost predicate Escapes(cs: seq<string>) {
    cs != [] && cs[0] == ".."
  }

  /** The tools' test on the printed path: `resolved == ".."` or `resolved.startswith("../")`. */
  predicate PrintsEscape(s: string) {
    s == ".." || (|s| >= 3 && s[..3] == "../")
  }

  lemma {:induction false} NormIsProper(stack: seq<string>, cs: seq<string>)
    requires Proper(stack) && Proper(cs)
    ensures Proper(Norm(stack, cs))
    decreases cs
  {
    if cs != [] {
      NormIsProper(Climb(stack, cs[0]), cs[1..]);
    }
  }

  lemma {:induction false} NormAppend(stack: seq<string>, a: seq<string>, b: seq<string>)
    ensures Norm(stack, a + b) == Norm(Norm(stack, a), b)
    decreases a
  {
    if a == [] {
      assert a + b == b;
    } else {
      assert (a + b)[1..] == a[1..] + b;
      NormAppend(Climb(stack, a[0]), a[1..], b);
    }
  }

  lemma {:induction false} NormDescending(stack: seq<string>, cs: seq<string>)
    requires Descending(cs)
    ensures Norm(stack, cs) == stack + cs
    decreases cs
  {
    if cs != [] {
      NormDescending(stack + [cs[0]], cs[1..]);
      assert stack + [cs[0]] + cs[1..] == stack + cs;
    }
  }

  lemma PrintsEscapeIsSplit(s: string)
    ensures PrintsEscape(s) <==> Split(s)[0] == ".."
  {
    if s == ".." {
      SplitSingle("..");
    } else if PrintsEscape(s) {
      assert s == ".." + "/" + s[3..];
      SplitCons("..", s[3..]);
    }
    if Split(s)[0] == ".." {
      JoinSplit(s);
      var cs := Split(s);
      if |cs| > 1 {
        assert s == ".." + "/" + Join(cs[1..]);
        assert s[..3] == "../";
      }
    }
  }

  /** The printed test is the component test. */
  lemma PrintsEscapeIffEscapes(cs: seq<string>)
    requires Proper(cs)
    ensures PrintsEscape(AsPosix(cs)) <==> Escapes(cs)
  {
    PrintsEscapeIsSplit(AsPosix(cs));
    if cs == [] {
      SplitSingle(".");
    } else {
      SplitJoin(cs);
    }
  }

  // ----- relpath -----

  /** One component of an absolute `normpath`: `..` at the root stays at the root. */
  function ClampStep(stack: seq<string>, c: string): seq<string> {
    if c != ".." then stack + [c] else if stack == [] then [] else stack[..|stack| - 1]
  }

  /** Resolving `cs` from the directory `stack` of an absolute path. */
  function Clamp(stack: seq<string>, cs: seq<string>): seq<string>
    decreases cs
  {
    if cs == [] then stack else Clamp(ClampStep(stack, cs[0]), cs[1..])
  }

  function CommonPrefix(a: seq<string>, b: seq<string>): (n: nat)
    ensures n <= |a| && n <= |b| && a[..n] == b[..n]
    ensures n < |a| && n < |b| ==> a[n] != b[n]
  {
    if a == [] || b == [] || a[0] != b[0] then 0
    else
      var n := 1 + CommonPrefix(a[1..], b[1..]);
      assert a[..n] == [a[0]] + a[1..][..n - 1] && b[..n] == [b[0]] + b[1..][..n - 1];
      n
  }

  function Ups(n: nat): seq<string> {
    seq(n, _ => "..")
  }

  /** The way from `from` to `to`: up to the last common directory, then down. */
  function Way(from: seq<string>, to: seq<string>): seq<string> {
    var i := CommonPrefix(from, to);
    Ups(|from| - i) + to[i..]
  }

  /** `os.path.relpath(path, start)` for relative arguments, in a process whose working directory is `cwd`. */
  function RelPath(cwd: seq<string>, path: string, start: string): string {
    AsPosix(Way(Clamp([], cwd + Parts(start)), Clamp([], cwd + Parts(path))))
  }

  lemma {:induction false} ClampAppend(stack: seq<string>, a: seq<string>, b: seq<string>)
    ensures Clamp(stack, a + b) == Clamp(Clamp(stack, a), b)
    decreases a
  {
    if a == [] {
      assert a + b == b;
    } else {
      assert (a + b)[1..] == a[1..] + b;
      ClampAppend(ClampStep(stack, a[0]), a[1..], b);
    }
  }

  lemma {:induction false} ClampDescending(stack: seq<string>, cs: seq<string>)
    requires Descending(cs)
    ensures Clamp(stack, cs) == stack + cs
    decreases cs
  {
    if cs != [] {
      ClampDescending(stack + [cs[0]], cs[1..]);
      assert stack + [cs[0]] + cs[1..] == stack + cs;
    }
  }
}
