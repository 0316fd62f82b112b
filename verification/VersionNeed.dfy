/** `parse_version_need_providers` and `validate_stack_guard_loader_binding`: counted blocks of version
    requirements, and the proof that a loader dependency is bound to the stack guard alone. */
module VersionNeed {
  import opened Outcomes

  /** One line of `readelf` output as the two regular expressions classify it; the file pattern is tried first. */
  datatype Line = NeedFile(file: string, count: nat) | NeedName(version: string, index: nat) | OtherLine

  datatype Provider = Provider(file: string, version: string)

  // ----- which name belongs to which block -----

  /** How many name lines there are from `a` up to `b`. */
  function NamesIn(lines: seq<Line>, a: nat, b: nat): nat
    requires b <= |lines|
    decreases b
  {
    if a >= b then 0 else NamesIn(lines, a, b - 1) + (if lines[b - 1].NeedName? then 1 else 0)
  }

  ghost predicate NoFileIn(lines: seq<Line>, a: nat, b: nat)
    requires b <= |lines|
  {
    forall k :: a <= k < b ==> !lines[k].NeedFile?
  }

  /** Line `j` is one of the names declared by the nearest preceding file line `f`. */
  ghost predicate Belongs(lines: seq<Line>, f: nat, j: nat) {
    && f < j < |lines|
    && lines[f].NeedFile? && lines[j].NeedName? && NoFileIn(lines, f + 1, j)
    && NamesIn(lines, f + 1, j) < lines[f].count
  }

  /** The block of file line `f` runs to `k`, the next file line or the end. */
  ghost predicate BlockEnds(lines: seq<Line>, f: nat, k: nat) {
    f < k <= |lines| && lines[f].NeedFile? && NoFileIn(lines, f + 1, k) && (k == |lines| || lines[k].NeedFile?)
  }

  /** Every block declares at least one name and holds as many as it declares. */
  ghost predicate BlocksComplete(lines: seq<Line>) {
    && (forall f :: 0 <= f < |lines| && lines[f].NeedFile? ==> lines[f].count > 0)
    && (forall f: nat, k: nat :: BlockEnds(lines, f, k) ==> NamesIn(lines, f + 1, k) >= lines[f].count)
  }

  ghost predicate IndicesDistinct(lines: seq<Line>) {
    forall f: nat, j: nat, f': nat, j': nat ::
      Belongs(lines, f, j) && Belongs(lines, f', j') && lines[j].index == lines[j'].index ==> j == j'
  }

  function SumCounts(lines: seq<Line>, n: nat): nat
    requires n <= |lines|
  {
    if n == 0 then 0 else SumCounts(lines, n - 1) + (if lines[n - 1].NeedFile? then lines[n - 1].count else 0)
  }

  /** The providers found in the first `n` lines are exactly the names that belong to a block. */
  ghost predicate Records(lines: seq<Line>, n: nat, providers: map<nat, Provider>) {
    && (forall f: nat, j: nat :: Belongs(lines, f, j) && j < n ==>
          lines[j].index in providers && providers[lines[j].index] == Provider(lines[f].file, lines[j].version))
    && (forall i :: i in providers ==> exists f: nat, j: nat :: Belongs(lines, f, j) && j < n && lines[j].index == i)
  }

  /** The parser's variables after `n` lines, the last file line being `last`. */
  ghost predicate Tracks(lines: seq<Line>, n: nat, last: Option<nat>, current: Option<string>, remaining: nat)
    requires n <= |lines|
  {
    match last
    case None => NoFileIn(lines, 0, n) && remaining == 0 && current == None
    case Some(f) =>
      && f < n && lines[f].NeedFile? && NoFileIn(lines, f + 1, n)
      && (if NamesIn(lines, f + 1, n) < lines[f].count
          then remaining == lines[f].count - NamesIn(lines, f + 1, n) && current == Some(lines[f].file)
          else remaining == 0 && current == None)
  }

  /** In the first `n` lines every finished block was complete. */
  ghost predicate FinishedComplete(lines: seq<Line>, n: nat)
    requires n <= |lines|
  {
    && (forall f :: 0 <= f < n && lines[f].NeedFile? ==> lines[f].count > 0)
    && (forall f: nat, k: nat :: BlockEnds(lines, f, k) && k < n ==> NamesIn(lines, f + 1, k) >= lines[f].count)
  }

  /** `parse_version_need_providers`: a line sequence is accepted exactly when its blocks are complete and the
      declared indices distinct; the map then holds each belonging name under its nearest preceding file, and
      as many entries as the counts declare in total. */
  method ParseProviders(lines: seq<Line>) returns (r: Outcome<map<nat, Provider>>)
    ensures r.Accepted? <==> BlocksComplete(lines) && IndicesDistinct(lines)
    ensures r.Accepted? ==> Records(lines, |lines|, r.value) && |r.value| == SumCounts(lines, |lines|)
  {
    hide Belongs, BlockEnds, NamesIn, Records, FinishedComplete, IndicesDistinct;
    var providers: map<nat, Provider> := map[];
    var current: Option<string>, remaining: nat := None, 0;
    ghost var last: Option<nat> := None;
    NothingRecorded(lines);
    for n := 0 to |lines|
      invariant Tracks(lines, n, last, current, remaining)
      invariant Records(lines, n, providers) && FinishedComplete(lines, n) && DistinctUpTo(lines, n)
      invariant |providers| + remaining == SumCounts(lines, n)
    {
      match lines[n] {
        case NeedFile(file, count) =>
          if remaining != 0 {
            OpenBlockRefutes(lines, n, last, current, remaining);
            return Denied;
          }
          if count == 0 {
            return Denied;
          }
          FileLine(lines, n, last, current, providers);
          last := Some(n);
          current, remaining := Some(file), count;
        case NeedName(version, index) =>
          if current == None {
            SkippedLine(lines, n, last, current, remaining, providers);
          } else {
            NameBelongs(lines, n, last, current, remaining);
            if index in providers {
              RepeatRefutes(lines, n, last.value, providers);
              return Denied;
            }
            NameLine(lines, n, last.value, current, remaining, providers);
            providers := providers[index := Provider(current.value, version)];
            remaining := remaining - 1;
            if remaining == 0 {
              current := None;
            }
          }
        case OtherLine =>
          SkippedLine(lines, n, last, current, remaining, providers);
      }
    }
    if remaining != 0 {
      OpenBlockRefutes(lines, |lines|, last, current, remaining);
      return Denied;
    }
    AllComplete(lines, last, current);
    return Accepted(providers);
  }

  ghost predicate DistinctUpTo(lines: seq<Line>, n: nat) {
    forall f: nat, j: nat, f': nat, j': nat ::
      Belongs(lines, f, j) && Belongs(lines, f', j') && j < n && j' < n && lines[j].index == lines[j'].index ==> j == j'
  }

  lemma NothingRecorded(lines: seq<Line>)
    ensures Records(lines, 0, map[]) && FinishedComplete(lines, 0) && DistinctUpTo(lines, 0)
  {
  }

  /** A file line or the end while names are still owed: the open block is incomplete. */
  lemma OpenBlockRefutes(lines: seq<Line>, n: nat, last: Option<nat>, current: Option<string>, remaining: nat)
    requires n <= |lines| && Tracks(lines, n, last, current, remaining) && remaining != 0
    requires n == |lines| || lines[n].NeedFile?
    ensures !BlocksComplete(lines)
  {
    assert BlockEnds(lines, last.value, n);
  }

  /** A line that belongs to no block changes nothing that was recorded. */
  lemma RecordsSkip(lines: seq<Line>, n: nat, providers: map<nat, Provider>)
    requires Records(lines, n, providers)
    requires forall f: nat :: !Belongs(lines, f, n)
    ensures Records(lines, n + 1, providers)
  {
    hide NamesIn, NoFileIn;
    forall f: nat, j: nat | Belongs(lines, f, j) && j < n + 1
      ensures lines[j].index in providers && providers[lines[j].index] == Provider(lines[f].file, lines[j].version)
    {
      assert j != n;
    }
    forall i | i in providers
      ensures exists f: nat, j: nat :: Belongs(lines, f, j) && j < n + 1 && lines[j].index == i
    {
      var f: nat, j: nat :| Belongs(lines, f, j) && j < n && lines[j].index == i;
    }
  }

  lemma DistinctSkip(lines: seq<Line>, n: nat)
    requires DistinctUpTo(lines, n)
    requires forall f: nat :: !Belongs(lines, f, n)
    ensures DistinctUpTo(lines, n + 1)
  {
    hide NamesIn, NoFileIn;
    forall f: nat, j: nat, f': nat, j': nat
      | Belongs(lines, f, j) && Belongs(lines, f', j') && j < n + 1 && j' < n + 1 && lines[j].index == lines[j'].index
      ensures j == j'
    {
      assert j != n && j' != n;
    }
  }

  lemma FinishedSkip(lines: seq<Line>, n: nat)
    requires n < |lines| && !lines[n].NeedFile? && FinishedComplete(lines, n)
    ensures FinishedComplete(lines, n + 1)
  {
    hide NamesIn, NoFileIn;
    assert forall f: nat :: !BlockEnds(lines, f, n);
  }

  lemma FileLine(lines: seq<Line>, n: nat, last: Option<nat>, current: Option<string>, providers: map<nat, Provider>)
    requires n < |lines| && lines[n].NeedFile? && lines[n].count > 0
    requires Tracks(lines, n, last, current, 0)
    requires Records(lines, n, providers) && FinishedComplete(lines, n) && DistinctUpTo(lines, n)
    ensures Tracks(lines, n + 1, Some(n), Some(lines[n].file), lines[n].count)
    ensures Records(lines, n + 1, providers) && FinishedComplete(lines, n + 1) && DistinctUpTo(lines, n + 1)
  {
    hide Records, DistinctUpTo;
    assert forall f: nat :: !Belongs(lines, f, n);
    RecordsSkip(lines, n, providers);
    DistinctSkip(lines, n);
    FinishedAtFile(lines, n, last, current);
  }

  lemma FinishedAtFile(lines: seq<Line>, n: nat, last: Option<nat>, current: Option<string>)
    requires n < |lines| && lines[n].NeedFile? && lines[n].count > 0
    requires Tracks(lines, n, last, current, 0) && FinishedComplete(lines, n)
    ensures FinishedComplete(lines, n + 1)
  {
    hide NamesIn;
    forall f: nat, k: nat | BlockEnds(lines, f, k) && k < n + 1 ensures NamesIn(lines, f + 1, k) >= lines[f].count {
      if k == n {
        NearestFile(lines, n, last, f);
      }
    }
  }

  /** The last file line is the only one whose block reaches `n`. */
  lemma NearestFile(lines: seq<Line>, n: nat, last: Option<nat>, f: nat)
    requires n <= |lines| && f < n && lines[f].NeedFile? && NoFileIn(lines, f + 1, n)
    requires last.Some? ==> last.value < n && lines[last.value].NeedFile? && NoFileIn(lines, last.value + 1, n)
    requires last.None? ==> NoFileIn(lines, 0, n)
    ensures last == Some(f)
  {
  }

  lemma SkippedLine(lines: seq<Line>, n: nat, last: Option<nat>, current: Option<string>, remaining: nat,
                    providers: map<nat, Provider>)
    requires n < |lines| && !lines[n].NeedFile? && (lines[n].NeedName? ==> current == None)
    requires Tracks(lines, n, last, current, remaining)
    requires Records(lines, n, providers) && FinishedComplete(lines, n) && DistinctUpTo(lines, n)
    ensures Tracks(lines, n + 1, last, current, remaining)
    ensures Records(lines, n + 1, providers) && FinishedComplete(lines, n + 1) && DistinctUpTo(lines, n + 1)
  {
    hide Records, DistinctUpTo, FinishedComplete;
    forall f: nat ensures !Belongs(lines, f, n) {
      if f < n && lines[f].NeedFile? && lines[n].NeedName? && NoFileIn(lines, f + 1, n) {
        NearestFile(lines, n, last, f);
      }
    }
    RecordsSkip(lines, n, providers);
    DistinctSkip(lines, n);
    FinishedSkip(lines, n);
  }

  lemma NameBelongs(lines: seq<Line>, n: nat, last: Option<nat>, current: Option<string>, remaining: nat)
    requires n < |lines| && lines[n].NeedName? && current != None && Tracks(lines, n, last, current, remaining)
    ensures last.Some? && Belongs(lines, last.value, n) && remaining > 0 && current == Some(lines[last.value].file)
  {
  }

  lemma RepeatRefutes(lines: seq<Line>, n: nat, f: nat, providers: map<nat, Provider>)
    requires n < |lines| && Belongs(lines, f, n) && Records(lines, n, providers) && lines[n].index in providers
    ensures !IndicesDistinct(lines)
  {
    hide NamesIn, NoFileIn;
    var f': nat, j': nat :| Belongs(lines, f', j') && j' < n && lines[j'].index == lines[n].index;
  }

  lemma NameLine(lines: seq<Line>, n: nat, f: nat, current: Option<string>, remaining: nat,
                 providers: map<nat, Provider>)
    requires n < |lines| && Belongs(lines, f, n) && lines[n].index !in providers
    requires Tracks(lines, n, Some(f), current, remaining) && remaining > 0
    requires Records(lines, n, providers) && FinishedComplete(lines, n) && DistinctUpTo(lines, n)
    ensures Tracks(lines, n + 1, Some(f), if remaining == 1 then None else current, remaining - 1)
    ensures Records(lines, n + 1, providers[lines[n].index := Provider(lines[f].file, lines[n].version)])
    ensures FinishedComplete(lines, n + 1) && DistinctUpTo(lines, n + 1)
  {
    hide FinishedComplete;
    FinishedSkip(lines, n);
    RecordName(lines, n, f, providers);
  }

  lemma RecordName(lines: seq<Line>, n: nat, f: nat, providers: map<nat, Provider>)
    requires n < |lines| && Belongs(lines, f, n) && lines[n].index !in providers
    requires Records(lines, n, providers) && DistinctUpTo(lines, n)
    ensures Records(lines, n + 1, providers[lines[n].index := Provider(lines[f].file, lines[n].version)])
    ensures DistinctUpTo(lines, n + 1)
  {
    hide NamesIn;
    var providers' := providers[lines[n].index := Provider(lines[f].file, lines[n].version)];
    forall g: nat, j: nat | Belongs(lines, g, j) && j < n + 1
      ensures lines[j].index in providers' && providers'[lines[j].index] == Provider(lines[g].file, lines[j].version)
    {
      if j == n {
        NearestFile(lines, n, Some(f), g);
      }
    }
    forall i | i in providers'
      ensures exists g: nat, j: nat :: Belongs(lines, g, j) && j < n + 1 && lines[j].index == i
    {
      if i != lines[n].index {
        var g: nat, j: nat :| Belongs(lines, g, j) && j < n && lines[j].index == i;
      }
    }
  }

  lemma AllComplete(lines: seq<Line>, last: Option<nat>, current: Option<string>)
    requires Tracks(lines, |lines|, last, current, 0)
    requires FinishedComplete(lines, |lines|) && DistinctUpTo(lines, |lines|)
    ensures BlocksComplete(lines) && IndicesDistinct(lines)
  {
    forall f: nat, k: nat | BlockEnds(lines, f, k) ensures NamesIn(lines, f + 1, k) >= lines[f].count {
      if k == |lines| {
        NearestFile(lines, k, last, f);
      }
    }
  }

  // ----- the loader binding -----

  const LOADER := "ld-linux-aarch64.so.1"
  const GUARD_SYMBOL := "__stack_chk_guard@GLIBC_2.17"
  const GUARD_VERSION := "GLIBC_2.17"

  /** One undefined dynamic symbol and its version index, if printed. */
  datatype Undefined = Undefined(symbol: string, index: Option<nat>)

  function Select<T>(s: seq<T>, keep: T -> bool): seq<T> {
    if s == [] then [] else (if keep(s[0]) then [s[0]] else []) + Select(s[1..], keep)
  }

  predicate FromLoader(providers: map<nat, Provider>, index: nat) {
    index in providers && providers[index].file == LOADER
  }

  predicate LoaderBound(providers: map<nat, Provider>, u: Undefined) {
    u.index.Some? && FromLoader(providers, u.index.value)
  }

  predicate IsGuard(u: Undefined) {
    u.symbol == "__stack_chk_guard" || "__stack_chk_guard@" <= u.symbol
  }

  function LoaderVersions(providers: map<nat, Provider>): map<nat, string> {
    map i | i in providers && FromLoader(providers, i) :: providers[i].version
  }

  datatype Binding = Absent | GuardOnly

  /** `validate_stack_guard_loader_binding`, after the providers are parsed. */
  function ValidateBinding(providers: map<nat, Provider>, undefined: seq<Undefined>, loaderNeeded: bool, allowed: bool)
    : Outcome<Binding>
  {
    var versions := LoaderVersions(providers);
    var bound := Select(undefined, (u: Undefined) => LoaderBound(providers, u));
    var guards := Select(undefined, (u: Undefined) => IsGuard(u));
    if !loaderNeeded then if versions != map[] || bound != [] || guards != [] then Denied else Accepted(Absent)
    else if !allowed then Denied
    else if |versions| != 1 || (exists i :: i in versions && versions[i] != GUARD_VERSION) then Denied
    else if |guards| != 1 || guards[0].symbol != GUARD_SYMBOL then Denied
    else if guards[0].index.None? || guards[0].index.value !in versions then Denied
    else if |bound| != 1 || bound[0].symbol != GUARD_SYMBOL then Denied
    else Accepted(GuardOnly)
  }

  /** Position `k` is the only one that satisfies `keep`. */
  ghost predicate OnlyAt<T>(s: seq<T>, keep: T -> bool, k: nat) {
    k < |s| && keep(s[k]) && forall j :: 0 <= j < |s| && j != k ==> !keep(s[j])
  }

  lemma {:induction false} SelectNone<T>(s: seq<T>, keep: T -> bool)
    ensures Select(s, keep) == [] <==> forall j :: 0 <= j < |s| ==> !keep(s[j])
  {
    if s != [] {
      SelectNone(s[1..], keep);
      assert forall j :: 0 < j < |s| ==> s[j] == s[1..][j - 1];
      assert forall j :: 0 <= j < |s[1..]| ==> s[1..][j] == s[j + 1];
    }
  }

  lemma {:induction false} SelectOne<T>(s: seq<T>, keep: T -> bool)
    ensures |Select(s, keep)| == 1 <==> exists k: nat :: OnlyAt(s, keep, k)
    ensures forall k: nat :: OnlyAt(s, keep, k) ==> Select(s, keep) == [s[k]]
  {
    if s != [] {
      var tail := s[1..];
      assert forall j :: 0 < j < |s| ==> s[j] == tail[j - 1];
      assert forall j :: 0 <= j < |tail| ==> tail[j] == s[j + 1];
      if keep(s[0]) {
        SelectNone(tail, keep);
        if Select(tail, keep) == [] {
          assert OnlyAt(s, keep, 0);
        }
      } else {
        SelectOne(tail, keep);
        if k: nat :| OnlyAt(tail, keep, k) {
          assert OnlyAt(s, keep, k + 1);
        }
        forall k: nat | OnlyAt(s, keep, k) ensures k > 0 && OnlyAt(tail, keep, k - 1) {
        }
      }
    }
  }

  /** Exclusivity of the loader: one loader version index, and one undefined symbol, the stack guard, bound through
      it. */
  ghost predicate GuardIsExclusive(providers: map<nat, Provider>, undefined: seq<Undefined>, i: nat, k: nat) {
    && FromLoader(providers, i) && (forall j :: FromLoader(providers, j) ==> j == i)
    && providers[i].version == GUARD_VERSION
    && k < |undefined| && undefined[k] == Undefined(GUARD_SYMBOL, Some(i))
    && OnlyAt(undefined, (u: Undefined) => LoaderBound(providers, u), k)
    && OnlyAt(undefined, (u: Undefined) => IsGuard(u), k)
  }

  lemma SingleKey(m: map<nat, string>)
    ensures |m| == 1 <==> exists i :: i in m && forall j :: j in m ==> j == i
  {
    if |m| == 1 {
      assert m != map[];
      var i :| i in m;
      assert |m.Keys - {i}| == 0;
      assert m.Keys - {i} == {};
      forall j | j in m ensures j == i {
        assert j !in m.Keys - {i};
      }
    }
    if i :| i in m && forall j :: j in m ==> j == i {
      assert m.Keys == {i};
    }
  }

  /** The symbol is bound through a version that the dynamic loader provides. */
  ghost predicate UsesLoader(providers: map<nat, Provider>, u: Undefined) {
    u.index.Some? && u.index.value in providers && providers[u.index.value].file == "ld-linux-aarch64.so.1"
  }

  /** The symbol is the stack guard, with or without a version. */
  ghost predicate NamesGuard(u: Undefined) {
    u.symbol == "__stack_chk_guard" || "__stack_chk_guard@" <= u.symbol
  }

  /** The loader provides one version, GLIBC_2.17, and one undefined symbol is bound through it, the stack guard of
      that version; no other undefined symbol is bound to the loader or names the guard. */
  ghost predicate GuardAlone(providers: map<nat, Provider>, undefined: seq<Undefined>, i: nat, k: nat) {
    && i in providers && providers[i] == Provider("ld-linux-aarch64.so.1", "GLIBC_2.17")
    && (forall j :: j in providers && providers[j].file == "ld-linux-aarch64.so.1" ==> j == i)
    && k < |undefined| && undefined[k] == Undefined("__stack_chk_guard@GLIBC_2.17", Some(i))
    && forall j :: 0 <= j < |undefined| && j != k ==> !UsesLoader(providers, undefined[j]) && !NamesGuard(undefined[j])
  }

  lemma GuardAloneIff(providers: map<nat, Provider>, undefined: seq<Undefined>, i: nat, k: nat)
    ensures GuardIsExclusive(providers, undefined, i, k) <==> GuardAlone(providers, undefined, i, k)
  {
    hide IsGuard, NamesGuard;
    forall j | 0 <= j < |undefined| ensures IsGuard(undefined[j]) <==> NamesGuard(undefined[j]) {
      GuardNames(undefined[j]);
    }
    FullNameNamesGuard(Undefined(GUARD_SYMBOL, Some(i)));
    if GuardAlone(providers, undefined, i, k) {
      forall j | FromLoader(providers, j) ensures j == i {
        assert j in providers;
      }
    }
    if GuardIsExclusive(providers, undefined, i, k) {
      forall j | j in providers && providers[j].file == "ld-linux-aarch64.so.1" ensures j == i {
        assert FromLoader(providers, j);
      }
      forall j | 0 <= j < |undefined| && j != k
        ensures !UsesLoader(providers, undefined[j]) && !NamesGuard(undefined[j])
      {
        assert !LoaderBound(providers, undefined[j]);
      }
    }
  }

  lemma GuardNames(u: Undefined)
    ensures IsGuard(u) <==> NamesGuard(u)
  {
  }

  lemma FullNameNamesGuard(u: Undefined)
    requires u.symbol == "__stack_chk_guard@GLIBC_2.17"
    ensures NamesGuard(u)
  {
    assert u.symbol == "__stack_chk_guard@" + "GLIBC_2.17";
  }

  /** A needed loader is accepted exactly when it is allowed and bound to the stack guard alone; an unneeded one
      exactly when nothing refers to it. */
  lemma BindingIsExclusive(providers: map<nat, Provider>, undefined: seq<Undefined>, allowed: bool)
    ensures ValidateBinding(providers, undefined, true, allowed).Accepted? <==>
      allowed && exists i: nat, k: nat :: GuardAlone(providers, undefined, i, k)
    ensures ValidateBinding(providers, undefined, false, allowed).Accepted? <==>
      && (forall i :: i in providers ==> providers[i].file != "ld-linux-aarch64.so.1")
      && (forall k :: 0 <= k < |undefined| ==> !NamesGuard(undefined[k]))
  {
    NeededIsExclusive(providers, undefined, allowed);
    UnneededIsAbsent(providers, undefined, allowed);
    hide GuardIsExclusive, GuardAlone, ValidateBinding, IsGuard, NamesGuard;
    forall i: nat, k: nat
      ensures GuardIsExclusive(providers, undefined, i, k) <==> GuardAlone(providers, undefined, i, k)
    {
      GuardAloneIff(providers, undefined, i, k);
    }
    forall j | 0 <= j < |undefined| ensures IsGuard(undefined[j]) <==> NamesGuard(undefined[j]) {
      GuardNames(undefined[j]);
    }
    assert forall i :: i in providers && providers[i].file == "ld-linux-aarch64.so.1" ==> FromLoader(providers, i);
    assert forall k :: 0 <= k < |undefined| && LoaderBound(providers, undefined[k]) ==>
      FromLoader(providers, undefined[k].index.value);
  }

  lemma LoaderKeys(providers: map<nat, Provider>)
    ensures forall i :: i in LoaderVersions(providers) <==> FromLoader(providers, i)
    ensures forall i :: FromLoader(providers, i) ==> LoaderVersions(providers)[i] == providers[i].version
  {
  }

  lemma UnneededIsAbsent(providers: map<nat, Provider>, undefined: seq<Undefined>, allowed: bool)
    ensures ValidateBinding(providers, undefined, false, allowed).Accepted? <==>
      && (forall i :: !FromLoader(providers, i))
      && (forall k :: 0 <= k < |undefined| ==> !LoaderBound(providers, undefined[k]) && !IsGuard(undefined[k]))
  {
    LoaderKeys(providers);
    hide LoaderVersions, FromLoader, LoaderBound, IsGuard;
    SelectNone(undefined, (u: Undefined) => LoaderBound(providers, u));
    SelectNone(undefined, (u: Undefined) => IsGuard(u));
    hide Select;
    var versions := LoaderVersions(providers);
    assert versions == map[] <==> forall i :: i !in versions;
  }

  lemma NeededIsExclusive(providers: map<nat, Provider>, undefined: seq<Undefined>, allowed: bool)
    ensures ValidateBinding(providers, undefined, true, allowed).Accepted? <==>
      allowed && exists i: nat, k: nat :: GuardIsExclusive(providers, undefined, i, k)
  {
    if ValidateBinding(providers, undefined, true, allowed).Accepted? {
      AcceptedIsExclusive(providers, undefined);
    }
    if i: nat, k: nat :| GuardIsExclusive(providers, undefined, i, k) {
      ExclusiveIsAccepted(providers, undefined, allowed, i, k);
    }
  }

  lemma AcceptedIsExclusive(providers: map<nat, Provider>, undefined: seq<Undefined>)
    requires ValidateBinding(providers, undefined, true, true).Accepted?
    ensures exists i: nat, k: nat :: GuardIsExclusive(providers, undefined, i, k)
  {
    var bound := (u: Undefined) => LoaderBound(providers, u);
    var guard := (u: Undefined) => IsGuard(u);
    SelectOne(undefined, bound);
    SelectOne(undefined, guard);
    LoaderKeys(providers);
    var versions := LoaderVersions(providers);
    SingleKey(versions);
    hide Select, LoaderVersions;
    var i :| i in versions && forall j :: j in versions ==> j == i;
    var k: nat :| OnlyAt(undefined, guard, k);
    var b: nat :| OnlyAt(undefined, bound, b);
    assert bound(undefined[k]);
    assert k == b;
    assert GuardIsExclusive(providers, undefined, i, k);
  }

  lemma ExclusiveIsAccepted(providers: map<nat, Provider>, undefined: seq<Undefined>, allowed: bool, i: nat, k: nat)
    requires GuardIsExclusive(providers, undefined, i, k)
    ensures ValidateBinding(providers, undefined, true, allowed).Accepted? <==> allowed
  {
    var bound := (u: Undefined) => LoaderBound(providers, u);
    var guard := (u: Undefined) => IsGuard(u);
    SelectOne(undefined, bound);
    SelectOne(undefined, guard);
    LoaderKeys(providers);
    var versions := LoaderVersions(providers);
    SingleKey(versions);
    hide Select, LoaderVersions;
    assert OnlyAt(undefined, bound, k) && OnlyAt(undefined, guard, k);
    assert i in versions;
  }
}
