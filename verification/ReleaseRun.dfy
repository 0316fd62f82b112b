/** The execution half of the release OTA tool: sign, build the OTA, verify, promote with rollback, and report.  Any
    step may fail. */
module ReleaseRun {
  import opened Outcomes
  import opened ReleaseReceipt
  import opened SourceBinding

  datatype Kind = SignedTarget | Ota | Metadata

  /** The output directory's names for the artifacts; the seven names the tool derives all differ. */
  datatype Name = Final(kind: Kind) | Partial(kind: Kind)

  type Files = map<Name, string>

  /** A host tool's exit code, or an exception such as a timeout, and what it wrote. */
  datatype ToolRun = ToolRun(exit: Outcome<int>, first: Option<string>, second: Option<string>)

  /** What the outside world does in one run: the inspected input and the strict mode's inputs, the staged key material
      and its removal, the repeated measurements of inputs and tools, the tools, the inspections of what they wrote,
      and which renames fail. */
  datatype Run = Run(inputFacts: map<Key, Json>, strict: Option<Strict>, others: map<Key, Json>,
                     sidecar: map<Key, Json>, staged: Outcome<map<Key, Json>>, unstaged: bool, measured: nat -> bool,
                     toolCount: nat, sign: ToolRun, inspected: Outcome<map<Key, Json>>,
                     crypto: Outcome<map<Key, Json>>, ota: ToolRun, otaFacts: Outcome<map<Key, Json>>,
                     verify: ToolRun, renameFails: nat -> bool, message: nat -> string)
  {
    /** The input's build type, once it has passed `require_build_type`. */
    function InputBuild(): Build {
      var named := BuildNamed(Object(inputFacts).Get(BuildType));
      if named.Accepted? then named.value else User
    }

    /** The run gets past its preflight: the input has a known build type, and a required binding is valid. */
    predicate Starts() {
      BuildNamed(Object(inputFacts).Get(BuildType)).Accepted? && PlanBinding(strict).Accepted?
    }

    ghost predicate Measured(from: nat, to: nat) {
      forall k: nat :: from <= k < to ==> measured(k)
    }

    /** Signing and the inspection of the signed target-files. */
    ghost predicate SignOk() {
      && staged.Accepted? && Measured(0, 8) && sign.exit == Accepted(0) && sign.first.Some? && inspected.Accepted?
      && Object(inspected.value).Get(BuildType) == Str(BuildName(InputBuild())) && crypto.Accepted?
    }

    /** Building the OTA and verifying it. */
    ghost predicate OtaOk() {
      && Measured(8, 15) && ota.exit == Accepted(0) && ota.first.Some? && ota.second.Some? && otaFacts.Accepted?
      && inspected.Accepted? && Object(otaFacts.value).Get(PostBuild) == Object(inspected.value).Get(Fingerprint)
      && verify.exit == Accepted(0)
    }

    /** Every check of the run. */
    ghost predicate ChecksOk() {
      SignOk() && OtaOk() && unstaged && Measured(15, 16 + toolCount)
    }

    /** The three renames that publish. */
    predicate RenamesOk() {
      !renameFails(0) && !renameFails(1) && !renameFails(2)
    }

    /** Of `n` promoted names, the reverse rename of the one at position `m`, counted from 1, fails. */
    predicate ReverseFails(n: nat, m: int)
      requires m <= n
    {
      renameFails(3 + n - m)
    }
  }

  function Wrote(files: Files, kind: Kind, content: Option<string>): Files {
    if content.Some? then files[Partial(kind) := content.value] else files
  }

  /** What the tools leave when all of them run. */
  function Produced(run: Run): Files {
    Wrote(Wrote(Wrote(map[], SignedTarget, run.sign.first), Ota, run.ota.first), Metadata, run.ota.second)
  }

  ghost predicate NothingFinal(files: Files) {
    forall k :: Final(k) !in files
  }

  /** A stretch of `assert_measurement` calls. */
  method MeasureAll(run: Run, from: nat, to: nat) returns (ok: bool)
    requires from <= to
    ensures ok <==> run.Measured(from, to)
  {
    for k := from to to
      invariant run.Measured(from, k)
    {
      if !run.measured(k) {
        return false;
      }
    }
    return true;
  }

  /** The signing stage: staged material, the signing tool and the inspection of its output. */
  method Sign(run: Run) returns (error: Option<string>, facts: Facts, files: Files)
    ensures error.None? <==> run.SignOk()
    ensures files == map[] || files == Wrote(map[], SignedTarget, run.sign.first)
    ensures error.None? ==>
      && files == Wrote(map[], SignedTarget, run.sign.first) && facts.ota == Null
      && facts.material == Object(run.staged.value)
      && facts.signed == Object(run.inspected.value) && facts.crypto == Object(run.crypto.value)
  {
    hide BuildName;
    facts, files := Facts(Null, Null, Null, Null), map[];
    if run.staged.Denied? {
      return Some(run.message(0)), facts, files;
    }
    facts := facts.(material := Object(run.staged.value));
    var ok := MeasureAll(run, 0, 2);
    if !ok {
      return Some(run.message(1)), facts, files;
    }
    files := Wrote(files, SignedTarget, run.sign.first);
    ok := MeasureAll(run, 2, 4);
    if run.sign.exit.Denied? || !ok || run.sign.exit.value != 0 {
      return Some(run.message(2)), facts, files;
    }
    if run.sign.first.None? || run.inspected.Denied? {
      return Some(run.message(3)), facts, files;
    }
    facts := facts.(signed := Object(run.inspected.value));
    if Object(run.inspected.value).Get(BuildType) != Str(BuildName(run.InputBuild())) {
      return Some(run.message(4)), facts, files;
    }
    ok := MeasureAll(run, 4, 6);
    if !ok || run.crypto.Denied? {
      return Some(run.message(5)), facts, files;
    }
    facts := facts.(crypto := Object(run.crypto.value));
    ok := MeasureAll(run, 6, 8);
    return if ok then None else Some(run.message(6)), facts, files;
  }

  /** The OTA stage: the OTA tool, the inspection of the package and its signature check. */
  method BuildOta(run: Run, start: Facts, signed: Files) returns (error: Option<string>, facts: Facts, files: Files)
    requires run.inspected.Accepted?
    ensures error.None? <==> run.OtaOk()
    ensures files == signed || files == Wrote(Wrote(signed, Ota, run.ota.first), Metadata, run.ota.second)
    ensures error.None? ==>
      && files == Wrote(Wrote(signed, Ota, run.ota.first), Metadata, run.ota.second)
      && facts == start.(ota := Object(run.otaFacts.value[BuildType := Str(BuildName(run.InputBuild()))]))
  {
    hide BuildName;
    facts, files := start, signed;
    var ok := MeasureAll(run, 8, 10);
    if !ok {
      return Some(run.message(7)), facts, files;
    }
    files := Wrote(Wrote(files, Ota, run.ota.first), Metadata, run.ota.second);
    ok := MeasureAll(run, 10, 12);
    if run.ota.exit.Denied? || !ok || run.ota.exit.value != 0 || run.ota.second.None? {
      return Some(run.message(8)), facts, files;
    }
    if run.ota.first.None? || run.otaFacts.Denied? {
      return Some(run.message(9)), facts, files;
    }
    facts := facts.(ota := Object(run.otaFacts.value[BuildType := Str(BuildName(run.InputBuild()))]));
    if Object(run.otaFacts.value).Get(PostBuild) != Object(run.inspected.value).Get(Fingerprint) {
      return Some(run.message(10)), facts, files;
    }
    ok := MeasureAll(run, 12, 13);
    if !ok {
      return Some(run.message(11)), facts, files;
    }
    ok := MeasureAll(run, 13, 15);
    if run.verify.exit.Denied? || !ok || run.verify.exit.value != 0 {
      return Some(run.message(12)), facts, files;
    }
    return None, facts, files;
  }

  /** Everything before the promotion. */
  method Check(run: Run) returns (error: Option<string>, facts: Facts, files: Files)
    ensures error.None? <==> run.ChecksOk()
    ensures error.None? ==> files == Produced(run) && Complete(facts, run.InputBuild())
    ensures NothingFinal(files)
  {
    hide BuildName, Run.SignOk, Run.OtaOk;
    error, facts, files := Sign(run);
    SignedFacts(run);
    if error.Some? {
      return;
    }
    error, facts, files := BuildOta(run, facts, files);
    if error.Some? {
      return;
    }
    var ok := MeasureAll(run, 15, 16 + run.toolCount);
    if !run.unstaged || !ok {
      return Some(run.message(13)), facts, files;
    }
  }

  lemma SignedFacts(run: Run)
    ensures run.SignOk() ==>
      run.inspected.Accepted? && Object(run.inspected.value).Get(BuildType) == Str(BuildName(run.InputBuild()))
  {
  }

  // ----- promotion -----

  const ORDER := [SignedTarget, Ota, Metadata]

  ghost function Position(kind: Kind): (i: nat)
    ensures i < |ORDER| && ORDER[i] == kind
  {
    match kind
    case SignedTarget => 0
    case Ota => 1
    case Metadata => 2
  }

  /** `os.replace`, when it succeeds. */
  function Replaced(files: Files, from: Name, to: Name): Files
    requires from in files
  {
    (files - {from})[to := files[from]]
  }

  /** The first `n` partial files have their final names. */
  ghost predicate Promoted(before: Files, after: Files, n: nat)
    requires n <= |ORDER|
  {
    && (forall i: nat :: i < n ==>
          Partial(ORDER[i]) in before && Partial(ORDER[i]) !in after && Final(ORDER[i]) in after &&
          after[Final(ORDER[i])] == before[Partial(ORDER[i])])
    && (forall i: nat :: n <= i < |ORDER| ==>
          Final(ORDER[i]) !in after && (Partial(ORDER[i]) in after <==> Partial(ORDER[i]) in before) &&
          (Partial(ORDER[i]) in after ==> after[Partial(ORDER[i])] == before[Partial(ORDER[i])]))
  }

  lemma PromoteOne(before: Files, after: Files, n: nat)
    requires n < |ORDER| && Promoted(before, after, n) && Partial(ORDER[n]) in after
    ensures Promoted(before, Replaced(after, Partial(ORDER[n]), Final(ORDER[n])), n + 1)
  {
  }

  lemma RevertOne(before: Files, after: Files, n: nat)
    requires n < |ORDER| && Promoted(before, after, n + 1)
    ensures Final(ORDER[n]) in after && Partial(ORDER[n]) !in after
    ensures Promoted(before, Replaced(after, Final(ORDER[n]), Partial(ORDER[n])), n)
  {
  }

  lemma NothingPromoted(before: Files, after: Files)
    ensures NothingFinal(before) ==> Promoted(before, before, 0)
    ensures Promoted(before, after, 0) && NothingFinal(before) ==> after == before
  {
    if Promoted(before, after, 0) && NothingFinal(before) {
      forall n: Name ensures (n in after <==> n in before) && (n in after ==> after[n] == before[n]) {
        assert ORDER[Position(n.kind)] == n.kind;
        assert n == Final(n.kind) || n == Partial(n.kind);
      }
    }
  }

  /** The promotion: all three final names, or the first `kept` of them if a reverse rename fails, which is none of
      them if every reverse rename succeeds. */
  method Promote(run: Run, before: Files) returns (ok: bool, files: Files, kept: nat)
    requires NothingFinal(before)
    ensures ok <==>
      run.RenamesOk() && Partial(SignedTarget) in before && Partial(Ota) in before && Partial(Metadata) in before
    ensures kept <= |ORDER| && Promoted(before, files, kept)
    ensures if ok then kept == |ORDER| else kept < |ORDER|
    ensures !ok && kept == 0 ==> files == before
    ensures !ok && (forall k :: k > 2 ==> !run.renameFails(k)) ==> kept == 0
  {
    files := before;
    NothingPromoted(before, before);
    var n := 0;
    while n < |ORDER|
      invariant 0 <= n <= |ORDER| && Promoted(before, files, n)
      invariant forall k: nat :: k < n ==> !run.renameFails(k) && Partial(ORDER[k]) in before
    {
      if run.renameFails(n) || Partial(ORDER[n]) !in files {
        files, kept := RollBack(run, before, files, n);
        return false, files, kept;
      }
      PromoteOne(before, files, n);
      files := Replaced(files, Partial(ORDER[n]), Final(ORDER[n]));
      n := n + 1;
    }
    assert Partial(ORDER[0]) in before && Partial(ORDER[1]) in before && Partial(ORDER[2]) in before;
    return true, files, n;
  }

  /** The handler: the promoted names are renamed back in reverse order; a failure stops it, and the first `kept`
      final names stay. */
  method RollBack(run: Run, before: Files, start: Files, n: nat) returns (files: Files, kept: nat)
    requires n <= |ORDER| && Promoted(before, start, n) && NothingFinal(before)
    ensures kept <= n && Promoted(before, files, kept)
    ensures kept == 0 ==> files == before
    ensures kept > 0 ==> run.ReverseFails(n, kept)
    ensures forall m :: kept < m <= n ==> !run.ReverseFails(n, m)
  {
    files := start;
    kept := n;
    while kept > 0
      invariant kept <= n && Promoted(before, files, kept)
      invariant forall m :: kept < m <= n ==> !run.ReverseFails(n, m)
    {
      RevertOne(before, files, kept - 1);
      var kind := ORDER[kept - 1];
      if Final(kind) in files && Partial(kind) !in files {
        if run.ReverseFails(n, kept) {
          return;
        }
        files := Replaced(files, Final(kind), Partial(kind));
      }
      kept := kept - 1;
    }
    NothingPromoted(before, files);
  }

  // ----- the run -----

  /** One execution.  A run that gets past its preflight always writes a receipt that satisfies the validator,
      whatever fails; it says PASS exactly when every check succeeded and the three artifacts were promoted.  A run
      that does not pass leaves the first `kept` final names, with the verified bytes; that is none of them unless a
      reverse rename fails. */
  method Execute(run: Run) returns (receipt: Outcome<Json>, files: Files, kept: nat)
    ensures receipt.Accepted? <==> run.Starts()
    ensures receipt.Denied? ==> files == map[]
    ensures receipt.Accepted? ==>
      && Validates(receipt.value)
      && (receipt.value.Get(Decision) != Str(EXECUTION_DENY) <==> run.ChecksOk() && run.RenamesOk())
    ensures receipt.Accepted? ==>
      var input := Object(run.inputFacts).Get(BuildType);
      && (input == Str("user") || input == Str("userdebug"))
      && receipt.value.Get(BuildType) == input && receipt.value.Get(DryRun) == Bool(false)
      && Decides(receipt.value.Get(Decision), input == Str("user"), run.ChecksOk() && run.RenamesOk())
      && Bounds(receipt.value.Get(ReleaseBoundaries), input == Str("user"))
    ensures receipt.Accepted? && run.ChecksOk() && run.RenamesOk() ==>
      && NothingPartial(files) && Final(SignedTarget) in files && Final(Ota) in files && Final(Metadata) in files
      && run.sign.first == Some(files[Final(SignedTarget)]) && run.ota.first == Some(files[Final(Ota)])
      && run.ota.second == Some(files[Final(Metadata)])
    ensures !(run.ChecksOk() && run.RenamesOk()) ==>
      && kept < |ORDER| && (forall i: nat :: i < |ORDER| ==> (Final(ORDER[i]) in files <==> i < kept))
      && (kept > 0 ==> run.ChecksOk() && Promoted(Produced(run), files, kept))
      && (kept == 0 ==> NothingFinal(files))
    ensures !(run.ChecksOk() && run.RenamesOk()) && (forall k :: k > 2 ==> !run.renameFails(k)) ==> kept == 0
  {
    hide BuildName, BuildNamed, Validates, ExecutionReceipt, PublicPlan, PlanBinding, Fits, Promoted, Complete;
    hide Run.SignOk, Run.OtaOk, Produced, Decides, Bounds;
    kept := 0;
    if !run.Starts() {
      return Denied, map[], 0;
    }
    var b, binding := run.InputBuild(), PlanBinding(run.strict).value;
    InputNamesItsBuild(run);
    var error, facts;
    error, facts, files := Check(run);
    if error.None? {
      ChecksProduce(run);
      var ok;
      ghost var before := files;
      ok, files, kept := Promote(run, files);
      if ok {
        PromotedFiles(run, before, files);
      } else {
        KeptNames(before, files, kept);
        error := Some(run.message(14));
      }
    }
    var plan := PublicPlan(run.inputFacts, binding, run.others);
    var written := ExecutionReceipt(b, plan, facts, error, run.sidecar);
    PlanBindingFits(run.strict);
    ExecutionReceiptValidates(b, run.inputFacts, binding, run.others, facts, error, run.sidecar);
    PassIffNoError(b, plan, facts, error, run.sidecar);
    ReceiptIdentity(b, plan, facts, error, run.sidecar);
    ReceiptOutcome(b, plan, facts, error, run.sidecar);
    ValidIsConsistent(written);
    receipt := if Validates(written) then Accepted(written) else Denied;
  }

  lemma KeptNames(before: Files, after: Files, kept: nat)
    requires kept <= |ORDER| && Promoted(before, after, kept)
    ensures forall i: nat :: i < |ORDER| ==> (Final(ORDER[i]) in after <==> i < kept)
  {
  }

  lemma InputNamesItsBuild(run: Run)
    requires run.Starts()
    ensures Object(run.inputFacts).Get(BuildType) == Str(BuildName(run.InputBuild()))
  {
  }

  ghost predicate NothingPartial(files: Files) {
    forall k :: Partial(k) !in files
  }

  lemma ChecksProduce(run: Run)
    requires run.ChecksOk()
    ensures
      var files := Produced(run);
      && Partial(SignedTarget) in files && Partial(Ota) in files && Partial(Metadata) in files
      && run.sign.first == Some(files[Partial(SignedTarget)]) && run.ota.first == Some(files[Partial(Ota)])
      && run.ota.second == Some(files[Partial(Metadata)])
  {
  }

  lemma PromotedFiles(run: Run, before: Files, after: Files)
    requires run.ChecksOk() && before == Produced(run) && Promoted(before, after, 3)
    ensures NothingPartial(after) && Final(SignedTarget) in after && Final(Ota) in after && Final(Metadata) in after
    ensures run.sign.first == Some(after[Final(SignedTarget)]) && run.ota.first == Some(after[Final(Ota)])
    ensures run.ota.second == Some(after[Final(Metadata)])
  {
    ChecksProduce(run);
    hide Run.ChecksOk, Produced;
    assert ORDER[0] == SignedTarget && ORDER[1] == Ota && ORDER[2] == Metadata;
    forall k ensures Partial(k) !in after {
      assert ORDER[Position(k)] == k;
    }
  }

  lemma PassIffNoError(b: Build, plan: Json, facts: Facts, error: Option<string>, sidecar: map<Key, Json>)
    ensures ExecutionReceipt(b, plan, facts, error, sidecar).Get(Decision) != Str(EXECUTION_DENY) <==> error.None?
  {
    hide ExecutionReceipt;
    ReceiptOutcome(b, plan, facts, error, sidecar);
    DenyIsNoPass(EXECUTION_USER_PASS, EXECUTION_USERDEBUG_PASS, EXECUTION_DENY);
  }
}
