/** The release OTA receipt: its exact shape, and the validator the tool applies to its own receipts. */
module ReleaseReceipt {
  import opened Outcomes

  /** The member names the validator knows; any other name is `Other`. */
  datatype Key =
    | Schema | Decision | BuildType | DryRun | ConfigSha256 | Plan | ReleaseBoundaries | Material | SignedTargetFiles
    | SignedTargetCryptography | SignedFullAbOta | QuarantinedPartialOutputs | Commands | SecretSourcePathsRecorded
    | PrivateKeyContentsRecorded | PlaintextPassphrasesRecorded | TransientPasswordFileRetained
    | TransientMaterialRetained
    | DeviceWritePerformed | PublicUploadPerformed | PublicReleaseAuthorized | Error | PrivateMaterialRead
    | SigningPerformed | OtaGenerated | InputTargetFiles | RollbackPolicy | SourceBomBinding | Required | Present
    | Valid
    | Member | SourceBom | Bytes | Sha256 | Fingerprint | PostBuild | EvidenceScope | BuildClassification
    | ReleaseEligibility | ReleaseReady | DeviceEvidenceCollected | LockedGreenDevice | HardwareAntirollback
    | ErofsFsverity | DeviceOtaInstall | PublicRelease | Scope | HardwareHighWaterProven
    | HardwareProgrammingAuthorized | Other(name: string)

  datatype Json =
    | Null | Bool(flag: bool) | Int(number: int) | Float(value: real) | Str(text: string) | List(items: seq<Json>)
    | Object(fields: map<Key, Json>)
  {
    /** `dict.get`. */
    function Get(k: Key): Json {
      if Object? && k in fields then fields[k] else Null
    }
  }

  const RECEIPT_SCHEMA := "org.trillionnium.android-release-ota-receipt.v2"
  const BOUNDARIES_SCHEMA := "org.trillionnium.android-release-boundaries.v1"
  const BINDING_MEMBER := "META/trillionnium-source-bom-binding.json"
  const EXECUTION_USER_PASS := "PASS_HOST_SIGNED_FULL_AB_OTA_USER_RELEASE_CANDIDATE_BOUNDARIES_HOLD"
  const EXECUTION_USERDEBUG_PASS := "PASS_HOST_SIGNED_FULL_AB_OTA_USERDEBUG_NON_RELEASE"
  const EXECUTION_DENY := "DENY_RELEASE_OTA_PIPELINE_FAILED_CLOSED"
  const DRY_RUN_USER_PASS := "PASS_HOST_SIGNING_PREFLIGHT_USER_RELEASE_CANDIDATE_BOUNDARIES_HOLD"
  const DRY_RUN_USERDEBUG_PASS := "PASS_HOST_SIGNING_PREFLIGHT_USERDEBUG_NON_RELEASE"
  const DRY_RUN_MATERIAL_USER_PASS := "PASS_HOST_SIGNING_MATERIAL_PREFLIGHT_USER_RELEASE_CANDIDATE_BOUNDARIES_HOLD"
  const DRY_RUN_MATERIAL_USERDEBUG_PASS := "PASS_HOST_SIGNING_MATERIAL_PREFLIGHT_USERDEBUG_NON_RELEASE"

  /** `require_build_type` admits these two. */
  datatype Build = User | Userdebug

  function BuildName(b: Build): string {
    if b.User? then "user" else "userdebug"
  }

  function BuildNamed(value: Json): Outcome<Build> {
    if value == Str("user") then Accepted(User) else if value == Str("userdebug") then Accepted(Userdebug) else Denied
  }

  function DryRunDecision(b: Build, materialRead: bool): string {
    match b
    case User => if materialRead then DRY_RUN_MATERIAL_USER_PASS else DRY_RUN_USER_PASS
    case Userdebug => if materialRead then DRY_RUN_MATERIAL_USERDEBUG_PASS else DRY_RUN_USERDEBUG_PASS
  }

  /** `execution_decision`: only a run without an error passes. */
  function ExecutionDecision(b: Build, error: Json): Outcome<string> {
    match error
    case Null => Accepted(if b.User? then EXECUTION_USER_PASS else EXECUTION_USERDEBUG_PASS)
    case Str(_) => Accepted(EXECUTION_DENY)
    case _ => Denied
  }

  function Boundaries(b: Build): map<Key, Json> {
    var hold := Str("HOLD_NOT_PROVEN_BY_HOST_PIPELINE");
    map[
      Schema := Str(BOUNDARIES_SCHEMA),
      EvidenceScope := Str("HOST_TARGET_FILES_SIGNING_AND_OTA_PACKAGING_ONLY"),
      BuildClassification :=
        Str(if b.User? then "USER_RELEASE_CANDIDATE_HOST_ONLY" else "USERDEBUG_NON_RELEASE_HOST_SIGNED_ARTIFACT"),
      ReleaseEligibility :=
        Str(if b.User? then "HOLD_DEVICE_RELEASE_BOUNDARIES_NOT_PROVEN" else "DENY_USERDEBUG_NON_RELEASE"),
      ReleaseReady := Bool(false), DeviceEvidenceCollected := Bool(false), LockedGreenDevice := hold,
      HardwareAntirollback := hold, ErofsFsverity := hold,
      DeviceOtaInstall := Str("HOLD_NOT_PERFORMED_BY_HOST_PIPELINE"), PublicRelease := Str("HOLD_NOT_AUTHORIZED")
    ]
  }

  function ExpectedRollbackPolicy(): map<Key, Json> {
    map[Scope := Str("source_and_target_files_expected_values_only"),
        HardwareHighWaterProven := Bool(false), HardwareProgrammingAuthorized := Bool(false)]
  }

  const DRY_RUN_KEYS := {
    Schema, Decision, BuildType, DryRun, PrivateMaterialRead, Material, Plan, ReleaseBoundaries, SigningPerformed,
    OtaGenerated, DeviceWritePerformed, PublicUploadPerformed, PublicReleaseAuthorized
  }
  const EXECUTION_KEYS := {
    Schema, Decision, BuildType, DryRun, ConfigSha256, Plan, ReleaseBoundaries, Material, SignedTargetFiles,
    SignedTargetCryptography, SignedFullAbOta, QuarantinedPartialOutputs, Commands, SecretSourcePathsRecorded,
    PrivateKeyContentsRecorded, PlaintextPassphrasesRecorded, TransientPasswordFileRetained, TransientMaterialRetained,
    DeviceWritePerformed, PublicUploadPerformed, PublicReleaseAuthorized, Error
  }

  // ----- the validator -----

  /** Python's `==` counts a boolean as the number 0 or 1. */
  function NumberIn(j: Json): Option<real> {
    match j
    case Bool(b) => Some(if b then 1.0 else 0.0)
    case Int(n) => Some(n as real)
    case Float(x) => Some(x)
    case _ => None
  }

  /** Python's `==` against a dictionary of strings and booleans. */
  predicate EqualsFlat(value: Json, expected: map<Key, Json>) {
    && value.Object? && value.fields.Keys == expected.Keys
    && forall k :: k in expected ==>
      || value.fields[k] == expected[k]
      || (NumberIn(expected[k]).Some? && NumberIn(value.fields[k]) == NumberIn(expected[k]))
  }

  predicate IsHex64(s: string) {
    |s| == 64 && forall c :: c in s ==> '0' <= c <= '9' || 'a' <= c <= 'f'
  }

  predicate BindingOk(binding: Json) {
    binding != Null ==>
      && binding.Object? && binding.Get(Required) == Bool(true) && binding.Get(Present) == Bool(true)
      && binding.Get(Valid) == Bool(true) && binding.Get(Member) == Str(BINDING_MEMBER)
      && var identity := binding.Get(SourceBom);
      && identity.Object? && identity.Get(Bytes).Int? && identity.Get(Bytes).number > 0
      && identity.Get(Sha256).Str? && IsHex64(identity.Get(Sha256).text)
  }

  predicate PlanOk(plan: Json, buildType: Json) {
    && plan.Object? && plan.Get(InputTargetFiles).Object? && plan.Get(InputTargetFiles).Get(BuildType) == buildType
    && plan.Get(DeviceWritePerformed) == Bool(false) && plan.Get(PublicUploadPerformed) == Bool(false)
    && EqualsFlat(plan.Get(RollbackPolicy), ExpectedRollbackPolicy())
    && BindingOk(plan.Get(SourceBomBinding))
  }

  /** The part of `validate_receipt` for a dry run. */
  predicate DryRunOk(receipt: map<Key, Json>, b: Build)
    requires receipt.Keys == DRY_RUN_KEYS
  {
    && receipt[PrivateMaterialRead].Bool?
    && receipt[Decision] == Str(DryRunDecision(b, receipt[PrivateMaterialRead].flag))
    && receipt[SigningPerformed] == Bool(false) && receipt[OtaGenerated] == Bool(false)
    && (receipt[Material] == Null) != receipt[PrivateMaterialRead].flag
  }

  /** The part of `validate_receipt` for an execution. */
  predicate ExecutionOk(receipt: map<Key, Json>, b: Build)
    requires receipt.Keys == EXECUTION_KEYS
  {
    && var decision := ExecutionDecision(b, receipt[Error]);
    && decision.Accepted? && receipt[Decision] == Str(decision.value)
    && receipt[SecretSourcePathsRecorded] == Bool(false) && receipt[PrivateKeyContentsRecorded] == Bool(false)
    && receipt[PlaintextPassphrasesRecorded] == Bool(false) && receipt[TransientPasswordFileRetained] == Bool(false)
    && receipt[TransientMaterialRetained] == Bool(false)
    && (receipt[Error] == Null ==>
          && receipt[Material].Object? && receipt[SignedTargetFiles].Object?
          && receipt[SignedTargetCryptography].Object? && receipt[SignedFullAbOta].Object?
          && receipt[SignedTargetFiles].Get(BuildType) == Str(BuildName(b))
          && receipt[SignedFullAbOta].Get(BuildType) == Str(BuildName(b)))
  }

  /** `validate_receipt`. */
  predicate Validates(value: Json) {
    && value.Object? && value.Get(DryRun).Bool?
    && var receipt := value.fields;
    && receipt.Keys == (if value.Get(DryRun).flag then DRY_RUN_KEYS else EXECUTION_KEYS)
    && receipt[Schema] == Str(RECEIPT_SCHEMA)
    && var b := BuildNamed(receipt[BuildType]);
    && b.Accepted? && PlanOk(receipt[Plan], receipt[BuildType])
    && EqualsFlat(receipt[ReleaseBoundaries], Boundaries(b.value))
    && receipt[DeviceWritePerformed] == Bool(false) && receipt[PublicUploadPerformed] == Bool(false)
    && receipt[PublicReleaseAuthorized] == Bool(false)
    && if value.Get(DryRun).flag then DryRunOk(receipt, b.value) else ExecutionOk(receipt, b.value)
  }

  // ----- what the tool writes -----

  /** `public_plan`, with the projected source-BOM binding when the strict mode asks for it. */
  function PublicPlan(inputFacts: map<Key, Json>, binding: Option<Json>, others: map<Key, Json>): Json {
    var plan := (others - {SourceBomBinding}) + map[
      InputTargetFiles := Object(inputFacts), RollbackPolicy := Object(ExpectedRollbackPolicy()),
      DeviceWritePerformed := Bool(false), PublicUploadPerformed := Bool(false)
    ];
    Object(if binding.Some? then plan[SourceBomBinding := binding.value] else plan)
  }

  /** What the validator demands of the projected binding. */
  predicate Fits(binding: Option<Json>) {
    binding.Some? ==> BindingOk(binding.value)
  }

  /** The facts a run has collected; `Null` until the step that finds them. */
  datatype Facts = Facts(material: Json, signed: Json, crypto: Json, ota: Json)

  /** A run without an error has found everything. */
  predicate Complete(facts: Facts, b: Build) {
    && facts.material.Object? && facts.signed.Object? && facts.crypto.Object? && facts.ota.Object?
    && facts.signed.Get(BuildType) == Str(BuildName(b)) && facts.ota.Get(BuildType) == Str(BuildName(b))
  }

  /** The receipt of an execution. */
  function ExecutionReceipt(b: Build, plan: Json, facts: Facts, error: Option<string>, sidecar: map<Key, Json>): Json {
    var errorValue := if error.Some? then Str(error.value) else Null;
    var decision := ExecutionDecision(b, errorValue);
    Object(map[
      Schema := Str(RECEIPT_SCHEMA), Decision := Str(if decision.Accepted? then decision.value else ""),
      BuildType := Str(BuildName(b)), DryRun := Bool(false), ConfigSha256 := Object(sidecar).Get(ConfigSha256),
      Plan := plan, ReleaseBoundaries := Object(Boundaries(b)), Material := facts.material,
      SignedTargetFiles := facts.signed, SignedTargetCryptography := facts.crypto, SignedFullAbOta := facts.ota,
      QuarantinedPartialOutputs := Object(sidecar).Get(QuarantinedPartialOutputs),
      Commands := Object(sidecar).Get(Commands),
      SecretSourcePathsRecorded := Bool(false), PrivateKeyContentsRecorded := Bool(false),
      PlaintextPassphrasesRecorded := Bool(false), TransientPasswordFileRetained := Bool(false),
      TransientMaterialRetained := Bool(false), DeviceWritePerformed := Bool(false),
      PublicUploadPerformed := Bool(false), PublicReleaseAuthorized := Bool(false), Error := errorValue
    ])
  }

  /** The receipt of a dry run. */
  function DryRunReceipt(b: Build, plan: Json, material: Option<map<Key, Json>>): Json {
    Object(map[
      Schema := Str(RECEIPT_SCHEMA), Decision := Str(DryRunDecision(b, material.Some?)), BuildType := Str(BuildName(b)),
      DryRun := Bool(true), PrivateMaterialRead := Bool(material.Some?),
      Material := if material.Some? then Object(material.value) else Null, Plan := plan,
      ReleaseBoundaries := Object(Boundaries(b)), SigningPerformed := Bool(false), OtaGenerated := Bool(false),
      DeviceWritePerformed := Bool(false), PublicUploadPerformed := Bool(false), PublicReleaseAuthorized := Bool(false)
    ])
  }

  lemma NamesABuild(b: Build)
    ensures BuildNamed(Str(BuildName(b))) == Accepted(b)
  {
    assert "user" != "userdebug";
  }

  lemma PlanFields(inputFacts: map<Key, Json>, binding: Option<Json>, others: map<Key, Json>)
    ensures
      var plan := PublicPlan(inputFacts, binding, others);
      && plan.Object? && plan.Get(InputTargetFiles) == Object(inputFacts)
      && plan.Get(DeviceWritePerformed) == Bool(false) && plan.Get(PublicUploadPerformed) == Bool(false)
      && plan.Get(RollbackPolicy) == Object(ExpectedRollbackPolicy())
      && plan.Get(SourceBomBinding) == if binding.Some? then binding.value else Null
  {
    hide ExpectedRollbackPolicy;
  }

  /** The tool's own plan passes exactly when the binding it carries fits. */
  lemma PlanPassesIff(b: Build, inputFacts: map<Key, Json>, binding: Option<Json>, others: map<Key, Json>)
    requires Object(inputFacts).Get(BuildType) == Str(BuildName(b))
    ensures PlanOk(PublicPlan(inputFacts, binding, others), Str(BuildName(b))) <==> Fits(binding)
  {
    hide BuildName, ExpectedRollbackPolicy, PublicPlan, BindingOk;
    PlanFields(inputFacts, binding, others);
    NoBindingFits();
  }

  lemma NoBindingFits()
    ensures BindingOk(Null)
  {
  }

  lemma ReceiptHasItsKeys(b: Build, plan: Json, facts: Facts, error: Option<string>, sidecar: map<Key, Json>)
    ensures ExecutionReceipt(b, plan, facts, error, sidecar).Object?
    ensures ExecutionReceipt(b, plan, facts, error, sidecar).fields.Keys == EXECUTION_KEYS
  {
    hide BuildName, Boundaries, ExecutionDecision;
  }

  lemma ReceiptIdentity(b: Build, plan: Json, facts: Facts, error: Option<string>, sidecar: map<Key, Json>)
    ensures
      var r := ExecutionReceipt(b, plan, facts, error, sidecar);
      r.Get(Schema) == Str(RECEIPT_SCHEMA) && r.Get(BuildType) == Str(BuildName(b)) && r.Get(DryRun) == Bool(false)
  {
    hide BuildName, Boundaries, ExecutionDecision;
  }

  lemma ReceiptPlan(b: Build, plan: Json, facts: Facts, error: Option<string>, sidecar: map<Key, Json>)
    ensures
      var r := ExecutionReceipt(b, plan, facts, error, sidecar);
      r.Get(Plan) == plan && r.Get(ReleaseBoundaries) == Object(Boundaries(b))
  {
    hide BuildName, Boundaries, ExecutionDecision;
  }

  lemma ReceiptClaimsNothing(b: Build, plan: Json, facts: Facts, error: Option<string>, sidecar: map<Key, Json>)
    ensures
      var r := ExecutionReceipt(b, plan, facts, error, sidecar);
      && r.Get(DeviceWritePerformed) == Bool(false) && r.Get(PublicUploadPerformed) == Bool(false)
      && r.Get(PublicReleaseAuthorized) == Bool(false)
  {
    hide BuildName, Boundaries, ExecutionDecision;
  }

  lemma ReceiptOutcome(b: Build, plan: Json, facts: Facts, error: Option<string>, sidecar: map<Key, Json>)
    ensures
      var r := ExecutionReceipt(b, plan, facts, error, sidecar);
      var errorValue := if error.Some? then Str(error.value) else Null;
      && r.Get(Error) == errorValue && ExecutionDecision(b, errorValue).Accepted?
      && r.Get(Decision) == Str(ExecutionDecision(b, errorValue).value)
  {
    hide BuildName, Boundaries;
  }

  lemma ReceiptFacts(b: Build, plan: Json, facts: Facts, error: Option<string>, sidecar: map<Key, Json>)
    ensures
      var r := ExecutionReceipt(b, plan, facts, error, sidecar);
      && r.Get(Material) == facts.material && r.Get(SignedTargetFiles) == facts.signed
      && r.Get(SignedTargetCryptography) == facts.crypto && r.Get(SignedFullAbOta) == facts.ota
  {
    hide BuildName, Boundaries, ExecutionDecision;
  }

  lemma ReceiptRecordsNoSecret(b: Build, plan: Json, facts: Facts, error: Option<string>, sidecar: map<Key, Json>)
    ensures
      var r := ExecutionReceipt(b, plan, facts, error, sidecar);
      && r.Get(SecretSourcePathsRecorded) == Bool(false) && r.Get(PrivateKeyContentsRecorded) == Bool(false)
      && r.Get(PlaintextPassphrasesRecorded) == Bool(false) && r.Get(TransientPasswordFileRetained) == Bool(false)
      && r.Get(TransientMaterialRetained) == Bool(false)
  {
    hide BuildName, Boundaries, ExecutionDecision;
  }

  lemma ReceiptIsExecutionOk(b: Build, plan: Json, facts: Facts, error: Option<string>, sidecar: map<Key, Json>)
    requires ExecutionReceipt(b, plan, facts, error, sidecar).Object?
    requires ExecutionReceipt(b, plan, facts, error, sidecar).fields.Keys == EXECUTION_KEYS
    ensures ExecutionOk(ExecutionReceipt(b, plan, facts, error, sidecar).fields, b) <==>
      (error.None? ==> Complete(facts, b))
  {
    hide ExecutionReceipt, BuildName, ExecutionDecision;
    ReceiptOutcome(b, plan, facts, error, sidecar);
    ReceiptFacts(b, plan, facts, error, sidecar);
    ReceiptRecordsNoSecret(b, plan, facts, error, sidecar);
  }

  /** Every execution receipt satisfies the validator, whatever failed, exactly when the projected binding fits and
      a run without an error is complete. */
  lemma ExecutionReceiptValidates(b: Build, inputFacts: map<Key, Json>, binding: Option<Json>, others: map<Key, Json>,
                                  facts: Facts, error: Option<string>, sidecar: map<Key, Json>)
    requires Object(inputFacts).Get(BuildType) == Str(BuildName(b))
    ensures Validates(ExecutionReceipt(b, PublicPlan(inputFacts, binding, others), facts, error, sidecar)) <==>
      Fits(binding) && (error.None? ==> Complete(facts, b))
  {
    var plan := PublicPlan(inputFacts, binding, others);
    hide BuildName, BuildNamed, PublicPlan, PlanOk, Boundaries, Fits, ExecutionOk, Complete, EqualsFlat;
    hide ExecutionReceipt;
    NamesABuild(b);
    PlanPassesIff(b, inputFacts, binding, others);
    ReceiptHasItsKeys(b, plan, facts, error, sidecar);
    ReceiptIdentity(b, plan, facts, error, sidecar);
    ReceiptPlan(b, plan, facts, error, sidecar);
    ReceiptClaimsNothing(b, plan, facts, error, sidecar);
    ReceiptIsExecutionOk(b, plan, facts, error, sidecar);
    EqualsItself(b);
  }

  lemma EqualsItself(b: Build)
    ensures EqualsFlat(Object(Boundaries(b)), Boundaries(b))
  {
    hide Boundaries;
  }

  lemma DryRunHeader(b: Build, plan: Json, material: Option<map<Key, Json>>)
    ensures
      var r := DryRunReceipt(b, plan, material);
      && r.Object? && r.fields.Keys == DRY_RUN_KEYS
      && r.Get(Schema) == Str(RECEIPT_SCHEMA) && r.Get(BuildType) == Str(BuildName(b)) && r.Get(DryRun) == Bool(true)
      && r.Get(Plan) == plan && r.Get(ReleaseBoundaries) == Object(Boundaries(b))
  {
    hide BuildName, Boundaries, DryRunDecision;
  }

  lemma DryRunReceiptIsOk(b: Build, plan: Json, material: Option<map<Key, Json>>)
    requires DryRunReceipt(b, plan, material).Object? && DryRunReceipt(b, plan, material).fields.Keys == DRY_RUN_KEYS
    ensures
      var r := DryRunReceipt(b, plan, material);
      && DryRunOk(r.fields, b) && r.Get(DeviceWritePerformed) == Bool(false)
      && r.Get(PublicUploadPerformed) == Bool(false) && r.Get(PublicReleaseAuthorized) == Bool(false)
  {
    hide BuildName, Boundaries, DryRunDecision;
  }

  /** So does every dry-run receipt. */
  lemma DryRunReceiptValidates(b: Build, inputFacts: map<Key, Json>, binding: Option<Json>, others: map<Key, Json>,
                               material: Option<map<Key, Json>>)
    requires Object(inputFacts).Get(BuildType) == Str(BuildName(b))
    ensures Validates(DryRunReceipt(b, PublicPlan(inputFacts, binding, others), material)) <==> Fits(binding)
  {
    hide BuildName, BuildNamed, PublicPlan, PlanOk, Boundaries, Fits, DryRunOk, EqualsFlat, DryRunReceipt;
    NamesABuild(b);
    PlanPassesIff(b, inputFacts, binding, others);
    EqualsItself(b);
    DryRunHeader(b, PublicPlan(inputFacts, binding, others), material);
    DryRunReceiptIsOk(b, PublicPlan(inputFacts, binding, others), material);
  }

  /** A valid execution receipt says PASS exactly when it records no error, and then for a complete set of facts. */
  lemma PassMeansNoError(value: Json)
    requires Validates(value) && value.Get(DryRun) == Bool(false)
    ensures value.Get(Decision) != Str(EXECUTION_DENY) <==> value.Get(Error) == Null
    ensures value.Get(Error) == Null ==> value.Get(SignedFullAbOta).Get(BuildType) == value.Get(BuildType)
  {
    hide PlanOk, Boundaries, EqualsFlat;
    DenyIsNoPass(EXECUTION_USER_PASS, EXECUTION_USERDEBUG_PASS, EXECUTION_DENY);
  }

  lemma DenyIsNoPass(user: string, userdebug: string, deny: string)
    requires user == EXECUTION_USER_PASS && userdebug == EXECUTION_USERDEBUG_PASS && deny == EXECUTION_DENY
    ensures user != deny && userdebug != deny
  {
    assert |user| == 67 && |userdebug| == 50 && |deny| == 39;
  }

  // ----- what a receipt says -----

  /** The decision of an execution, spelled out. */
  ghost predicate Decides(decision: Json, user: bool, passed: bool) {
    decision == Str(
      if !passed then "DENY_RELEASE_OTA_PIPELINE_FAILED_CLOSED"
      else if user then "PASS_HOST_SIGNED_FULL_AB_OTA_USER_RELEASE_CANDIDATE_BOUNDARIES_HOLD"
      else "PASS_HOST_SIGNED_FULL_AB_OTA_USERDEBUG_NON_RELEASE")
  }

  /** The decision of a dry run, spelled out. */
  ghost predicate Preflights(decision: Json, user: bool, materialRead: bool) {
    decision == Str(
      if user && materialRead then "PASS_HOST_SIGNING_MATERIAL_PREFLIGHT_USER_RELEASE_CANDIDATE_BOUNDARIES_HOLD"
      else if user then "PASS_HOST_SIGNING_PREFLIGHT_USER_RELEASE_CANDIDATE_BOUNDARIES_HOLD"
      else if materialRead then "PASS_HOST_SIGNING_MATERIAL_PREFLIGHT_USERDEBUG_NON_RELEASE"
      else "PASS_HOST_SIGNING_PREFLIGHT_USERDEBUG_NON_RELEASE")
  }

  /** Python's falsehood: `False`, `0` or `0.0`. */
  ghost predicate IsFalse(j: Json) {
    NumberIn(j) == Some(0.0)
  }

  /** No receipt claims a device, a public release or release readiness; only a user build is a candidate. */
  ghost predicate Bounds(boundaries: Json, user: bool) {
    && boundaries.Get(Schema) == Str("org.trillionnium.android-release-boundaries.v1")
    && boundaries.Get(EvidenceScope) == Str("HOST_TARGET_FILES_SIGNING_AND_OTA_PACKAGING_ONLY")
    && boundaries.Get(BuildClassification) ==
       Str(if user then "USER_RELEASE_CANDIDATE_HOST_ONLY" else "USERDEBUG_NON_RELEASE_HOST_SIGNED_ARTIFACT")
    && boundaries.Get(ReleaseEligibility) ==
       Str(if user then "HOLD_DEVICE_RELEASE_BOUNDARIES_NOT_PROVEN" else "DENY_USERDEBUG_NON_RELEASE")
    && IsFalse(boundaries.Get(ReleaseReady)) && IsFalse(boundaries.Get(DeviceEvidenceCollected))
    && boundaries.Get(LockedGreenDevice) == Str("HOLD_NOT_PROVEN_BY_HOST_PIPELINE")
    && boundaries.Get(HardwareAntirollback) == Str("HOLD_NOT_PROVEN_BY_HOST_PIPELINE")
    && boundaries.Get(ErofsFsverity) == Str("HOLD_NOT_PROVEN_BY_HOST_PIPELINE")
    && boundaries.Get(DeviceOtaInstall) == Str("HOLD_NOT_PERFORMED_BY_HOST_PIPELINE")
    && boundaries.Get(PublicRelease) == Str("HOLD_NOT_AUTHORIZED")
  }

  /** Every receipt denies that a device was written, that anything was uploaded or that a release is authorized. */
  ghost predicate DeniesEffects(value: Json) {
    && value.Get(DeviceWritePerformed) == Bool(false) && value.Get(PublicUploadPerformed) == Bool(false)
    && value.Get(PublicReleaseAuthorized) == Bool(false)
    && value.Get(Plan).Get(DeviceWritePerformed) == Bool(false)
    && value.Get(Plan).Get(PublicUploadPerformed) == Bool(false)
  }

  /** An execution records no secret, and one without an error has all its facts, for the receipt's build type. */
  ghost predicate ReportsExecution(value: Json) {
    && value.Get(SecretSourcePathsRecorded) == Bool(false) && value.Get(PrivateKeyContentsRecorded) == Bool(false)
    && value.Get(PlaintextPassphrasesRecorded) == Bool(false)
    && value.Get(TransientPasswordFileRetained) == Bool(false) && value.Get(TransientMaterialRetained) == Bool(false)
    && (value.Get(Error) == Null || value.Get(Error).Str?)
    && (value.Get(Error) == Null ==>
          && value.Get(Material).Object? && value.Get(SignedTargetCryptography).Object?
          && value.Get(SignedTargetFiles).Object? && value.Get(SignedFullAbOta).Object?
          && value.Get(SignedTargetFiles).Get(BuildType) == value.Get(BuildType)
          && value.Get(SignedFullAbOta).Get(BuildType) == value.Get(BuildType))
  }

  /** A dry run signs nothing, and shows material exactly if it read it. */
  ghost predicate ReportsDryRun(value: Json) {
    && value.Get(SigningPerformed) == Bool(false) && value.Get(OtaGenerated) == Bool(false)
    && value.Get(PrivateMaterialRead).Bool?
    && (value.Get(PrivateMaterialRead) == Bool(false) <==> value.Get(Material) == Null)
  }

  /** The plan is about the receipt's build type and claims no hardware rollback protection. */
  ghost predicate ReportsPlan(plan: Json, buildType: Json) {
    && plan.Get(InputTargetFiles).Get(BuildType) == buildType
    && plan.Get(RollbackPolicy).Get(Scope) == Str("source_and_target_files_expected_values_only")
    && IsFalse(plan.Get(RollbackPolicy).Get(HardwareHighWaterProven))
    && IsFalse(plan.Get(RollbackPolicy).Get(HardwareProgrammingAuthorized))
    && (plan.Get(SourceBomBinding) == Null || ReportsBinding(plan.Get(SourceBomBinding)))
  }

  /** A binding that is there was required and found valid, under its fixed name, for a BOM of a positive size and a
      digest of 64 lower-case hexadecimal digits. */
  ghost predicate ReportsBinding(binding: Json) {
    && binding.Get(Required) == Bool(true) && binding.Get(Present) == Bool(true) && binding.Get(Valid) == Bool(true)
    && binding.Get(Member) == Str("META/trillionnium-source-bom-binding.json")
    && (exists n :: n > 0 && binding.Get(SourceBom).Get(Bytes) == Int(n))
    && exists hex :: binding.Get(SourceBom).Get(Sha256) == Str(hex) && |hex| == 64 &&
         forall i :: 0 <= i < 64 ==> hex[i] in "0123456789abcdef"
  }

  /** A receipt is consistent: its decision and its boundaries follow from its own build type, and from its error
      (an execution) or from what it read (a dry run). */
  ghost predicate Consistent(value: Json) {
    && value.Get(Schema) == Str("org.trillionnium.android-release-ota-receipt.v2")
    && (value.Get(BuildType) == Str("user") || value.Get(BuildType) == Str("userdebug"))
    && var user := value.Get(BuildType) == Str("user");
    && Bounds(value.Get(ReleaseBoundaries), user)
    && DeniesEffects(value) && ReportsPlan(value.Get(Plan), value.Get(BuildType))
    && match value.Get(DryRun)
       case Bool(false) => Decides(value.Get(Decision), user, value.Get(Error) == Null) && ReportsExecution(value)
       case Bool(true) =>
         && Preflights(value.Get(Decision), user, value.Get(PrivateMaterialRead) == Bool(true))
         && ReportsDryRun(value)
       case _ => false
  }

  lemma PlanReports(plan: Json, buildType: Json)
    requires PlanOk(plan, buildType)
    ensures ReportsPlan(plan, buildType)
    ensures plan.Get(DeviceWritePerformed) == Bool(false) && plan.Get(PublicUploadPerformed) == Bool(false)
  {
    var expected, policy := ExpectedRollbackPolicy(), plan.Get(RollbackPolicy);
    SameEntry(policy, expected, Scope);
    SameEntry(policy, expected, HardwareHighWaterProven);
    SameEntry(policy, expected, HardwareProgrammingAuthorized);
    hide EqualsFlat;
    if plan.Get(SourceBomBinding) != Null {
      BindingReports(plan.Get(SourceBomBinding));
    }
    hide BindingOk, ReportsBinding;
  }

  lemma BindingReports(binding: Json)
    requires BindingOk(binding) && binding != Null
    ensures ReportsBinding(binding)
  {
    var hex := binding.Get(SourceBom).Get(Sha256).text;
    assert IsHex64(hex);
    forall i | 0 <= i < 64 ensures hex[i] in "0123456789abcdef" {
      assert hex[i] in hex;
      HexDigits(hex[i]);
    }
  }

  lemma HexDigits(c: char)
    requires '0' <= c <= '9' || 'a' <= c <= 'f'
    ensures c in "0123456789abcdef"
  {
    var all := "0123456789abcdef";
    var i := if c <= '9' then c as int - '0' as int else c as int - 'a' as int + 10;
    assert all[i] == c;
  }

  lemma BoundariesBound(b: Build, value: Json)
    requires EqualsFlat(value, Boundaries(b))
    ensures Bounds(value, b.User?)
  {
    var expected := Boundaries(b);
    hide Boundaries;
    BoundaryClass(b);
    BoundaryScope(b);
    BoundaryDevice(b);
    BoundaryFlags(b);
    forall k | k in expected ensures SameAs(value.Get(k), expected[k]) {
      SameEntry(value, expected, k);
    }
    hide EqualsFlat;
    assert SameAs(value.Get(Schema), expected[Schema]);
    assert SameAs(value.Get(EvidenceScope), expected[EvidenceScope]);
    assert SameAs(value.Get(BuildClassification), expected[BuildClassification]);
    assert SameAs(value.Get(ReleaseEligibility), expected[ReleaseEligibility]);
    assert SameAs(value.Get(LockedGreenDevice), expected[LockedGreenDevice]);
    assert SameAs(value.Get(HardwareAntirollback), expected[HardwareAntirollback]);
    assert SameAs(value.Get(ErofsFsverity), expected[ErofsFsverity]);
    assert SameAs(value.Get(DeviceOtaInstall), expected[DeviceOtaInstall]);
    assert SameAs(value.Get(PublicRelease), expected[PublicRelease]);
    assert SameAs(value.Get(ReleaseReady), expected[ReleaseReady]);
    assert SameAs(value.Get(DeviceEvidenceCollected), expected[DeviceEvidenceCollected]);
  }

  /** A string entry is that string; a `False` entry is false. */
  ghost predicate SameAs(j: Json, expected: Json) {
    (expected.Str? ==> j == expected) && (expected == Bool(false) ==> IsFalse(j))
  }

  lemma SameEntry(value: Json, expected: map<Key, Json>, k: Key)
    requires EqualsFlat(value, expected) && k in expected
    ensures SameAs(value.Get(k), expected[k])
  {
    assert k in value.fields;
  }

  lemma BoundaryFlags(b: Build)
    ensures Boundaries(b).Keys >= {ReleaseReady, DeviceEvidenceCollected}
    ensures Boundaries(b)[ReleaseReady] == Bool(false) && Boundaries(b)[DeviceEvidenceCollected] == Bool(false)
  {
  }

  lemma BoundaryClass(b: Build)
    ensures
      var m := Boundaries(b);
      && BuildClassification in m && m[BuildClassification] ==
         Str(if b.User? then "USER_RELEASE_CANDIDATE_HOST_ONLY" else "USERDEBUG_NON_RELEASE_HOST_SIGNED_ARTIFACT")
      && ReleaseEligibility in m && m[ReleaseEligibility] ==
         Str(if b.User? then "HOLD_DEVICE_RELEASE_BOUNDARIES_NOT_PROVEN" else "DENY_USERDEBUG_NON_RELEASE")
  {
  }

  lemma BoundaryScope(b: Build)
    ensures
      var m := Boundaries(b);
      && Schema in m && m[Schema] == Str("org.trillionnium.android-release-boundaries.v1")
      && EvidenceScope in m && m[EvidenceScope] == Str("HOST_TARGET_FILES_SIGNING_AND_OTA_PACKAGING_ONLY")
  {
  }

  lemma BoundaryDevice(b: Build)
    ensures
      var m := Boundaries(b);
      && LockedGreenDevice in m && m[LockedGreenDevice] == Str("HOLD_NOT_PROVEN_BY_HOST_PIPELINE")
      && HardwareAntirollback in m && m[HardwareAntirollback] == Str("HOLD_NOT_PROVEN_BY_HOST_PIPELINE")
      && ErofsFsverity in m && m[ErofsFsverity] == Str("HOLD_NOT_PROVEN_BY_HOST_PIPELINE")
      && DeviceOtaInstall in m && m[DeviceOtaInstall] == Str("HOLD_NOT_PERFORMED_BY_HOST_PIPELINE")
      && PublicRelease in m && m[PublicRelease] == Str("HOLD_NOT_AUTHORIZED")
  {
  }

  /** The validator lets only consistent receipts through. */
  lemma ValidIsConsistent(value: Json)
    requires Validates(value)
    ensures Consistent(value)
  {
    hide PlanOk, Boundaries, EqualsFlat, Bounds, ReportsPlan;
    var b := BuildNamed(value.Get(BuildType)).value;
    BoundariesBound(b, value.Get(ReleaseBoundaries));
    PlanReports(value.Get(Plan), value.Get(BuildType));
    assert Str("user") != Str("userdebug");
  }

  /** What the tool writes after a dry run: the decision of its build type and of what it read. */
  lemma DryRunSays(b: Build, plan: Json, material: Option<map<Key, Json>>)
    ensures
      var r := DryRunReceipt(b, plan, material);
      && r.Get(BuildType) == Str(if b.User? then "user" else "userdebug")
      && Preflights(r.Get(Decision), b.User?, material.Some?) && Bounds(r.Get(ReleaseBoundaries), b.User?)
  {
    DryRunHeader(b, plan, material);
    DryRunChoice(b, plan, material);
    hide DryRunReceipt, Boundaries, EqualsFlat;
    EqualsItself(b);
    BoundariesBound(b, Object(Boundaries(b)));
  }

  lemma DryRunChoice(b: Build, plan: Json, material: Option<map<Key, Json>>)
    ensures DryRunReceipt(b, plan, material).Get(Decision) == Str(DryRunDecision(b, material.Some?))
  {
    hide Boundaries, DryRunDecision, BuildName;
  }
}
