/** The strict source-BOM preflight of the release tool: the read-only inspection of the target-files archive, and the
    projection of its report into the release plan. */
module SourceBinding {
  import opened Outcomes
  import opened ReleaseReceipt
  import Paths

  const MAX_TARGET_BYTES := 16 * 1024 * 1024 * 1024
  const MAX_MEMBER_BYTES := 2 * 1024 * 1024
  const MAX_ZIP_ENTRIES := 1_000_000
  const MAX_SOURCE_BOM_BYTES := 16 * 1024 * 1024

  // ----- the inspector -----

  /** What the ZIP reader finds: the member names, and the size and bytes of the binding member if it is listed. */
  datatype Zip = Zip(names: seq<string>, memberSize: int, member: Outcome<string>)

  /** The target-files path; an exception is a denial. */
  datatype TargetFiles = TargetFiles(symlinked: bool, size: Outcome<int>, zip: Outcome<Zip>)

  /** What the validation of the parsed binding reports. */
  datatype Findings = Findings(valid: bool, bindingId: Json, receiptId: Json)

  datatype Report = Report(present: bool, member: string, valid: bool, bindingId: Json, receiptId: Json)

  /** `_safe_zip_member`; a POSIX path has no empty and no `.` part. */
  predicate IsSafeMember(name: string) {
    && name != "" && '\\' !in name && name[0] != '/' && '\0' !in name
    && ".." !in Paths.Parts(name)
  }

  predicate HasDuplicates(names: seq<string>) {
    exists i, j :: 0 <= i < j < |names| && names[i] == names[j]
  }

  predicate IsGoodListing(names: seq<string>) {
    0 < |names| <= MAX_ZIP_ENTRIES && !HasDuplicates(names) && forall n :: n in names ==> IsSafeMember(n)
  }

  /** `inspect_target_files_source_bom_binding`; the JSON parser and the binding's own validation are parameters. */
  function InspectBinding(target: TargetFiles, required: bool, parse: string -> Outcome<Json>,
                          validate: (Json, string) -> Outcome<Findings>): Report
  {
    var start := Report(false, BINDING_MEMBER, true, Null, Null);
    var refused := start.(valid := false);
    if target.symlinked || target.size.Denied? || !(0 < target.size.value <= MAX_TARGET_BYTES) then refused
    else if target.zip.Denied? || !IsGoodListing(target.zip.value.names) then refused
    else if BINDING_MEMBER !in target.zip.value.names then start.(valid := !required)
    else if !(0 < target.zip.value.memberSize <= MAX_MEMBER_BYTES) || target.zip.value.member.Denied? then refused
    else
      var raw := target.zip.value.member.value;
      if parse(raw).Denied? then refused
      else
        var findings := validate(parse(raw).value, raw);
        if findings.Denied? then refused
        else Report(true, BINDING_MEMBER, findings.value.valid, findings.value.bindingId, findings.value.receiptId)
  }

  /** A member name that is relative, spelled with neither backslash nor NUL, and never climbs. */
  ghost predicate NeverClimbs(name: string) {
    && name != "" && name[0] != '/' && '\\' !in name && '\0' !in name
    && forall i :: 0 <= i < |Paths.Split(name)| ==> Paths.Split(name)[i] != ".."
  }

  /** A listing of one to a million different such names. */
  ghost predicate ListsOnce(names: seq<string>) {
    && 1 <= |names| <= 1_000_000
    && (forall i, j :: 0 <= i < j < |names| ==> names[i] != names[j])
    && forall i :: 0 <= i < |names| ==> NeverClimbs(names[i])
  }

  /** A plain file of one byte to 16 GiB that the ZIP reader opens and that lists its members once. */
  ghost predicate Opens(target: TargetFiles) {
    && !target.symlinked && target.size.Accepted? && 1 <= target.size.value <= 17_179_869_184
    && target.zip.Accepted? && ListsOnce(target.zip.value.names)
  }

  /** The binding member is listed, has one byte to 2 MiB, is read and parsed, and its validation finds `found`. */
  ghost predicate Finds(target: TargetFiles, parse: string -> Outcome<Json>,
                        validate: (Json, string) -> Outcome<Findings>, found: Findings)
  {
    && Opens(target) && "META/trillionnium-source-bom-binding.json" in target.zip.value.names
    && 1 <= target.zip.value.memberSize <= 2_097_152 && target.zip.value.member.Accepted?
    && parse(target.zip.value.member.value).Accepted?
    && validate(parse(target.zip.value.member.value).value, target.zip.value.member.value) == Accepted(found)
  }

  lemma {:induction false} KeepKeepsClimbs(cs: seq<string>)
    ensures ".." in Paths.Keep(cs) <==> ".." in cs
  {
    if cs != [] {
      KeepKeepsClimbs(cs[1..]);
    }
  }

  /** `PurePosixPath` drops empty and `.` parts, so of the three parts the tool refuses only `..` can occur. */
  lemma SafeMemberIff(name: string)
    ensures IsSafeMember(name) <==> NeverClimbs(name)
  {
    KeepKeepsClimbs(Paths.Split(name));
  }

  lemma GoodListingIff(names: seq<string>)
    ensures IsGoodListing(names) <==> ListsOnce(names)
  {
    hide IsSafeMember, NeverClimbs;
    forall i | 0 <= i < |names| ensures IsSafeMember(names[i]) <==> NeverClimbs(names[i]) {
      SafeMemberIff(names[i]);
    }
    assert (forall n :: n in names ==> IsSafeMember(n)) <==> forall i :: 0 <= i < |names| ==> IsSafeMember(names[i]);
  }

  /** The inspection: the report shows a binding exactly when one is found, and is then as valid as its validation
      finds it; without one it is valid exactly when the archive opens, lacks the member and none is required. */
  lemma InspectionReports(target: TargetFiles, required: bool, parse: string -> Outcome<Json>,
                          validate: (Json, string) -> Outcome<Findings>, found: Findings)
    ensures InspectBinding(target, required, parse, validate).member == "META/trillionnium-source-bom-binding.json"
    ensures Finds(target, parse, validate, found) <==>
      InspectBinding(target, required, parse, validate) ==
        Report(true, BINDING_MEMBER, found.valid, found.bindingId, found.receiptId)
    ensures !InspectBinding(target, required, parse, validate).present ==>
      (InspectBinding(target, required, parse, validate).valid <==>
       Opens(target) && "META/trillionnium-source-bom-binding.json" !in target.zip.value.names && !required)
  {
    hide IsGoodListing, ListsOnce;
    if target.zip.Accepted? {
      GoodListingIff(target.zip.value.names);
    }
  }

  // ----- the digest -----

  newtype octet = x: int | 0 <= x < 256

  /** SHA-256 yields 32 bytes. */
  type Digest = d: seq<octet> | |d| == 32 witness seq(32, _ => 0)

  function HexDigit(n: int): char
    requires 0 <= n < 16
  {
    if n < 10 then ('0' as int + n) as char else ('a' as int + n - 10) as char
  }

  /** `hexdigest`. */
  function Hex(d: seq<octet>): string {
    if d == [] then "" else [HexDigit(d[0] as int / 16), HexDigit(d[0] as int % 16)] + Hex(d[1..])
  }

  lemma {:induction false} HexSpelling(d: seq<octet>)
    ensures |Hex(d)| == 2 * |d| && forall c :: c in Hex(d) ==> '0' <= c <= '9' || 'a' <= c <= 'f'
  {
    if d != [] {
      HexSpelling(d[1..]);
    }
  }

  function HexValue(c: char): int {
    if '0' <= c <= '9' then c as int - '0' as int else c as int - 'a' as int + 10
  }

  /** The printed digest reads back: byte `i` is the number of digits `2 * i` and `2 * i + 1`. */
  lemma {:induction false} HexReadsBack(d: seq<octet>, i: nat)
    requires i < |d|
    ensures |Hex(d)| == 2 * |d|
    ensures 16 * HexValue(Hex(d)[2 * i]) + HexValue(Hex(d)[2 * i + 1]) == d[i] as int
    decreases d
  {
    HexSpelling(d[1..]);
    if i > 0 {
      HexReadsBack(d[1..], i - 1);
    }
  }

  // ----- the preflight -----

  /** The inputs of the strict mode: the BOM as the strict reader sees it, the archive, and the parsers. */
  datatype Strict = Strict(bom: Outcome<string>, target: TargetFiles, parse: string -> Outcome<Json>,
                           validate: (Json, string) -> Outcome<Findings>, sha256: string -> Digest)

  /** `strict_regular_bytes`: an empty or oversized file is refused. */
  function StrictBytes(file: Outcome<string>, maximum: int): Outcome<string> {
    if file.Denied? || !(1 <= |file.value| <= maximum) then Denied else file
  }

  /** `inspect_required_source_bom_binding`: only a valid report is projected. */
  function RequireBinding(s: Strict): Outcome<Json> {
    var bom :- StrictBytes(s.bom, MAX_SOURCE_BOM_BYTES);
    var report := InspectBinding(s.target, true, s.parse, s.validate);
    if !report.valid then Denied
    else Accepted(Object(map[
      Required := Bool(true), Present := Bool(report.present), Valid := Bool(true), Member := Str(report.member),
      Other("binding_id") := report.bindingId, Other("source_bom_receipt_id") := report.receiptId,
      SourceBom := Object(map[Bytes := Int(|bom|), Sha256 := Str(Hex(s.sha256(bom)))])
    ]))
  }

  /** The binding the plan carries: none outside the strict mode. */
  function PlanBinding(strict: Option<Strict>): Outcome<Option<Json>> {
    if strict.None? then Accepted(None)
    else
      var binding :- RequireBinding(strict.value);
      Accepted(Some(binding))
  }

  /** With the binding required, a report that calls itself valid has found the member. */
  lemma ValidMeansPresent(s: Strict)
    ensures
      var report := InspectBinding(s.target, true, s.parse, s.validate);
      report.member == BINDING_MEMBER && (report.valid ==> report.present)
  {
    hide IsGoodListing;
  }

  /** Every binding the preflight lets through satisfies the receipt validator. */
  lemma RequiredBindingFits(s: Strict)
    ensures RequireBinding(s).Accepted? ==> BindingOk(RequireBinding(s).value)
  {
    hide InspectBinding;
    ValidMeansPresent(s);
    if s.bom.Accepted? {
      HexSpelling(s.sha256(s.bom.value));
    }
    hide Hex;
  }

  /** The preflight passes exactly for a readable BOM of one byte to 16 MiB and a found, valid binding; what it
      projects is the binding's identity and the size and digest of that BOM. */
  lemma RequireBindingIff(s: Strict)
    ensures RequireBinding(s).Accepted? <==>
      && s.bom.Accepted? && 1 <= |s.bom.value| <= 16_777_216
      && exists found :: Finds(s.target, s.parse, s.validate, found) && found.valid
    ensures RequireBinding(s).Accepted? ==>
      && RequireBinding(s).value.Get(SourceBom).Get(Bytes) == Int(|s.bom.value|)
      && RequireBinding(s).value.Get(SourceBom).Get(Sha256) == Str(Hex(s.sha256(s.bom.value)))
      && exists found :: Finds(s.target, s.parse, s.validate, found) &&
           RequireBinding(s).value.Get(Other("binding_id")) == found.bindingId &&
           RequireBinding(s).value.Get(Other("source_bom_receipt_id")) == found.receiptId
  {
    hide InspectBinding, Finds, Opens, Hex;
    var report := InspectBinding(s.target, true, s.parse, s.validate);
    ValidMeansPresent(s);
    var found := Findings(report.valid, report.bindingId, report.receiptId);
    InspectionReports(s.target, true, s.parse, s.validate, found);
    forall f ensures Finds(s.target, s.parse, s.validate, f) ==> f == found {
      InspectionReports(s.target, true, s.parse, s.validate, f);
    }
    assert "binding_id" != "source_bom_receipt_id";
  }

  lemma PlanBindingFits(strict: Option<Strict>)
    ensures PlanBinding(strict).Accepted? ==> Fits(PlanBinding(strict).value)
  {
    hide RequireBinding, BindingOk;
    if strict.Some? {
      RequiredBindingFits(strict.value);
    }
  }

  /** Hence every dry-run receipt satisfies the validator. */
  lemma DryRunAlwaysValidates(b: Build, inputFacts: map<Key, Json>, strict: Option<Strict>, others: map<Key, Json>,
                              material: Option<map<Key, Json>>)
    requires Object(inputFacts).Get(BuildType) == Str(BuildName(b)) && PlanBinding(strict).Accepted?
    ensures Validates(DryRunReceipt(b, PublicPlan(inputFacts, PlanBinding(strict).value, others), material))
  {
    hide PlanBinding, Validates, PublicPlan, DryRunReceipt, Fits, BuildName;
    PlanBindingFits(strict);
    DryRunReceiptValidates(b, inputFacts, PlanBinding(strict).value, others, material);
  }
}
