/**
 * scripts/lib/mcp-action-contracts.js: Action Types checked against the capability registry.
 * Every definition takes the registry as a parameter; COMMAND_CAPABILITIES is one value of it.
 */
module ActionContracts {
  import opened Wrappers
  import opened Lists
  import opened Text
  import opened StringSort

  datatype Effect = Read | Write

  /** `evidence` is "" where the registry holds null; both are falsy and treated alike. */
  datatype Capability = Capability(
    effect: Effect, approver: string, evidence: string, directReadOnlyExec: bool,
    edits: seq<string>, sideEffects: seq<string>, writeFlags: seq<string>)

  type Registry = map<string, Capability>

  /** One argument template; an absent property is None (or false). */
  datatype Template = Template(
    position: Option<nat>, flag: Option<string>, value: Option<string>, source: Option<string>,
    flagOnly: bool, optional: bool)
  {
    predicate HasSource() {
      source.Some? && source.value != ""
    }

    predicate HasFlag() {
      flag.Some? && flag.value != ""
    }
  }

  datatype Mapping = Mapping(command: string, subcommand: string, args: seq<Template>)

  datatype Execution = Plain(mapping: Mapping) | Variants(param: string, table: seq<(string, Mapping)>)
  {
    /** The variants by name; a plain execution is one variant without a name. */
    function Entries(): seq<(string, Mapping)> {
      if Plain? then [("", mapping)] else table
    }
  }

  datatype Action = Action(
    actionTypeId: string, mode: string, execution: Option<Execution>,
    edits: seq<string>, sideEffects: seq<string>,
    approvers: seq<string>, evidenceRequired: seq<string>, governanceEvidence: seq<string>)

  function CapabilityKey(command: string, subcommand: string): string {
    command + "/" + subcommand
  }

  function KeyOf(m: Mapping): string {
    CapabilityKey(m.command, m.subcommand)
  }

  // ---- effect and read-only classification ----

  /** The template emits a write flag and the check sees it: it carries a value or a source. */
  predicate ShowsWriteFlag(cap: Capability, t: Template) {
    t.HasFlag() && t.flag.value in cap.writeFlags && (t.value.Some? || t.HasSource())
  }

  function BindsWriteFlag(cap: Capability, m: Mapping): bool {
    exists t :: t in m.args && ShowsWriteFlag(cap, t)
  }

  method ComputeBindsWriteFlag(cap: Capability, m: Mapping) returns (binds: bool)
    ensures binds == BindsWriteFlag(cap, m)
    ensures binds <==> NamesWriteFlag(cap, m)
  {
    BindsExact(cap, m);
    if |cap.writeFlags| == 0 {
      return false;
    }
    for i := 0 to |m.args|
      invariant forall j :: 0 <= j < i ==> !ShowsWriteFlag(cap, m.args[j])
    {
      var t := m.args[i];
      if t.HasFlag() && t.flag.value in cap.writeFlags {
        if t.value.Some? || t.HasSource() {
          assert t in m.args;
          return true;
        }
      }
    }
    return false;
  }

  /** Spawnable without approval: a read that binds no visible write flag. */
  predicate DirectRead(reg: Registry, m: Mapping) {
    var key := KeyOf(m);
    key in reg && reg[key].effect.Read? && reg[key].directReadOnlyExec && !BindsWriteFlag(reg[key], m)
  }

  predicate IsReadOnlyExecutable(reg: Registry, a: Action) {
    && a.execution.Some?
    && a.mode == "dry-run"
    && a.edits == []
    && forall e :: e in a.execution.value.Entries() ==> DirectRead(reg, e.1)
  }

  // ---- the validator ----

  datatype Kind =
    | MissingId | AutonomousMode | MissingExecution | UnknownCommand
    | ApproverMismatch | EvidenceMissing | EvidenceInvented | EvidenceOnRead
    | GovernanceEvidenceMissing | GovernanceEvidenceOnRead
    | WriteWithoutEdits | EditsMismatch | SideEffectsMismatch | ReadWithEdits | ReadWithSideEffects
    | WriteInDryRun | ReadBindsWriteFlag

  datatype Finding = Finding(variant: string, kind: Kind)

  function When(condition: bool, variant: string, kind: Kind): seq<Finding> {
    if condition then [Finding(variant, kind)] else []
  }

  function Invented(required: seq<string>, evidence: string): bool {
    exists e :: e in required && e != evidence
  }

  /** The parity checks of one variant, in the order they are reported. */
  predicate Fails(a: Action, m: Mapping, cap: Capability, kind: Kind) {
    match kind
    case ApproverMismatch => cap.approver !in a.approvers
    case EvidenceMissing => cap.evidence != "" && cap.evidence !in a.evidenceRequired
    case EvidenceInvented => cap.evidence != "" && Invented(a.evidenceRequired, cap.evidence)
    case EvidenceOnRead => cap.evidence == "" && a.evidenceRequired != []
    case GovernanceEvidenceMissing => cap.evidence != "" && cap.evidence !in a.governanceEvidence
    case GovernanceEvidenceOnRead => cap.evidence == "" && a.governanceEvidence != []
    case WriteWithoutEdits => cap.effect.Write? && a.edits == []
    case EditsMismatch => !SameText(cap.edits, a.edits)
    case SideEffectsMismatch => !SameText(cap.sideEffects, a.sideEffects)
    case ReadWithEdits => cap.effect.Read? && a.edits != []
    case ReadWithSideEffects => cap.effect.Read? && a.sideEffects != []
    case WriteInDryRun => cap.effect.Write? && a.mode == "dry-run"
    case ReadBindsWriteFlag => cap.effect.Read? && BindsWriteFlag(cap, m)
    case _ => false
  }

  function GovernanceFindings(a: Action, variant: string, m: Mapping, cap: Capability): seq<Finding> {
    When(Fails(a, m, cap, ApproverMismatch), variant, ApproverMismatch)
    + When(Fails(a, m, cap, EvidenceMissing), variant, EvidenceMissing)
    + When(Fails(a, m, cap, EvidenceInvented), variant, EvidenceInvented)
    + When(Fails(a, m, cap, EvidenceOnRead), variant, EvidenceOnRead)
    + When(Fails(a, m, cap, GovernanceEvidenceMissing), variant, GovernanceEvidenceMissing)
    + When(Fails(a, m, cap, GovernanceEvidenceOnRead), variant, GovernanceEvidenceOnRead)
  }

  function EffectFindings(a: Action, variant: string, m: Mapping, cap: Capability): seq<Finding> {
    When(Fails(a, m, cap, WriteWithoutEdits), variant, WriteWithoutEdits)
    + When(Fails(a, m, cap, EditsMismatch), variant, EditsMismatch)
    + When(Fails(a, m, cap, SideEffectsMismatch), variant, SideEffectsMismatch)
  }

  function ModeFindings(a: Action, variant: string, m: Mapping, cap: Capability): seq<Finding> {
    When(Fails(a, m, cap, ReadWithEdits), variant, ReadWithEdits)
    + When(Fails(a, m, cap, ReadWithSideEffects), variant, ReadWithSideEffects)
    + When(Fails(a, m, cap, WriteInDryRun), variant, WriteInDryRun)
    + When(Fails(a, m, cap, ReadBindsWriteFlag), variant, ReadBindsWriteFlag)
  }

  function CapabilityFindings(a: Action, variant: string, m: Mapping, cap: Capability): seq<Finding> {
    GovernanceFindings(a, variant, m, cap) + EffectFindings(a, variant, m, cap) + ModeFindings(a, variant, m, cap)
  }

  function VariantFindings(reg: Registry, a: Action, variant: string, m: Mapping): seq<Finding> {
    if KeyOf(m) !in reg then [Finding(variant, UnknownCommand)]
    else CapabilityFindings(a, variant, m, reg[KeyOf(m)])
  }

  /** The findings of one variant, given as an entry of the variants table. */
  function EntryFindings(reg: Registry, a: Action): ((string, Mapping)) -> seq<Finding> {
    (e: (string, Mapping)) => VariantFindings(reg, a, e.0, e.1)
  }

  function EntriesFindings(reg: Registry, a: Action, entries: seq<(string, Mapping)>): seq<Finding> {
    Flatten(entries, EntryFindings(reg, a))
  }

  function Findings(reg: Registry, a: Action): seq<Finding> {
    if a.actionTypeId == "" then [Finding("", MissingId)] else
      When(a.mode == "autonomous", "", AutonomousMode)
      + if a.execution.None? then [Finding("", MissingExecution)]
        else EntriesFindings(reg, a, a.execution.value.Entries())
  }

  method ValidateActionContract(reg: Registry, a: Action) returns (findings: seq<Finding>)
    ensures findings == Findings(reg, a)
  {
    findings := [];
    if a.actionTypeId == "" {
      return [Finding("", MissingId)];
    }
    if a.mode == "autonomous" {
      findings := findings + [Finding("", AutonomousMode)];
    }
    if a.execution.None? {
      findings := findings + [Finding("", MissingExecution)];
      return;
    }
    var found := ValidateEntries(reg, a, a.execution.value.Entries());
    findings := findings + found;
  }

  /** The loop over the variants. */
  method ValidateEntries(reg: Registry, a: Action, entries: seq<(string, Mapping)>) returns (findings: seq<Finding>)
    ensures findings == EntriesFindings(reg, a, entries)
  {
    findings := [];
    for i := 0 to |entries|
      invariant findings == EntriesFindings(reg, a, entries[..i])
    {
      FlattenStep(entries, i, EntryFindings(reg, a));
      var found := ValidateVariant(reg, a, entries[i].0, entries[i].1);
      findings := findings + found;
    }
    assert entries[..|entries|] == entries;
  }

  /** The loop body, for one variant. */
  method ValidateVariant(reg: Registry, a: Action, variant: string, m: Mapping) returns (findings: seq<Finding>)
    ensures findings == VariantFindings(reg, a, variant, m)
  {
    if KeyOf(m) !in reg {
      return [Finding(variant, UnknownCommand)];
    }
    findings := CheckCapability(a, variant, m, reg[KeyOf(m)]);
  }

  /** The parity checks of a variant whose command is registered. */
  method CheckCapability(a: Action, variant: string, m: Mapping, cap: Capability) returns (findings: seq<Finding>)
    ensures findings == CapabilityFindings(a, variant, m, cap)
  {
    var declared := CheckGovernance(a, variant, m, cap);
    var effects := CheckEffects(a, variant, m, cap);
    var modes := CheckMode(a, variant, m, cap);
    findings := declared + effects + modes;
  }

  /** Approver and evidence parity. */
  method CheckGovernance(a: Action, variant: string, m: Mapping, cap: Capability) returns (findings: seq<Finding>)
    ensures findings == GovernanceFindings(a, variant, m, cap)
  {
    findings := [];
    if cap.approver !in a.approvers {
      findings := [Finding(variant, ApproverMismatch)];
    }
    if cap.evidence != "" && cap.evidence !in a.evidenceRequired {
      findings := findings + [Finding(variant, EvidenceMissing)];
    }
    if cap.evidence != "" && Invented(a.evidenceRequired, cap.evidence) {
      findings := findings + [Finding(variant, EvidenceInvented)];
    }
    if cap.evidence == "" && |a.evidenceRequired| > 0 {
      findings := findings + [Finding(variant, EvidenceOnRead)];
    }
    if cap.evidence != "" && cap.evidence !in a.governanceEvidence {
      findings := findings + [Finding(variant, GovernanceEvidenceMissing)];
    }
    if cap.evidence == "" && |a.governanceEvidence| > 0 {
      findings := findings + [Finding(variant, GovernanceEvidenceOnRead)];
    }
  }

  /** Effect parity: what is edited and what else is done. */
  method CheckEffects(a: Action, variant: string, m: Mapping, cap: Capability) returns (findings: seq<Finding>)
    ensures findings == EffectFindings(a, variant, m, cap)
  {
    findings := [];
    if cap.effect.Write? && |a.edits| == 0 {
      findings := [Finding(variant, WriteWithoutEdits)];
    }
    if !SameText(cap.edits, a.edits) {
      findings := findings + [Finding(variant, EditsMismatch)];
    }
    if !SameText(cap.sideEffects, a.sideEffects) {
      findings := findings + [Finding(variant, SideEffectsMismatch)];
    }
  }

  /** No effect behind a read, no write in a dry run, no hidden write flag. */
  method CheckMode(a: Action, variant: string, m: Mapping, cap: Capability) returns (findings: seq<Finding>)
    ensures findings == ModeFindings(a, variant, m, cap)
  {
    findings := [];
    if cap.effect.Read? && |a.edits| > 0 {
      findings := [Finding(variant, ReadWithEdits)];
    }
    if cap.effect.Read? && |a.sideEffects| > 0 {
      findings := findings + [Finding(variant, ReadWithSideEffects)];
    }
    if cap.effect.Write? && a.mode == "dry-run" {
      findings := findings + [Finding(variant, WriteInDryRun)];
    }
    if cap.effect.Read? {
      var binds := ComputeBindsWriteFlag(cap, m);
      if binds {
        findings := findings + [Finding(variant, ReadBindsWriteFlag)];
      }
    }
  }

  predicate Accepted(reg: Registry, a: Action): (accepted: bool)
    ensures accepted ==> a.execution.Some?
  {
    Findings(reg, a) == []
  }

  predicate AllAccepted(reg: Registry, actions: seq<Action>): (all: bool)
    ensures all ==> forall a :: a in actions ==> Accepted(reg, a) && a.execution.Some?
  {
    forall a :: a in actions ==> Accepted(reg, a)
  }

  function ActionFindings(reg: Registry): Action -> seq<Finding> {
    (a: Action) => Findings(reg, a)
  }

  function WhitelistFindings(reg: Registry, actions: seq<Action>): seq<Finding> {
    Flatten(actions, ActionFindings(reg))
  }

  method ValidateWhitelist(reg: Registry, actions: seq<Action>) returns (valid: bool, findings: seq<Finding>)
    ensures findings == WhitelistFindings(reg, actions)
    ensures valid <==> AllAccepted(reg, actions)
  {
    findings := [];
    for i := 0 to |actions|
      invariant findings == WhitelistFindings(reg, actions[..i])
    {
      FlattenStep(actions, i, ActionFindings(reg));
      var more := ValidateActionContract(reg, actions[i]);
      findings := findings + more;
    }
    assert actions[..|actions|] == actions;
    valid := |findings| == 0;
    NoWhitelistFindings(reg, actions);
  }

  lemma NoWhitelistFindings(reg: Registry, actions: seq<Action>)
    ensures WhitelistFindings(reg, actions) == [] <==> AllAccepted(reg, actions)
  {
    FlattenEmpty(actions, ActionFindings(reg));
    assert forall a :: ActionFindings(reg)(a) == [] <==> Accepted(reg, a);
  }

  // ---- what acceptance means ----

  /** Evidence parity: exactly the persisted kind is required, and governance declares it. */
  predicate EvidenceParity(a: Action, cap: Capability) {
    if cap.evidence == "" then a.evidenceRequired == [] && a.governanceEvidence == []
    else
      && a.evidenceRequired != [] && (forall e :: e in a.evidenceRequired ==> e == cap.evidence)
      && cap.evidence in a.governanceEvidence
  }

  /** Some template names a write flag of the command and carries a value, or a source to take one from. */
  ghost predicate NamesWriteFlag(cap: Capability, m: Mapping) {
    exists t :: t in m.args && t.flag.Some? && t.flag.value != "" && t.flag.value in cap.writeFlags
      && (t.value != None || t.source !in {None, Some("")})
  }

  lemma BindsExact(cap: Capability, m: Mapping)
    ensures BindsWriteFlag(cap, m) <==> NamesWriteFlag(cap, m)
  {
    assert forall t :: t in m.args ==> (ShowsWriteFlag(cap, t) <==>
      t.flag.Some? && t.flag.value != "" && t.flag.value in cap.writeFlags
      && (t.value != None || t.source !in {None, Some("")}));
  }

  /** The declared effect is the command's: what it edits, what else it does, how it may run. */
  ghost predicate EffectParity(a: Action, m: Mapping, cap: Capability) {
    && multiset(a.edits) == multiset(cap.edits)
    && multiset(a.sideEffects) == multiset(cap.sideEffects)
    && (if cap.effect.Write? then a.edits != [] && a.mode != "dry-run"
        else a.edits == [] && a.sideEffects == [] && !NamesWriteFlag(cap, m))
  }

  ghost predicate Parity(reg: Registry, a: Action, m: Mapping) {
    && KeyOf(m) in reg
    && reg[KeyOf(m)].approver in a.approvers
    && EvidenceParity(a, reg[KeyOf(m)])
    && EffectParity(a, m, reg[KeyOf(m)])
  }

  /** What a reader of the contract would require of an Action Type, variant by variant. */
  ghost predicate InParity(reg: Registry, a: Action) {
    && a.actionTypeId != "" && a.mode != "autonomous" && a.execution.Some?
    && forall e :: e in a.execution.value.Entries() ==> Parity(reg, a, e.1)
  }

  /** The registry lists its effects as non-empty single lines. */
  ghost predicate CleanRegistry(reg: Registry) {
    forall k :: k in reg ==>
      && AllFree(reg[k].edits, '\n') && "" !in reg[k].edits
      && AllFree(reg[k].sideEffects, '\n') && "" !in reg[k].sideEffects
  }

  ghost predicate ListableEffects(a: Action) {
    Listable(a.edits) && Listable(a.sideEffects)
  }

  lemma NoEntryFindings(reg: Registry, a: Action, entries: seq<(string, Mapping)>)
    ensures EntriesFindings(reg, a, entries) == [] <==> forall e :: e in entries ==> Passes(reg, a, e.1)
  {
    FlattenEmpty(entries, EntryFindings(reg, a));
    forall e: (string, Mapping) ensures EntryFindings(reg, a)(e) == [] <==> Passes(reg, a, e.1) {
      VariantPasses(reg, a, e.0, e.1);
    }
  }

  /** The command is registered and no parity check fails. */
  ghost predicate Passes(reg: Registry, a: Action, m: Mapping) {
    KeyOf(m) in reg && forall k :: !Fails(a, m, reg[KeyOf(m)], k)
  }

  lemma VariantPasses(reg: Registry, a: Action, variant: string, m: Mapping)
    ensures VariantFindings(reg, a, variant, m) == [] <==> Passes(reg, a, m)
  {
    if KeyOf(m) in reg {
      NoFindings(a, variant, m, reg[KeyOf(m)]);
    }
  }

  lemma NoGovernanceFindings(a: Action, variant: string, m: Mapping, cap: Capability)
    ensures GovernanceFindings(a, variant, m, cap) == [] <==>
      && !Fails(a, m, cap, ApproverMismatch) && !Fails(a, m, cap, EvidenceMissing)
      && !Fails(a, m, cap, EvidenceInvented)
      && !Fails(a, m, cap, EvidenceOnRead) && !Fails(a, m, cap, GovernanceEvidenceMissing)
      && !Fails(a, m, cap, GovernanceEvidenceOnRead)
  {
  }

  lemma NoEffectFindings(a: Action, variant: string, m: Mapping, cap: Capability)
    ensures EffectFindings(a, variant, m, cap) == [] <==>
      && !Fails(a, m, cap, WriteWithoutEdits) && !Fails(a, m, cap, EditsMismatch)
      && !Fails(a, m, cap, SideEffectsMismatch)
  {
  }

  lemma NoModeFindings(a: Action, variant: string, m: Mapping, cap: Capability)
    ensures ModeFindings(a, variant, m, cap) == [] <==>
      && !Fails(a, m, cap, ReadWithEdits) && !Fails(a, m, cap, ReadWithSideEffects)
      && !Fails(a, m, cap, WriteInDryRun) && !Fails(a, m, cap, ReadBindsWriteFlag)
  {
  }

  /** No parity finding of any kind. */
  lemma NoFindings(a: Action, variant: string, m: Mapping, cap: Capability)
    ensures CapabilityFindings(a, variant, m, cap) == [] <==> forall k :: !Fails(a, m, cap, k)
  {
    NoneOfThree(GovernanceFindings(a, variant, m, cap), EffectFindings(a, variant, m, cap),
      ModeFindings(a, variant, m, cap));
    if CapabilityFindings(a, variant, m, cap) == [] {
      NoFailures(a, variant, m, cap);
    } else {
      NoGovernanceFindings(a, variant, m, cap);
      NoEffectFindings(a, variant, m, cap);
      NoModeFindings(a, variant, m, cap);
    }
  }

  lemma NoFailures(a: Action, variant: string, m: Mapping, cap: Capability)
    requires GovernanceFindings(a, variant, m, cap) == [] && EffectFindings(a, variant, m, cap) == []
    requires ModeFindings(a, variant, m, cap) == []
    ensures forall k :: !Fails(a, m, cap, k)
  {
    NoGovernanceFindings(a, variant, m, cap);
    NoEffectFindings(a, variant, m, cap);
    NoModeFindings(a, variant, m, cap);
  }

  lemma NoneOfThree(a: seq<Finding>, b: seq<Finding>, c: seq<Finding>)
    ensures a + b + c == [] <==> a == [] && b == [] && c == []
  {
    assert |a + b + c| == |a| + |b| + |c|;
  }

  lemma PassesMeaning(a: Action, m: Mapping, cap: Capability)
    requires forall k :: !Fails(a, m, cap, k)
    ensures cap.approver in a.approvers && EvidenceParity(a, cap)
    ensures SameText(cap.edits, a.edits) && SameText(cap.sideEffects, a.sideEffects)
    ensures if cap.effect.Write? then a.edits != [] && a.mode != "dry-run"
            else a.edits == [] && a.sideEffects == [] && !BindsWriteFlag(cap, m)
  {
    PassesEvidence(a, m, cap);
    PassesEffect(a, m, cap);
  }

  lemma PassesEvidence(a: Action, m: Mapping, cap: Capability)
    requires forall k :: !Fails(a, m, cap, k)
    ensures cap.approver in a.approvers && EvidenceParity(a, cap)
  {
    assert !Fails(a, m, cap, ApproverMismatch);
    assert !Fails(a, m, cap, EvidenceMissing) && !Fails(a, m, cap, EvidenceInvented);
    assert !Fails(a, m, cap, EvidenceOnRead) && !Fails(a, m, cap, GovernanceEvidenceOnRead);
    assert !Fails(a, m, cap, GovernanceEvidenceMissing);
  }

  lemma PassesEffect(a: Action, m: Mapping, cap: Capability)
    requires forall k :: !Fails(a, m, cap, k)
    ensures SameText(cap.edits, a.edits) && SameText(cap.sideEffects, a.sideEffects)
    ensures if cap.effect.Write? then a.edits != [] && a.mode != "dry-run"
            else a.edits == [] && a.sideEffects == [] && !BindsWriteFlag(cap, m)
  {
    ListsCompared(a, m, cap);
    if cap.effect.Write? {
      assert !Fails(a, m, cap, WriteWithoutEdits);
      assert !Fails(a, m, cap, WriteInDryRun);
    } else {
      assert !Fails(a, m, cap, ReadWithEdits);
      assert !Fails(a, m, cap, ReadWithSideEffects);
      assert !Fails(a, m, cap, ReadBindsWriteFlag);
    }
  }

  lemma ListsCompared(a: Action, m: Mapping, cap: Capability)
    ensures !Fails(a, m, cap, EditsMismatch) ==> SameText(cap.edits, a.edits)
    ensures !Fails(a, m, cap, SideEffectsMismatch) ==> SameText(cap.sideEffects, a.sideEffects)
  {
  }

  lemma VariantAccepted(reg: Registry, a: Action, m: Mapping)
    requires CleanRegistry(reg)
    ensures Passes(reg, a, m) && ListableEffects(a) <==> Parity(reg, a, m)
  {
    if KeyOf(m) in reg {
      var cap := reg[KeyOf(m)];
      BindsExact(cap, m);
      SameTextDecides(cap.edits, a.edits);
      SameTextDecides(cap.sideEffects, a.sideEffects);
      if forall k :: !Fails(a, m, cap, k) {
        PassesMeaning(a, m, cap);
      }
      assert a.evidenceRequired != [] ==> a.evidenceRequired[0] in a.evidenceRequired;
    }
  }

  /**
   * The validator is complete, and sound up to the texts it compares: an action is in parity, variant by
   * variant, exactly when it passes and, if it maps anything, its effect lists are determined by their text.
   */
  lemma ContractSoundAndComplete(reg: Registry, a: Action)
    requires CleanRegistry(reg)
    ensures InParity(reg, a) <==> Accepted(reg, a) && (a.execution.value.Entries() != [] ==> ListableEffects(a))
  {
    if a.execution.Some? {
      var entries := a.execution.value.Entries();
      NoEntryFindings(reg, a, entries);
      forall e | e in entries ensures Passes(reg, a, e.1) && ListableEffects(a) <==> Parity(reg, a, e.1) {
        VariantAccepted(reg, a, e.1);
      }
      assert entries != [] ==> entries[0] in entries;
    }
  }

  /** An accepted action that maps something is in parity exactly on listable effects. */
  lemma AcceptedParityExact(reg: Registry, a: Action)
    requires CleanRegistry(reg) && Accepted(reg, a) && a.execution.value.Entries() != []
    ensures InParity(reg, a) <==> ListableEffects(a)
  {
    ContractSoundAndComplete(reg, a);
  }

  lemma AcceptedVariant(reg: Registry, a: Action, e: (string, Mapping))
    requires Accepted(reg, a) && e in a.execution.value.Entries()
    ensures KeyOf(e.1) in reg && forall k :: !Fails(a, e.1, reg[KeyOf(e.1)], k)
  {
    NoEntryFindings(reg, a, a.execution.value.Entries());
  }

  /** All variants of an accepted action have one effect, the one its declared edits say. */
  lemma OneEffect(reg: Registry, a: Action, e: (string, Mapping))
    requires Accepted(reg, a) && e in a.execution.value.Entries()
    ensures KeyOf(e.1) in reg
    ensures reg[KeyOf(e.1)].effect == if a.edits == [] then Read else Write
  {
    AcceptedVariant(reg, a, e);
    PassesMeaning(a, e.1, reg[KeyOf(e.1)]);
  }

  /** Reads are registered as directly executable. */
  predicate DirectReads(reg: Registry) {
    forall k :: k in reg && reg[k].effect.Read? ==> reg[k].directReadOnlyExec
  }

  /** An accepted action runs without approval exactly when it declares dry-run (and maps something). */
  lemma ReadOnlyIffDryRun(reg: Registry, a: Action)
    requires Accepted(reg, a) && DirectReads(reg)
    ensures IsReadOnlyExecutable(reg, a)
       <==> a.mode == "dry-run" && (a.execution.value.Entries() != [] || a.edits == [])
  {
    var entries := a.execution.value.Entries();
    if a.mode == "dry-run" {
      forall e | e in entries ensures DirectRead(reg, e.1) && a.edits == [] {
        AcceptedVariant(reg, a, e);
        PassesMeaning(a, e.1, reg[KeyOf(e.1)]);
      }
      assert entries != [] ==> entries[0] in entries;
    }
  }
}
