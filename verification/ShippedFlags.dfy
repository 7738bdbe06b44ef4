/** scripts/lib/core/cli-output.js: the flag table as it ships. */
module ShippedFlags {
  import opened Wrappers
  import opened Text
  import opened ActionContracts
  import opened CliSeam
  import opened CommandCapabilities
  import opened FlagRows
  import opened ParsedFlags
  import opened SpawnedLines
  import opened TwoSeams

  // ---- the rows that follow the naming convention, without those of FlagRows ----

  const VALUE_FLAGS_1: seq<string> := [
    "--objective", "--budget", "--mode", "--agent", "--title", "--issue", "--recurrence", "--plan", "--file",
    "--task", "--request-id", "--attempt-id", "--attempt", "--request-hash", "--owner-id", "--token-hash",
    "--lease-fence", "--gate", "--stage", "--command", "--result", "--budget-minutes", "--id", "--area",
    "--behavior", "--notes", "--worker", "--reviewer", "--backend"
  ]

  const VALUE_FLAGS_2: seq<string> := [
    "--concurrency", "--evidence", "--version", "--preset", "--registry", "--output-dir", "--scope",
    "--replay-scope", "--query", "--evidence-id", "--limit", "--bundle-dir", "--handoff-bundle-dir", "--report",
    "--finding", "--baseline", "--current", "--base", "--head", "--index", "--reports-dir", "--trace-input",
    "--agent-config", "--regression-assertion", "--loop-contract", "--contract", "--ledger", "--trigger-source",
    "--stop-reason"
  ]

  const VALUE_FLAGS_3: seq<string> := [
    "--since", "--loadout", "--threshold", "--threshold-days", "--hard-stop-status", "--budget-status",
    "--review-bandwidth-status", "--review-gate-status", "--priority", "--profile", "--type", "--artifact", "--auth",
    "--tenant", "--repository", "--query-tenant", "--action", "--entity", "--kind", "--sort", "--phase",
    "--checkpoint", "--projection-version", "--depth", "--cursor", "--dependency", "--envelope", "--note",
    "--request"
  ]

  const VALUE_FLAGS_4: seq<string> := [
    "--payload", "--entry-id", "--entry", "--claim", "--trigger", "--skip-trigger", "--reason", "--run",
    "--schedule", "--poll-ms", "--to", "--command-id", "--max-words", "--window", "--knowledge-kind", "--from-loop",
    "--from", "--resource", "--classification", "--grant", "--supersedes-revision", "--expected-head",
    "--idempotency-key", "--revision", "--body", "--provenance", "--transition", "--decision-kind", "--principal"
  ]

  const VALUE_FLAGS_5: seq<string> := [
    "--role", "--membership", "--capability", "--valid-from", "--valid-to", "--issuer", "--fixture",
    "--older-than-days", "--producer", "--assurance", "--subject", "--status", "--replay-of", "--verifier",
    "--approver", "--revoker", "--valid-until", "--decision-identity", "--now", "--verdict", "--org-policy",
    "--tenant-policy", "--repo-policy", "--play-policy", "--gate-policy", "--gate-outcome-index", "--approval",
    "--submitter", "--delegator"
  ]

  const VALUE_FLAGS_6: seq<string> := [
    "--adapter-owner", "--adapter-version", "--record-type", "--record-version", "--expected-source-hash",
    "--cutover-id", "--artifact-type", "--generation", "--comparison-index", "--confirmed-by", "--rollback-evidence",
    "--runner-version", "--integrity", "--runner-owner", "--capability-version", "--timeout-ms", "--credential",
    "--rollback", "--environment", "--credential-handle", "--credential-purpose", "--credential-scope",
    "--credential-expires", "--rehearsal", "--receipt", "--commit", "--review-logic", "--review-security",
    "--review-spec"
  ]

  const VALUE_FLAGS_7: seq<string> := [
    "--release-policy", "--runner", "--branch-protection", "--code-owner", "--release-manager",
    "--release-gate-index", "--environment-gate-index", "--identity-map", "--freshness-ms", "--allow-path",
    "--record-id", "--detector-version", "--metric", "--window-ms", "--cooldown-ms", "--max-observations",
    "--window-from", "--window-to", "--value", "--observation-hash", "--fingerprint", "--finding-index", "--outcome",
    "--intent", "--eval-result", "--held-out", "--record", "--retention-class", "--policy"
  ]

  const VALUE_FLAGS_8: seq<string> := [
    "--sensitivity", "--holder-version", "--adapter", "--candidate", "--holder", "--receipt-hash",
    "--effect-version", "--system", "--operation", "--external-target", "--input-schema", "--idempotency",
    "--compensation-effect", "--payload-hash", "--external-record", "--request-digest", "--response-digest",
    "--execution", "--incident", "--purpose", "--risk", "--exact-target", "--review-by", "--necessity", "--impact",
    "--follow-up", "--markdown", "--framework"
  ]

  /** The rows that take none. */
  const BOOLEAN_FLAGS: seq<string> := [
    "--worktree", "--dry-run", "--with-wiki", "--skip-detection", "--summary", "--ratify", "--minimized",
    "--irreversible", "--all", "--explain", "--strict", "--fix-markers", "--okf", "--yaml", "--yml",
    "--refresh-amber-owned", "--archive-legacy", "--adopt-legacy", "--refresh", "--warn-only", "--force",
    "--no-fail", "--no-sessions", "--enable", "--allow-transcript", "--reviewed"
  ]

  /** The rows that take a value. */
  const VALUE_FLAGS: seq<seq<string>> := [
    VALUE_FLAGS_1, VALUE_FLAGS_2, VALUE_FLAGS_3, VALUE_FLAGS_4, VALUE_FLAGS_5, VALUE_FLAGS_6, VALUE_FLAGS_7,
    VALUE_FLAGS_8
  ]

  /** Rows whose key is the flag in camel case. */
  function Regular(lists: seq<seq<string>>, boolean: bool): FlagTable {
    map f | f in Listed(lists) :: FlagSpec(KeyOfFlag(f), boolean, None)
  }

  function Listed(lists: seq<seq<string>>): set<string> {
    set i, f | 0 <= i < |lists| && f in lists[i] :: f
  }

  // ---- the others: a flag with a value, its key, and the list it is also appended to ----

  type SpecialRow = (string, string, Option<string>)

  const SPECIAL_ROWS: seq<SpecialRow> := [
    ("--verify", "verifyVal", Some("verify")), ("--definition-id", "definitionIdentity", None),
    ("--outcome-id", "outcomeIdentity", None), ("--paths", "pathsVal", Some("paths")),
    ("--path", "path", Some("paths")), ("--decision", "decision", Some("decisions")),
    ("--include", "include", Some("includes")), ("--source", "source", Some("sources")),
    ("--supersedes", "supersedesValue", Some("supersedes")), ("--check", "check", Some("checks")),
    ("--trace", "traceVal", Some("traceArgs")), ("--extension", "extensionVal", Some("extensionArgs")),
    ("--input", "inputVal", Some("inputs")), ("--tool", "toolVal", Some("tools")),
    ("--env", "envVal", Some("envEntries")), ("--outputs", "outputVal", Some("outputs")),
    ("--effect", "effectVal", Some("effects")), ("--path-prefix", "pathPrefixVal", Some("pathPrefixes")),
    ("--input-hash", "inputHashVal", Some("inputHashes")),
    ("--change-artifact", "changeArtifactVal", Some("changeArtifacts")),
    ("--evidence-item", "evidenceItemVal", Some("evidenceItems")), ("--rule", "ruleVal", Some("rules")),
    ("--eval", "evalVal", None), ("--receipt-field", "receiptFieldVal", Some("receiptFields")),
    ("--owner", "owner", Some("owners")), ("--surface", "surface", Some("surfaces"))
  ]

  function Special(rows: seq<SpecialRow>): FlagTable {
    if rows == [] then map[] else
      var last := rows[|rows| - 1];
      Special(rows[..|rows| - 1])[last.0 := FlagSpec(last.1, false, last.2)]
  }

  const SHIPPED_FLAGS: FlagTable :=
    Regular(VALUE_FLAGS, false) + Regular([BOOLEAN_FLAGS], true) + Special(SPECIAL_ROWS) + FLAG_ROWS

  // ---- what every row keeps to ----

  predicate Reserved(key: string) {
    key in ["execute", "output", "out", "help"]
  }

  /** The row sets no key that a write flag or a help flag sets. */
  predicate Harmless(f: string, spec: FlagSpec) {
    f != "" && f[0] == '-' && !Reserved(spec.key) && (spec.accumulate.Some? ==> !Reserved(spec.accumulate.value))
  }

  predicate IsDashed(f: string) {
    |f| >= 2 && f[0] == '-' && f[1] == '-'
  }

  predicate AllDashed(flags: seq<string>) {
    forall i :: 0 <= i < |flags| ==> IsDashed(flags[i])
  }

  lemma ValueFlags1()
    ensures AllDashed(VALUE_FLAGS_1)
  {
  }

  lemma ValueFlags2()
    ensures AllDashed(VALUE_FLAGS_2)
  {
  }

  lemma ValueFlags3()
    ensures AllDashed(VALUE_FLAGS_3)
  {
  }

  lemma ValueFlags4()
    ensures AllDashed(VALUE_FLAGS_4)
  {
  }

  lemma ValueFlags5()
    ensures AllDashed(VALUE_FLAGS_5)
  {
  }

  lemma ValueFlags6()
    ensures AllDashed(VALUE_FLAGS_6)
  {
  }

  lemma ValueFlags7()
    ensures AllDashed(VALUE_FLAGS_7)
  {
  }

  lemma ValueFlags8()
    ensures AllDashed(VALUE_FLAGS_8)
  {
  }

  lemma ValueFlagsDashed(i: nat)
    requires i < |VALUE_FLAGS|
    ensures AllDashed(VALUE_FLAGS[i])
  {
    ValueFlags1();
    ValueFlags2();
    ValueFlags3();
    ValueFlags4();
    ValueFlags5();
    ValueFlags6();
    ValueFlags7();
    ValueFlags8();
  }

  lemma BooleanFlags()
    ensures AllDashed(BOOLEAN_FLAGS)
  {
  }

  lemma SpecialPlain(i: nat)
    requires i < |SPECIAL_ROWS|
    ensures var r := SPECIAL_ROWS[i]; Harmless(r.0, FlagSpec(r.1, false, r.2))
  {
  }

  lemma {:induction false} SpecialOrigin(rows: seq<SpecialRow>, f: string) returns (i: nat)
    requires f in Special(rows)
    ensures i < |rows| && f == rows[i].0 && Special(rows)[f] == FlagSpec(rows[i].1, false, rows[i].2)
    decreases |rows|
  {
    var n := |rows| - 1;
    if f == rows[n].0 {
      i := n;
    } else {
      i := SpecialOrigin(rows[..n], f);
    }
  }

  /** The key of a flag, in camel case, has no upper-case letter only if it is the flag itself. */
  lemma {:induction false} CamelPlain(s: string, key: string)
    requires Camel(s) == key && forall i :: 0 <= i < |key| ==> !IsUpper(key[i])
    ensures s == key
    decreases |s|
  {
    if s != "" {
      assert key[0] == Camel(s)[0] && !IsUpper(key[0]);
      CamelPlain(s[1..], key[1..]);
      assert s == [s[0]] + s[1..];
    }
  }

  /** A row that follows the convention sets the key of no other flag. */
  lemma OwnKey(f: string, name: string)
    requires IsDashed(f) && KeyOfFlag(f) == name && forall i :: 0 <= i < |name| ==> !IsUpper(name[i])
    ensures f == "--" + name
  {
    assert "--" <= f;
    CamelPlain(f[2..], name);
    assert f == "--" + f[2..];
  }

  lemma RegularHarmless(f: string, boolean: bool)
    requires IsDashed(f) && f !in FLAG_ROWS
    ensures Harmless(f, FlagSpec(KeyOfFlag(f), boolean, None))
  {
    var key := KeyOfFlag(f);
    if Reserved(key) {
      ReservedRow(key);
      OwnKey(f, key);
      assert false;
    }
  }

  lemma ReservedRow(key: string)
    requires Reserved(key)
    ensures "--" + key in FLAG_ROWS && forall i :: 0 <= i < |key| ==> !IsUpper(key[i])
  {
    var i := if key == "output" then 8 else if key == "out" then 9 else if key == "execute" then 10 else 14;
    RowFound(i);
  }

  /** Every row is one of FlagRows, or harmless. */
  lemma RowOrigin(f: string)
    requires f in SHIPPED_FLAGS
    ensures if f in FLAG_ROWS then SHIPPED_FLAGS[f] == FLAG_ROWS[f] else Harmless(f, SHIPPED_FLAGS[f])
  {
    if f !in FLAG_ROWS {
      if f in Special(SPECIAL_ROWS) {
        var i := SpecialOrigin(SPECIAL_ROWS, f);
        SpecialPlain(i);
      } else if f in Regular([BOOLEAN_FLAGS], true) {
        BooleanFlags();
        RegularHarmless(f, true);
      } else {
        var i: nat :| i < |VALUE_FLAGS| && f in VALUE_FLAGS[i];
        ValueFlagsDashed(i);
        RegularHarmless(f, false);
      }
    }
  }

  // ---- the shipped tables agree ----

  lemma WriteKeyReserved(w: string)
    requires w in ["--execute", "--output", "--out"]
    ensures Reserved(KeyOfFlag(w))
  {
    var i := WriteRow(w);
    RowFound(i);
    WriteRowConventional(w);
  }

  /** A write flag is a row by the convention, and no other row sets its key. */
  lemma WriteFlagKept(w: string)
    requires w in ["--execute", "--output", "--out"]
    ensures ConventionalFlag(SHIPPED_FLAGS, w)
  {
    WriteRowConventional(w);
    WriteKeyReserved(w);
    forall f | f in SHIPPED_FLAGS
      ensures (LowerFlag(f) && SHIPPED_FLAGS[f].key == KeyOfFlag(f)) || SHIPPED_FLAGS[f].key != KeyOfFlag(w)
      ensures SHIPPED_FLAGS[f].accumulate != Some(KeyOfFlag(w))
    {
      RowOrigin(f);
    }
  }

  lemma ShippedConventional()
    ensures ConventionalTable(SHIPPED_FLAGS, COMMAND_CAPABILITIES)
  {
    forall k, w | k in COMMAND_CAPABILITIES && w in COMMAND_CAPABILITIES[k].writeFlags
      ensures w in ["--execute", "--output", "--out"]
    {
      var i := EntryOfKey(ENTRIES, k);
      EntryKept(i);
    }
    forall w | w in ["--execute", "--output", "--out"] ensures ConventionalFlag(SHIPPED_FLAGS, w) {
      WriteFlagKept(w);
    }
  }

  lemma ShippedRows()
    ensures Extends(SHIPPED_FLAGS) && Dashed(SHIPPED_FLAGS)
    ensures HelpIsBoolean(SHIPPED_FLAGS)
  {
    ShippedBasics();
    forall f | f in SHIPPED_FLAGS
      ensures f != "" && f[0] == '-'
      ensures Sets(SHIPPED_FLAGS[f], "help") ==> SHIPPED_FLAGS[f].boolean && SHIPPED_FLAGS[f].key == "help"
    {
      RowOrigin(f);
      if f in FLAG_ROWS {
        var name := FlagShape(f);
      }
    }
  }

  /**
   * What the registry of the server and the tables of the CLI promise one another holds as they ship, so that
   * the theorems about shipped actions hold of the flag table as it ships.
   */
  lemma ShippedTablesAgree(commands: set<string>, knownUntyped: set<string>)
    requires TypedOf(COMMAND_CAPABILITIES) <= commands
    ensures ShippedTables(ShippedCli(commands, knownUntyped), SHIPPED_FLAGS)
  {
    ShippedConventional();
    ShippedRows();
    ExtensionAgrees(SHIPPED_FLAGS, commands, knownUntyped);
  }
}
