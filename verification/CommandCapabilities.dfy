/** scripts/lib/mcp-action-contracts.js: the shipped capability registry. */
module CommandCapabilities {
  import opened Wrappers
  import opened Text
  import opened ActionContracts
  import opened CliSeam

  function ReadCommand(writeFlags: seq<string>): Capability {
    Capability(Read, "system", "", true, [], [], writeFlags)
  }

  function WriteCommand(approver: string, evidence: string, edits: seq<string>, sideEffects: seq<string>): Capability {
    Capability(Write, approver, evidence, false, edits, sideEffects, [])
  }

  type Entry = (string, string, Capability)

  const SESSION_START_EDITS := [
    ".amber/sessions/<id>/manifest.json", ".amber/sessions/<id>/timeline.jsonl",
    ".amber/sessions/<id>/gates/<gate>.gate.json",
    "MEMORY.md", "notes.md", "tasks/README.md"]

  const SESSION_VERIFY_EDITS := [
    ".amber/sessions/<id>/timeline.jsonl", ".amber/sessions/<id>/ledger.jsonl", ".amber/sessions/<id>/manifest.json"]

  /** Command, subcommand and capability, in the order of the table. */
  const SESSION_RECORDS: seq<Entry> := [
    ("session", "start", WriteCommand("system", "timeline-event",
      SESSION_START_EDITS,
      ["timeline-event"]))
  ]

  const SESSION_CHECKS: seq<Entry> := [
    ("session", "verify", WriteCommand("system", "timeline-event",
      SESSION_VERIFY_EDITS,
      ["timeline-event", "ledger-append"]))
  ]

  const SESSION_LIFECYCLE: seq<Entry> := [
    ("session", "approve", WriteCommand("human", "approval-record",
      [".amber/sessions/<id>/manifest.json", ".amber/sessions/<id>/ledger.jsonl",
        ".amber/sessions/<id>/gates/<gate>.decision.json", ".amber/sessions/<id>/timeline.jsonl"],
      ["timeline-event", "ledger-append"])),
    ("session", "run", ReadCommand(["--execute"]))
  ]

  const ROUTES: seq<Entry> := [
    ("session", "settle", WriteCommand("system", "settlement-record",
      [".amber/sessions/<id>/ledger.jsonl", ".amber/sessions/<id>/timeline.jsonl",
        ".amber/sessions/<id>/manifest.json"],
      ["ledger-append", "timeline-event"])),
    ("session", "lease", WriteCommand("system", "",
      [".amber/sessions/<id>/manifest.json", ".amber/sessions/<id>/timeline.jsonl"],
      ["timeline-event"])),
    ("session", "status", ReadCommand([])),
    ("route", "list", ReadCommand([])),
    ("route", "test", ReadCommand([]))
  ]

  const REPORTS: seq<Entry> := [
    ("context", "ingest", WriteCommand("human", "ingest-record",
      [".amber/context/"],
      ["ingest-record"])),
    ("context", "preview", ReadCommand([])),
    ("governance", "report", ReadCommand(["--output"])),
    ("ledger", "export", ReadCommand(["--out"])),
    ("loop", "recommend", ReadCommand([]))
  ]

  const REVIEWS: seq<Entry> := [
    ("memory", "approve", WriteCommand("human", "approval-record",
      [".amber/memory/registry/", ".amber/context/events.jsonl"],
      ["ledger-append"])),
    ("memory", "abandon", WriteCommand("human", "ingest-record",
      [".amber/memory/registry/", ".amber/memory/requests/", ".amber/context/events.jsonl"],
      ["ledger-append"])),
    ("memory", "status", ReadCommand([])),
    ("eval", "run", ReadCommand([])),
    ("contracts", "validate", ReadCommand([]))
  ]

  const REQUESTS: seq<Entry> := [
    ("eval", "admit", WriteCommand("human", "canonical-eval-admission",
      [".amber/artifacts/evals/", ".amber/artifacts/eval-results/", ".amber/evidence/"],
      ["ledger-append"])),
    ("external", "propose", WriteCommand("human", "external-proposal",
      [".amber/external/proposals.jsonl"],
      ["ledger-append"])),
    ("runner", "request", WriteCommand("human", "runner-request",
      [".amber/runner/requests.jsonl"],
      ["ledger-append"])),
    ("runner", "settle", WriteCommand("human", "runner-settlement",
      [".amber/runner/executions.jsonl"],
      ["ledger-append"])),
    ("breakglass", "grant", WriteCommand("human", "breakglass-grant",
      [".amber/breakglass/grants.jsonl"],
      ["ledger-append"]))
  ]

  const ENTRIES: seq<Entry> :=
    SESSION_RECORDS + SESSION_CHECKS + SESSION_LIFECYCLE + ROUTES + REPORTS + REVIEWS + REQUESTS

  function EntryKey(e: Entry): string {
    CapabilityKey(e.0, e.1)
  }

  function FromEntries(entries: seq<Entry>): Registry {
    if entries == [] then map[] else
      var last := entries[|entries| - 1];
      FromEntries(entries[..|entries| - 1])[EntryKey(last) := last.2]
  }

  const COMMAND_CAPABILITIES: Registry := FromEntries(ENTRIES)

  lemma {:induction false} EntryOfKey(entries: seq<Entry>, k: string) returns (i: nat)
    requires k in FromEntries(entries)
    ensures i < |entries| && EntryKey(entries[i]) == k && FromEntries(entries)[k] == entries[i].2
    decreases |entries|
  {
    var n := |entries| - 1;
    if EntryKey(entries[n]) == k {
      i := n;
    } else {
      i := EntryOfKey(entries[..n], k);
    }
  }

  lemma {:induction false} EntryListed(entries: seq<Entry>, i: nat)
    requires i < |entries|
    ensures EntryKey(entries[i]) in FromEntries(entries)
    decreases |entries|
  {
    var n := |entries| - 1;
    if i < n {
      EntryListed(entries[..n], i);
    }
  }

  // ---- facts about the whole table ----

  /** A name made of lower-case letters. */
  predicate PlainName(s: string) {
    s != "" && forall i :: 0 <= i < |s| ==> IsLower(s[i])
  }

  /** A registered command is a plain read, directly executable, or a write that edits something. */
  predicate WellKept(cap: Capability) {
    if cap.effect.Read? then cap.directReadOnlyExec && cap.edits == [] && cap.sideEffects == [] && cap.evidence == ""
    else !cap.directReadOnlyExec && cap.edits != [] && cap.writeFlags == []
  }

  /** Names, effect and write flags of one entry are as the theorems about actions need them. */
  predicate Kept(e: Entry) {
    && PlainName(e.0) && PlainName(e.1) && e.0 != "help"
    && WellKept(e.2)
    && (forall w :: w in e.2.writeFlags ==> w in ["--execute", "--output", "--out"])
  }

  predicate CleanList(xs: seq<string>) {
    AllFree(xs, '\n') && "" !in xs
  }

  lemma SessionRecordsKept(i: nat)
    requires i < |SESSION_RECORDS|
    ensures Kept(SESSION_RECORDS[i])
  {
  }

  lemma SessionStartClean()
    ensures CleanList(SESSION_START_EDITS)
  {
  }

  lemma SessionVerifyClean()
    ensures CleanList(SESSION_VERIFY_EDITS)
  {
  }

  lemma SessionRecordsClean(i: nat)
    requires i < |SESSION_RECORDS|
    ensures CleanList(SESSION_RECORDS[i].2.edits) && CleanList(SESSION_RECORDS[i].2.sideEffects)
  {
    SessionStartClean();
  }

  lemma SessionChecksKept(i: nat)
    requires i < |SESSION_CHECKS|
    ensures Kept(SESSION_CHECKS[i])
  {
  }

  lemma SessionChecksClean(i: nat)
    requires i < |SESSION_CHECKS|
    ensures CleanList(SESSION_CHECKS[i].2.edits) && CleanList(SESSION_CHECKS[i].2.sideEffects)
  {
    SessionVerifyClean();
  }

  lemma SessionLifecycleKept(i: nat)
    requires i < |SESSION_LIFECYCLE|
    ensures Kept(SESSION_LIFECYCLE[i])
  {
  }

  lemma SessionLifecycleClean(i: nat)
    requires i < |SESSION_LIFECYCLE|
    ensures CleanList(SESSION_LIFECYCLE[i].2.edits) && CleanList(SESSION_LIFECYCLE[i].2.sideEffects)
  {
  }

  lemma RoutesKept(i: nat)
    requires i < |ROUTES|
    ensures Kept(ROUTES[i])
  {
  }

  lemma RoutesClean(i: nat)
    requires i < |ROUTES|
    ensures CleanList(ROUTES[i].2.edits) && CleanList(ROUTES[i].2.sideEffects)
  {
  }

  lemma ReportsKept(i: nat)
    requires i < |REPORTS|
    ensures Kept(REPORTS[i])
  {
  }

  lemma ReportsClean(i: nat)
    requires i < |REPORTS|
    ensures CleanList(REPORTS[i].2.edits) && CleanList(REPORTS[i].2.sideEffects)
  {
  }

  lemma ReviewsKept(i: nat)
    requires i < |REVIEWS|
    ensures Kept(REVIEWS[i])
  {
  }

  lemma ReviewsClean(i: nat)
    requires i < |REVIEWS|
    ensures CleanList(REVIEWS[i].2.edits) && CleanList(REVIEWS[i].2.sideEffects)
  {
  }

  lemma RequestsKept(i: nat)
    requires i < |REQUESTS|
    ensures Kept(REQUESTS[i])
  {
  }

  lemma RequestsClean(i: nat)
    requires i < |REQUESTS|
    ensures CleanList(REQUESTS[i].2.edits) && CleanList(REQUESTS[i].2.sideEffects)
  {
  }

  lemma EntryKept(i: nat)
    requires i < |ENTRIES|
    ensures Kept(ENTRIES[i])
  {
    if i < 1 {
      SessionRecordsKept(i);
    } else if i < 2 {
      SessionChecksKept(i - 1);
    } else if i < 4 {
      SessionLifecycleKept(i - 2);
    } else if i < 9 {
      RoutesKept(i - 4);
    } else if i < 14 {
      ReportsKept(i - 9);
    } else if i < 19 {
      ReviewsKept(i - 14);
    } else {
      RequestsKept(i - 19);
    }
  }

  lemma EntryClean(i: nat)
    requires i < |ENTRIES|
    ensures CleanList(ENTRIES[i].2.edits) && CleanList(ENTRIES[i].2.sideEffects)
  {
    if i < 1 {
      SessionRecordsClean(i);
    } else if i < 2 {
      SessionChecksClean(i - 1);
    } else if i < 4 {
      SessionLifecycleClean(i - 2);
    } else if i < 9 {
      RoutesClean(i - 4);
    } else if i < 14 {
      ReportsClean(i - 9);
    } else if i < 19 {
      ReviewsClean(i - 14);
    } else {
      RequestsClean(i - 19);
    }
  }

  /** Two names that a glance at their lengths and first letters tells apart. */
  predicate Differ(a: string, b: string) {
    || |a| != |b| || (a != "" && b != "" && a[0] != b[0])
    || (|a| > 1 && |b| > 1 && a[1] != b[1])
  }

  predicate NamesDiffer(a: Entry, b: Entry) {
    Differ(a.0, b.0) || Differ(a.1, b.1)
  }

  lemma EarlierDiffer(i: nat, j: nat)
    requires i < j < 14
    ensures NamesDiffer(ENTRIES[i], ENTRIES[j])
  {
  }

  lemma LaterDiffer(i: nat, j: nat)
    requires i < j && 14 <= j < |ENTRIES|
    ensures NamesDiffer(ENTRIES[i], ENTRIES[j])
  {
  }

  lemma EntriesDiffer(i: nat, j: nat)
    requires i < j < |ENTRIES|
    ensures NamesDiffer(ENTRIES[i], ENTRIES[j])
  {
    if j < 14 {
      EarlierDiffer(i, j);
    } else {
      LaterDiffer(i, j);
    }
  }

  /** No two entries have the same names. */
  lemma EntriesDistinct(i: nat, j: nat)
    requires i < |ENTRIES| && j < |ENTRIES| && ENTRIES[i].0 == ENTRIES[j].0 && ENTRIES[i].1 == ENTRIES[j].1
    ensures i == j
  {
    if i < j {
      EntriesDiffer(i, j);
    } else if j < i {
      EntriesDiffer(j, i);
    }
  }

  /** The facts about the shipped registry that the theorems about actions rely on. */
  lemma ShippedRegistryKept()
    ensures forall k :: k in COMMAND_CAPABILITIES ==> WellKept(COMMAND_CAPABILITIES[k])
    ensures DirectReads(COMMAND_CAPABILITIES) && CleanRegistry(COMMAND_CAPABILITIES)
  {
    forall k | k in COMMAND_CAPABILITIES
      ensures WellKept(COMMAND_CAPABILITIES[k])
      ensures AllFree(COMMAND_CAPABILITIES[k].edits, '\n') && "" !in COMMAND_CAPABILITIES[k].edits
      ensures AllFree(COMMAND_CAPABILITIES[k].sideEffects, '\n') && "" !in COMMAND_CAPABILITIES[k].sideEffects
    {
      var i := EntryOfKey(ENTRIES, k);
      EntryKept(i);
      EntryClean(i);
    }
  }

  /** The entries of the context command. */
  lemma ContextEntries(i: nat)
    requires i < |ENTRIES| && ENTRIES[i].0 == "context"
    ensures ENTRIES[i].2.writeFlags == []
    ensures (ENTRIES[i].1 == "ingest" && ENTRIES[i].2.effect == Write)
      || (ENTRIES[i].1 == "preview" && ENTRIES[i].2.effect == Read)
  {
    assert |ENTRIES[i].0| == 7 && ENTRIES[i].0[0] == 'c';
  }

  // ---- looking an entry up ----

  /** Every entry of the table is found under its names. */
  lemma Registered(i: nat)
    requires i < |ENTRIES|
    ensures EntryKey(ENTRIES[i]) in COMMAND_CAPABILITIES && COMMAND_CAPABILITIES[EntryKey(ENTRIES[i])] == ENTRIES[i].2
  {
    EntryListed(ENTRIES, i);
    var j := EntryOfKey(ENTRIES, EntryKey(ENTRIES[i]));
    EntryKept(i);
    PlainNoSlash(ENTRIES[i].0);
    PlainNoSlash(ENTRIES[i].1);
    SameKey(ENTRIES[i].0, ENTRIES[i].1, ENTRIES[j].0, ENTRIES[j].1);
    EntriesDistinct(i, j);
  }

  lemma PlainNoSlash(s: string)
    requires PlainName(s)
    ensures '/' !in s && s != "" && s[0] != '-'
  {
  }
}
