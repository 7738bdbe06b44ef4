/** The files under action-types: the directly executable Action Types that ship, and what callers can make of them. */
module ShippedActions {
  import opened Wrappers
  import opened Text
  import opened StringSort
  import opened ActionContracts
  import opened ActionRuntime
  import opened ArgumentSlots
  import opened ActionServer
  import opened CliSeam
  import opened ParsedFlags
  import opened SpawnedLines
  import opened TwoSeams
  import opened CommandCapabilities
  import opened FlagRows

  // ---- the files ----

  function FlagAlone(flag: string): Template {
    Template(None, Some(flag), None, None, true, false)
  }

  function FlagValue(flag: string, value: string): Template {
    Template(None, Some(flag), Some(value), None, false, false)
  }

  function FlagFrom(flag: string, source: string, optional: bool): Template {
    Template(None, Some(flag), None, Some(source), false, optional)
  }

  function Placed(position: nat, source: string, optional: bool): Template {
    Template(Some(position), None, None, Some(source), false, optional)
  }

  /** What the dry-run files have in common: no effects, no evidence, approved by the system. */
  function ReadAction(id: string, ex: Execution): Action {
    Action(id, "dry-run", Some(ex), [], [], ["system"], [], [])
  }

  const CONTRACTS_VALIDATE := ReadAction("amber.contracts.validate",
    Plain(Mapping("contracts", "validate", [FlagAlone("--json")])))
  const EVAL_RUN := ReadAction("amber.eval.run",
    Plain(Mapping("eval", "run", [FlagFrom("--suite", "parameters.suite", true), FlagAlone("--json")])))
  const GOVERNANCE_REPORT := ReadAction("amber.governance.report", Plain(Mapping("governance", "report", [])))
  const MEMORY_STATUS := ReadAction("amber.memory.status", Plain(Mapping("memory", "status", [FlagAlone("--json")])))
  const ROUTE_TEST := ReadAction("amber.route.test",
    Plain(Mapping("route", "test", [Placed(0, "parameters.routeId", false)])))
  const SESSION_RUN := ReadAction("amber.session.run",
    Plain(Mapping("session", "run", [FlagFrom("--session", "parameters.sessionId", false)])))
  const SESSION_STATUS := ReadAction("amber.session.status",
    Plain(Mapping("session", "status", [Placed(0, "parameters.sessionId", true)])))

  const OBJECT_SESSION := Mapping("session", "status", [Placed(0, "parameters.id", true), FlagAlone("--json")])
  const OBJECT_ROUTE := Mapping("route", "list", [FlagAlone("--json")])
  const OBJECT_CONTEXT := Mapping("context", "preview", [
    FlagFrom("--route", "parameters.route", false), FlagFrom("--feature", "parameters.feature", true),
    FlagFrom("--page", "parameters.id", true), FlagAlone("--json")])
  const OBJECT_LEDGER := Mapping("ledger", "export", [FlagValue("--home", "all"), FlagValue("--format", "json")])
  const OBJECT_LOOP := Mapping("loop", "recommend", [FlagFrom("--goal", "parameters.goal", true), FlagAlone("--json")])

  const OBJECT_QUERY := ReadAction("amber.object.query", Variants("objectType", [
    ("session", OBJECT_SESSION), ("route", OBJECT_ROUTE), ("context", OBJECT_CONTEXT),
    ("ledger", OBJECT_LEDGER), ("loop", OBJECT_LOOP)]))

  const SHIPPED_READS: seq<Action> :=
    [CONTRACTS_VALIDATE, EVAL_RUN, GOVERNANCE_REPORT, MEMORY_STATUS]
      + [ROUTE_TEST, SESSION_RUN, SESSION_STATUS, OBJECT_QUERY]

  // ---- what all their templates keep to ----

  /** A positional 0 from a parameter other than the selector, or a flag written as its row reads it. */
  predicate KeepsTo(selector: Option<string>, t: Template) {
    if t.position.Some? then t.position == Some(0) && t.HasSource() && !FromSelector(selector, t)
    else
      && t.flag.Some? && (t.flagOnly || t.value.Some? || t.HasSource())
      && t.flag.value in FLAG_ROWS && FLAG_ROWS[t.flag.value].boolean == t.flagOnly
      && FLAG_ROWS[t.flag.value].key != "help"
  }

  /** A registered plain read whose templates push no write flag, and place nothing where it has one. */
  predicate PlainRead(selector: Option<string>, m: Mapping, cap: Capability) {
    && cap == ReadCommand(cap.writeFlags)
    && (forall t :: t in m.args ==> KeepsTo(selector, t))
    && (forall t :: t in m.args && t.flag.Some? ==> t.flag.value !in cap.writeFlags)
    && (cap.writeFlags == [] || forall t :: t in m.args ==> t.position.None?)
  }

  predicate RegisteredPlain(selector: Option<string>, m: Mapping) {
    KeyOf(m) in COMMAND_CAPABILITIES && PlainRead(selector, m, COMMAND_CAPABILITIES[KeyOf(m)])
  }

  ghost predicate AllPlainReads(ex: Execution) {
    forall e :: e in ex.Entries() ==> RegisteredPlain(Selector(ex), e.1)
  }

  lemma PlainReadPasses(a: Action, m: Mapping, cap: Capability, id: string, ex: Execution)
    requires a == ReadAction(id, ex) && PlainRead(Selector(ex), m, cap)
    ensures forall k :: !Fails(a, m, cap, k)
    ensures !BindsWriteFlag(cap, m)
  {
  }

  lemma PlainReadsAccepted(id: string, ex: Execution)
    requires id != "" && AllPlainReads(ex)
    ensures Accepted(COMMAND_CAPABILITIES, ReadAction(id, ex))
    ensures IsReadOnlyExecutable(COMMAND_CAPABILITIES, ReadAction(id, ex))
  {
    AcceptedReads(COMMAND_CAPABILITIES, id, ex);
  }

  lemma AcceptedReads(reg: Registry, id: string, ex: Execution)
    requires id != ""
    requires forall e :: e in ex.Entries() ==> KeyOf(e.1) in reg && PlainRead(Selector(ex), e.1, reg[KeyOf(e.1)])
    ensures Accepted(reg, ReadAction(id, ex)) && IsReadOnlyExecutable(reg, ReadAction(id, ex))
  {
    var a := ReadAction(id, ex);
    forall e | e in ex.Entries() ensures Passes(reg, a, e.1) && DirectRead(reg, e.1) {
      PlainReadPasses(a, e.1, reg[KeyOf(e.1)], id, ex);
    }
    NoEntryFindings(reg, a, ex.Entries());
  }

  lemma PlainReadTame(specs: FlagTable, selector: Option<string>, variant: Option<string>, m: Mapping, cap: Capability)
    requires PlainRead(selector, m, cap)
    ensures Tame(WriteFlags(specs, cap), selector, variant, m.args)
  {
    forall i: nat | SlotTemplate(m.args, i).Some?
      ensures TameSlot(WriteFlags(specs, cap), selector, variant, SlotTemplate(m.args, i).value)
    {
      SlotTemplateListed(m.args, i);
      assert cap.writeFlags == [] ==> WriteFlags(specs, cap) == {};
    }
  }

  lemma PlainReadFits(specs: FlagTable, stops: set<string>, selector: Option<string>, variant: Option<string>,
                      m: Mapping, cap: Capability)
    requires Extends(specs) && PlainRead(selector, m, cap)
    ensures Fitting(specs, stops, selector, variant, m.args)
  {
    FitsRows(specs, stops, selector, variant, m.args);
  }

  lemma FitsRows(specs: FlagTable, stops: set<string>, selector: Option<string>, variant: Option<string>,
      args: seq<Template>)
    requires forall t :: t in args ==>
      (if t.position.Some? then t.position == Some(0) && t.HasSource() && !FromSelector(selector, t)
       else t.flag.Some? && (t.flagOnly || t.value.Some? || t.HasSource())
            && t.flag.value in specs && specs[t.flag.value].boolean == t.flagOnly)
    ensures Fitting(specs, stops, selector, variant, args)
  {
    forall i: nat | SlotTemplate(args, i).Some?
      ensures i == 0 && FittingSlot(specs, stops, selector, variant, SlotTemplate(args, i).value)
    {
      SlotTemplateListed(args, i);
    }
  }

  // ---- the shipped reads keep to it ----

  predicate RowIs(flag: string, boolean: bool) {
    flag in FLAG_ROWS && FLAG_ROWS[flag].boolean == boolean && FLAG_ROWS[flag].key != "help"
  }

  lemma RowOf(i: nat)
    requires i < |ROWS| && i != 14
    ensures RowIs("--" + ROWS[i].0, ROWS[i].1)
  {
    RowFound(i);
    RowsDistinctFromHelp(i);
  }

  lemma RowsDistinctFromHelp(i: nat)
    requires i < |ROWS| && i != 14
    ensures ROWS[i].0 != "help"
  {
    assert ROWS[14].0 == "help";
    if ROWS[i].0 == ROWS[14].0 {
      RowsDistinct(i, 14);
      assert false;
    }
  }

  lemma RowsUsed()
    ensures RowIs("--json", true) && RowIs("--session", false) && RowIs("--suite", false)
    ensures RowIs("--home", false) && RowIs("--format", false) && RowIs("--goal", false)
    ensures RowIs("--route", false) && RowIs("--feature", false) && RowIs("--page", false)
  {
    assert "--" + "json" == "--json" && "--" + "session" == "--session" && "--" + "suite" == "--suite";
    assert "--" + "home" == "--home" && "--" + "format" == "--format" && "--" + "goal" == "--goal";
    assert "--" + "route" == "--route" && "--" + "feature" == "--feature" && "--" + "page" == "--page";
    RowOf(0);
    RowOf(1);
    RowOf(2);
    RowOf(3);
    RowOf(4);
    RowOf(5);
    RowOf(6);
    RowOf(7);
    RowOf(13);
  }

  /** One mapping of a shipped read: its entry, and its templates. */
  lemma MappingPlain(selector: Option<string>, m: Mapping, i: nat, writeFlags: seq<string>)
    requires i < |ENTRIES| && ENTRIES[i] == (m.command, m.subcommand, ReadCommand(writeFlags))
    requires PlainRead(selector, m, ReadCommand(writeFlags))
    ensures KeyOf(m) in COMMAND_CAPABILITIES && PlainRead(selector, m, COMMAND_CAPABILITIES[KeyOf(m)])
  {
    Registered(i);
  }

  lemma ContractsValidatePlain()
    ensures AllPlainReads(CONTRACTS_VALIDATE.execution.value)
  {
    RowsUsed();
    MappingPlain(None, CONTRACTS_VALIDATE.execution.value.mapping, 18, []);
  }

  lemma EvalRunPlain()
    ensures AllPlainReads(EVAL_RUN.execution.value)
  {
    RowsUsed();
    MappingPlain(None, EVAL_RUN.execution.value.mapping, 17, []);
  }

  lemma GovernanceReportPlain()
    ensures AllPlainReads(GOVERNANCE_REPORT.execution.value)
  {
    MappingPlain(None, GOVERNANCE_REPORT.execution.value.mapping, 11, ["--output"]);
  }

  lemma MemoryStatusPlain()
    ensures AllPlainReads(MEMORY_STATUS.execution.value)
  {
    RowsUsed();
    MappingPlain(None, MEMORY_STATUS.execution.value.mapping, 16, []);
  }

  lemma RouteTestPlain()
    ensures AllPlainReads(ROUTE_TEST.execution.value)
  {
    MappingPlain(None, ROUTE_TEST.execution.value.mapping, 8, []);
  }

  lemma SessionRunPlain()
    ensures AllPlainReads(SESSION_RUN.execution.value)
  {
    RowsUsed();
    assert "--session" != "--execute";
    MappingPlain(None, SESSION_RUN.execution.value.mapping, 3, ["--execute"]);
  }

  lemma SessionStatusPlain()
    ensures AllPlainReads(SESSION_STATUS.execution.value)
  {
    MappingPlain(None, SESSION_STATUS.execution.value.mapping, 6, []);
  }

  lemma NotTheSelector()
    ensures SourceKey("parameters.id") == "id" && "id" != "objectType"
  {
    assert "parameters.id"[..11] == "parameters.";
    assert "parameters.id"[11..] == "id";
  }

  lemma ObjectSessionPlain(selector: Option<string>)
    requires selector == Some("objectType")
    ensures RegisteredPlain(selector, OBJECT_SESSION)
  {
    RowsUsed();
    NotTheSelector();
    MappingPlain(selector, OBJECT_SESSION, 6, []);
  }

  lemma ObjectContextPlain(selector: Option<string>)
    ensures RegisteredPlain(selector, OBJECT_CONTEXT)
  {
    RowsUsed();
    MappingPlain(selector, OBJECT_CONTEXT, 10, []);
  }

  lemma ObjectLedgerPlain(selector: Option<string>)
    ensures RegisteredPlain(selector, OBJECT_LEDGER)
  {
    RowsUsed();
    assert "--home" != "--out" && "--format" != "--out";
    MappingPlain(selector, OBJECT_LEDGER, 12, ["--out"]);
  }

  lemma ObjectOthersPlain(selector: Option<string>)
    ensures RegisteredPlain(selector, OBJECT_ROUTE)
    ensures RegisteredPlain(selector, OBJECT_LOOP)
  {
    RowsUsed();
    MappingPlain(selector, OBJECT_ROUTE, 7, []);
    MappingPlain(selector, OBJECT_LOOP, 13, []);
  }

  lemma FiveEntries(ex: Execution, names: seq<string>, a: Mapping, b: Mapping, c: Mapping, d: Mapping, e: Mapping)
    requires ex.Variants? && |names| == 5
    requires ex.table == [(names[0], a), (names[1], b), (names[2], c), (names[3], d), (names[4], e)]
    requires var selector := Some(ex.param);
      && RegisteredPlain(selector, a) && RegisteredPlain(selector, b) && RegisteredPlain(selector, c)
      && RegisteredPlain(selector, d) && RegisteredPlain(selector, e)
    ensures AllPlainReads(ex)
  {
  }

  lemma ObjectQueryPlain()
    ensures AllPlainReads(OBJECT_QUERY.execution.value)
  {
    var selector := Some("objectType");
    ObjectSessionPlain(selector);
    ObjectContextPlain(selector);
    ObjectLedgerPlain(selector);
    ObjectOthersPlain(selector);
    FiveEntries(OBJECT_QUERY.execution.value, ["session", "route", "context", "ledger", "loop"],
                OBJECT_SESSION, OBJECT_ROUTE, OBJECT_CONTEXT, OBJECT_LEDGER, OBJECT_LOOP);
  }

  /** A dry-run file whose variants are all plain reads. */
  ghost predicate PlainAction(a: Action) {
    && a.execution.Some? && a.actionTypeId != "" && a == ReadAction(a.actionTypeId, a.execution.value)
    && AllPlainReads(a.execution.value)
  }

  lemma PlainFilesA()
    ensures forall x :: x in [CONTRACTS_VALIDATE, EVAL_RUN, GOVERNANCE_REPORT, MEMORY_STATUS] ==> PlainAction(x)
  {
    ContractsValidatePlain();
    EvalRunPlain();
    GovernanceReportPlain();
    MemoryStatusPlain();
    FourPlain(CONTRACTS_VALIDATE, EVAL_RUN, GOVERNANCE_REPORT, MEMORY_STATUS);
  }

  lemma PlainFilesB()
    ensures forall x :: x in [ROUTE_TEST, SESSION_RUN, SESSION_STATUS, OBJECT_QUERY] ==> PlainAction(x)
  {
    RouteTestPlain();
    SessionRunPlain();
    SessionStatusPlain();
    ObjectQueryPlain();
    FourPlain(ROUTE_TEST, SESSION_RUN, SESSION_STATUS, OBJECT_QUERY);
  }

  lemma FourPlain(a: Action, b: Action, c: Action, d: Action)
    requires PlainAction(a) && PlainAction(b) && PlainAction(c) && PlainAction(d)
    ensures forall x :: x in [a, b, c, d] ==> PlainAction(x)
  {
  }

  lemma EachOf(xs: seq<Action>, a: seq<Action>, b: seq<Action>, i: nat)
    requires xs == a + b && i < |xs|
    requires (forall x :: x in a ==> PlainAction(x)) && (forall x :: x in b ==> PlainAction(x))
    ensures PlainAction(xs[i])
  {
  }

  lemma ShippedReadPlain(i: nat)
    requires i < |SHIPPED_READS|
    ensures PlainAction(SHIPPED_READS[i])
  {
    PlainFilesA();
    PlainFilesB();
    EachOf(SHIPPED_READS, [CONTRACTS_VALIDATE, EVAL_RUN, GOVERNANCE_REPORT, MEMORY_STATUS],
           [ROUTE_TEST, SESSION_RUN, SESSION_STATUS, OBJECT_QUERY], i);
  }

  // ---- what ships is safe, and what it cannot do ----

  lemma PlainReadsTame(specs: FlagTable, id: string, ex: Execution)
    requires Extends(specs) && id != "" && AllPlainReads(ex)
    ensures TameAction(COMMAND_CAPABILITIES, specs, ReadAction(id, ex), false)
    ensures forall help :: FittingAction(COMMAND_CAPABILITIES, specs, ReadAction(id, ex), help)
  {
    forall variant, m | Selects(ex, variant, m)
      ensures KeyOf(m) in COMMAND_CAPABILITIES
      ensures Tame(Stops(specs, COMMAND_CAPABILITIES[KeyOf(m)], false), Selector(ex), variant, m.args)
      ensures forall stops :: Fitting(specs, stops, Selector(ex), variant, m.args)
    {
      SelectedEntry(ex, variant, m);
      var cap := COMMAND_CAPABILITIES[KeyOf(m)];
      PlainReadTame(specs, Selector(ex), variant, m, cap);
      assert Stops(specs, cap, false) == WriteFlags(specs, cap);
      forall stops ensures Fitting(specs, stops, Selector(ex), variant, m.args) {
        PlainReadFits(specs, stops, Selector(ex), variant, m, cap);
      }
    }
  }

  lemma ShippedReadAccepted(i: nat)
    requires i < |SHIPPED_READS|
    ensures Accepted(COMMAND_CAPABILITIES, SHIPPED_READS[i])
      && IsReadOnlyExecutable(COMMAND_CAPABILITIES, SHIPPED_READS[i])
  {
    var a := SHIPPED_READS[i];
    ShippedReadPlain(i);
    PlainReadsAccepted(a.actionTypeId, a.execution.value);
  }

  lemma ShippedReadsAccepted()
    ensures AllAccepted(COMMAND_CAPABILITIES, SHIPPED_READS)
  {
    forall a | a in SHIPPED_READS ensures Accepted(COMMAND_CAPABILITIES, a) {
      var i :| 0 <= i < |SHIPPED_READS| && SHIPPED_READS[i] == a;
      ShippedReadAccepted(i);
    }
  }

  lemma ShippedReadSafe(cli: Cli, specs: FlagTable, i: nat)
    requires ShippedTables(cli, specs) && i < |SHIPPED_READS|
    ensures SHIPPED_READS[i].execution.Some? && WriteFree(cli.reg, specs, SHIPPED_READS[i])
    ensures forall help :: FittingAction(cli.reg, specs, SHIPPED_READS[i], help)
  {
    var a := SHIPPED_READS[i];
    ShippedReadPlain(i);
    PlainReadsTame(specs, a.actionTypeId, a.execution.value);
    FittingExact(cli, specs, a, false);
    WriteFreeUnreached(cli.reg, specs, a);
  }

  /** No parameters whatever make a shipped read anything but a typed read of the same command to the CLI. */
  lemma ShippedReadsAgree(cli: Cli, specs: FlagTable, i: nat)
    requires ShippedTables(cli, specs) && i < |SHIPPED_READS|
    ensures AllAccepted(COMMAND_CAPABILITIES, SHIPPED_READS) && SHIPPED_READS[i].execution.Some?
    ensures forall p, target, cwd :: CallAgrees(cli, specs, SHIPPED_READS, SHIPPED_READS[i], p, target, cwd)
  {
    ShippedReadsAccepted();
    ShippedReadSafe(cli, specs, i);
    assert SHIPPED_READS[i] in SHIPPED_READS;
    SeamsAgree(cli, specs, SHIPPED_READS, SHIPPED_READS[i]);
  }

  ghost predicate PlacesNothing(ex: Execution) {
    forall variant, m :: Selects(ex, variant, m) ==> forall t :: t in m.args ==> t.position.None?
  }

  lemma {:induction false} TemplateHasSlot(args: seq<Template>, t: Template, i: nat)
    requires t in args && t.position == Some(i)
    ensures SlotTemplate(args, i).Some?
    decreases |args|
  {
    var n := |args| - 1;
    if args[n].position != Some(i) {
      TemplateHasSlot(args[..n], t, i);
    }
  }

  lemma PlainFlagNoStop(specs: FlagTable, selector: Option<string>, m: Mapping, cap: Capability, t: Template)
    requires Extends(specs) && PlainRead(selector, m, cap) && t in m.args && t.position.None?
    ensures t.flag.Some? && t.flag.value !in Stops(specs, cap, true)
  {
    assert KeepsTo(selector, t);
    var name := FlagShape(t.flag.value);
    assert !Sets(specs[t.flag.value], "help");
  }

  lemma PlainReadUndisturbed(specs: FlagTable, selector: Option<string>, variant: Option<string>, m: Mapping,
      cap: Capability)
    requires Extends(specs) && PlainRead(selector, m, cap)
    ensures Tame(Stops(specs, cap, true), selector, variant, m.args) <==> forall t :: t in m.args ==> t.position.None?
  {
    var stops := Stops(specs, cap, true);
    assert "--help" in stops by { HelpRow(specs); }
    forall t | t in m.args && t.position.None? && t.flag.Some? ensures t.flag.value !in stops {
      PlainFlagNoStop(specs, selector, m, cap, t);
    }
    if t :| t in m.args && t.position.Some? {
      assert KeepsTo(selector, t);
      TemplateHasSlot(m.args, t, 0);
      SlotTemplateListed(m.args, 0);
      assert !TameSlot(stops, selector, variant, SlotTemplate(m.args, 0).value);
    } else {
      forall i: nat ensures SlotTemplate(m.args, i).None? {
        if SlotTemplate(m.args, i).Some? {
          SlotTemplateListed(m.args, i);
          assert false;
        }
      }
    }
  }

  lemma HelpRow(specs: FlagTable)
    requires Extends(specs)
    ensures "--help" in HelpFlags(specs)
  {
    RowFound(14);
    assert "--" + "help" == "--help";
  }

  /** Every process of a shipped read reaches its handler exactly when the action places no parameter. */
  lemma ShippedHandledExact(cli: Cli, specs: FlagTable, i: nat)
    requires ShippedTables(cli, specs) && i < |SHIPPED_READS|
    ensures SHIPPED_READS[i].execution.Some?
    ensures (forall p, target, cwd :: CallHandled(cli, specs, SHIPPED_READS, SHIPPED_READS[i], p, target, cwd))
       <==> PlacesNothing(SHIPPED_READS[i].execution.value)
  {
    var a := SHIPPED_READS[i];
    ShippedReadsAccepted();
    ShippedReadSafe(cli, specs, i);
    ShippedReadPlain(i);
    assert a in SHIPPED_READS;
    HandledExact(cli, specs, SHIPPED_READS, a);
    FittingExact(cli, specs, a, true);
    TamePlacesNothing(specs, a.actionTypeId, a.execution.value);
  }

  lemma TamePlacesNothing(specs: FlagTable, id: string, ex: Execution)
    requires Extends(specs) && id != "" && AllPlainReads(ex)
    ensures TameAction(COMMAND_CAPABILITIES, specs, ReadAction(id, ex), true) <==> PlacesNothing(ex)
  {
    PlainReadsAccepted(id, ex);
    forall variant, m | Selects(ex, variant, m)
      ensures KeyOf(m) in COMMAND_CAPABILITIES
      ensures Tame(Stops(specs, COMMAND_CAPABILITIES[KeyOf(m)], true), Selector(ex), variant, m.args)
         <==> forall t :: t in m.args ==> t.position.None?
    {
      SelectedEntry(ex, variant, m);
      PlainReadUndisturbed(specs, Selector(ex), variant, m, COMMAND_CAPABILITIES[KeyOf(m)]);
    }
  }

  // ---- which of them keep the configured target ----

  lemma {:induction false} SwallowsAppend(a: seq<Symbol>, b: seq<Symbol>, specs: FlagTable, valued: set<string>)
    requires !Swallows(a, specs, valued)
    ensures Swallows(a + b, specs, valued) <==> Swallows(b, specs, valued)
    decreases |a|
  {
    if a == [] {
      assert a + b == b;
    } else {
      assert (a + b)[1..] == a[1..] + b;
      var takes := match a[0]
        case Caller(key) => key in valued
        case Lit(text) => TakesValue(specs, text);
      if !takes {
        SwallowsAppend(a[1..], b, specs, valued);
      } else {
        assert (a + b)[2..] == a[2..] + b;
        SwallowsAppend(a[2..], b, specs, valued);
      }
    }
  }

  /** The tokens of flags written as their rows read them leave the reader where a flag may stand. */
  lemma {:induction false} FlagsLeaveReading(args: seq<Template>, specs: FlagTable, selector: Option<string>,
                                             variant: Option<string>, absent: set<string>, valued: set<string>)
    requires Fitting(specs, {}, selector, variant, args) && forall t :: t in args ==> t.position.None?
    requires OutlineOf(args, selector, variant, absent).Outline?
    ensures var o := OutlineOf(args, selector, variant, absent);
      o.slots == [] && !Swallows(Symbols(o.tokens), specs, valued)
    decreases |args|
  {
    if args != [] {
      var front, t := args[..|args| - 1], args[|args| - 1];
      assert args == front + [t] && t in args && forall u :: u in front ==> u in args;
      var before := OutlineOf(front, selector, variant, absent);
      NoSlotTemplates(front);
      FlagsLeaveReading(front, specs, selector, variant, absent, valued);
      assert FittingTemplate(specs, {}, t);
      GroupLeavesReading(before, t, specs, selector, variant, absent, valued);
    }
  }

  lemma NoSlotTemplates(args: seq<Template>)
    requires forall t :: t in args ==> t.position.None?
    ensures forall i: nat :: SlotTemplate(args, i).None?
  {
    forall i: nat ensures SlotTemplate(args, i).None? {
      if SlotTemplate(args, i).Some? {
        SlotTemplateListed(args, i);
        assert false;
      }
    }
  }

  lemma GroupLeavesReading(before: Outline, t: Template, specs: FlagTable, selector: Option<string>,
                           variant: Option<string>, absent: set<string>, valued: set<string>)
    requires FittingTemplate(specs, {}, t) && t.position.None? && before.Outline?
    requires !Swallows(Symbols(before.tokens), specs, valued)
    requires Extend(before, t, selector, variant, absent).Outline?
    ensures !Swallows(Symbols(Extend(before, t, selector, variant, absent).tokens), specs, valued)
  {
    var a, o := Symbols(before.tokens), Extend(before, t, selector, variant, absent);
    var text := SymbolOf(t, selector, variant, absent);
    if t.flagOnly {
      var b := [Lit(t.flag.value)];
      assert Symbols(o.tokens) == a + b;
      assert b[1..] == [];
      SwallowsAppend(a, b, specs, valued);
    } else if text.Some? {
      var b := [Lit(t.flag.value), if text.value.Some? then text.value.value else Lit(UNDEFINED)];
      assert Symbols(o.tokens) == a + b;
      assert b[2..] == [];
      SwallowsAppend(a, b, specs, valued);
    }
  }

  /** A variant without positionals keeps the target. */
  lemma FlagsKeepTarget(specs: FlagTable, ex: Execution, variant: Option<string>, m: Mapping)
    requires Fitting(specs, {}, Selector(ex), variant, m.args) && m.subcommand !in specs
    requires forall t :: t in m.args ==> t.position.None?
    ensures KeepsTarget(specs, ex, variant, m)
  {
    forall absent, valued ensures
      var o := OutlineOf(m.args, Selector(ex), variant, absent);
      o.Outline? ==> !Swallows(SymbolLine(m, o), specs, valued)
    {
      var o := OutlineOf(m.args, Selector(ex), variant, absent);
      if o.Outline? {
        FlagsLeaveReading(m.args, specs, Selector(ex), variant, absent, valued);
        var line := SymbolLine(m, o);
        assert Symbols(o.slots) == [] && line[1..] == Symbols(o.tokens);
      }
    }
  }

  /** So does one placed parameter with a boolean flag behind it, which takes the place of the target flag. */
  lemma GuardedKeepsTarget(specs: FlagTable, ex: Execution, variant: Option<string>, m: Mapping, source: string,
      optional: bool, flag: string)
    requires m.args == [Placed(0, source, optional), FlagAlone(flag)] && source != ""
      && Selector(ex) != Some(SourceKey(source))
    requires m.subcommand !in specs && flag in specs && specs[flag].boolean
    ensures KeepsTarget(specs, ex, variant, m)
  {
    forall absent, valued ensures
      var o := OutlineOf(m.args, Selector(ex), variant, absent);
      o.Outline? ==> !Swallows(SymbolLine(m, o), specs, valued)
    {
      GuardedOutline(m.args, Selector(ex), variant, absent, source, optional, flag);
      var o := OutlineOf(m.args, Selector(ex), variant, absent);
      if o.Outline? {
        GuardedLine(m.subcommand, SourceKey(source), flag, specs, valued);
        assert SymbolLine(m, o) == if SourceKey(source) in absent then [Lit(m.subcommand), Lit(flag)]
                                   else [Lit(m.subcommand), Caller(SourceKey(source)), Lit(flag)];
      }
    }
  }

  lemma GuardedLine(sub: string, key: string, flag: string, specs: FlagTable, valued: set<string>)
    requires sub !in specs && flag in specs && specs[flag].boolean
    ensures !Swallows([Lit(sub), Lit(flag)], specs, valued)
    ensures !Swallows([Lit(sub), Caller(key), Lit(flag)], specs, valued)
  {
    var last, middle := [Lit(flag)], [Caller(key), Lit(flag)];
    assert last[1..] == [] && middle[1..] == last && middle[2..] == [];
    assert !Swallows(last, specs, valued);
    assert !Swallows(middle, specs, valued);
    assert [Lit(sub), Lit(flag)][1..] == last && [Lit(sub), Caller(key), Lit(flag)][1..] == middle;
  }

  lemma GuardedOutline(args: seq<Template>, selector: Option<string>, variant: Option<string>, absent: set<string>,
                       source: string, optional: bool, flag: string)
    requires args == [Placed(0, source, optional), FlagAlone(flag)] && source != ""
      && selector != Some(SourceKey(source))
    ensures OutlineOf(args, selector, variant, absent)
         == if SourceKey(source) !in absent then Outline([Some(Caller(SourceKey(source)))], [Some(Lit(flag))])
            else if optional then Outline([], [Some(Lit(flag))]) else Refused
  {
    var one := args[..1];
    assert one == [Placed(0, source, optional)] && one[..0] == [];
    PlacedOutline(one, selector, variant, absent, source, optional);
    assert [] + [Some(Lit(flag))] == [Some(Lit(flag))];
  }

  lemma PlacedOutline(args: seq<Template>, selector: Option<string>, variant: Option<string>, absent: set<string>,
                      source: string, optional: bool)
    requires args == [Placed(0, source, optional)] && source != "" && selector != Some(SourceKey(source))
    ensures OutlineOf(args, selector, variant, absent)
         == if SourceKey(source) !in absent then Outline([Some(Caller(SourceKey(source)))], [])
            else if optional then Outline([], []) else Refused
  {
    assert args[..0] == [];
    assert SetAt([], 0, Some(Caller(SourceKey(source)))) == [Some(Caller(SourceKey(source)))];
  }

  /** A placed parameter with nothing behind it does not. */
  lemma BareLosesTarget(specs: FlagTable, ex: Execution, variant: Option<string>, m: Mapping, source: string,
      optional: bool)
    requires m.args == [Placed(0, source, optional)] && source != "" && Selector(ex) != Some(SourceKey(source))
    requires m.subcommand !in specs
    ensures !KeepsTarget(specs, ex, variant, m)
  {
    var key := SourceKey(source);
    PlacedOutline(m.args, Selector(ex), variant, {}, source, optional);
    var o := OutlineOf(m.args, Selector(ex), variant, {});
    var line := SymbolLine(m, o);
    assert line == [Lit(m.subcommand), Caller(key)];
    assert line[1..] == [Caller(key)];
    assert Swallows(line, specs, {key});
  }

  lemma PlainReadKeeps(cli: Cli, specs: FlagTable, ex: Execution, variant: Option<string>, m: Mapping)
    requires ShippedTables(cli, specs) && AllPlainReads(ex) && Selects(ex, variant, m)
    ensures m.subcommand !in specs && Fitting(specs, {}, Selector(ex), variant, m.args)
    ensures (forall t :: t in m.args ==> t.position.None?) ==> KeepsTarget(specs, ex, variant, m)
  {
    SelectedEntry(ex, variant, m);
    RegisteredNames(cli, specs, m);
    PlainReadFits(specs, {}, Selector(ex), variant, m, COMMAND_CAPABILITIES[KeyOf(m)]);
    if forall t :: t in m.args ==> t.position.None? {
      FlagsKeepTarget(specs, ex, variant, m);
    }
  }

  lemma PlacesNothingKeeps(cli: Cli, specs: FlagTable, a: Action)
    requires ShippedTables(cli, specs) && PlainAction(a) && PlacesNothing(a.execution.value)
    ensures KeepsTargets(cli.reg, specs, a)
  {
    forall variant, m | Selects(a.execution.value, variant, m)
      ensures KeepsTarget(specs, a.execution.value, variant, m) {
      PlainReadKeeps(cli, specs, a.execution.value, variant, m);
    }
  }

  predicate NonePlaced(m: Mapping) {
    forall t :: t in m.args ==> t.position.None?
  }

  lemma TableKeeps(cli: Cli, specs: FlagTable, a: Action, guarded: Mapping, source: string)
    requires ShippedTables(cli, specs) && PlainAction(a) && a.execution.value.Variants?
    requires forall e :: e in a.execution.value.table ==> e.1 == guarded || NonePlaced(e.1)
    requires guarded.args == [Placed(0, source, true), FlagAlone("--json")] && source != ""
    requires a.execution.value.param != SourceKey(source) && RowIs("--json", true)
    ensures KeepsTargets(cli.reg, specs, a)
  {
    var ex := a.execution.value;
    forall variant, m | Selects(ex, variant, m) ensures KeepsTarget(specs, ex, variant, m) {
      PlainReadKeeps(cli, specs, ex, variant, m);
      LookupListed(ex.table, variant.value);
      if m == guarded {
        GuardedKeepsTarget(specs, ex, variant, m, source, true, "--json");
      }
    }
  }

  lemma TableNone(table: seq<(string, Mapping)>, names: seq<string>, ms: seq<Mapping>, guarded: Mapping)
    requires |table| == |names| == |ms| && forall i :: 0 <= i < |ms| ==> table[i] == (names[i], ms[i])
    requires forall i :: 0 <= i < |ms| ==> ms[i] == guarded || NonePlaced(ms[i])
    ensures forall e :: e in table ==> e.1 == guarded || NonePlaced(e.1)
  {
  }

  lemma ObjectPlaces()
    ensures NonePlaced(OBJECT_ROUTE) && NonePlaced(OBJECT_CONTEXT) && NonePlaced(OBJECT_LEDGER)
      && NonePlaced(OBJECT_LOOP)
  {
  }

  lemma ObjectTable()
    ensures OBJECT_QUERY.execution.value.Variants? && OBJECT_QUERY.execution.value.param == "objectType"
    ensures forall e :: e in OBJECT_QUERY.execution.value.table ==> e.1 == OBJECT_SESSION || NonePlaced(e.1)
  {
    ObjectPlaces();
    TableNone(OBJECT_QUERY.execution.value.table, ["session", "route", "context", "ledger", "loop"],
              [OBJECT_SESSION, OBJECT_ROUTE, OBJECT_CONTEXT, OBJECT_LEDGER, OBJECT_LOOP], OBJECT_SESSION);
  }

  lemma GuardedMapping()
    ensures OBJECT_SESSION.args == [Placed(0, "parameters.id", true), FlagAlone("--json")]
    ensures "parameters.id" != "" && "objectType" != SourceKey("parameters.id") && RowIs("--json", true)
  {
    RowsUsed();
    NotTheSelector();
  }

  /** The one variant of the object query that places a parameter has `--json` behind it. */
  lemma ObjectQueryKeeps(cli: Cli, specs: FlagTable)
    requires ShippedTables(cli, specs) && PlainAction(OBJECT_QUERY)
    ensures KeepsTargets(cli.reg, specs, OBJECT_QUERY)
  {
    GuardedMapping();
    ObjectTable();
    TableKeeps(cli, specs, OBJECT_QUERY, OBJECT_SESSION, "parameters.id");
  }

  lemma UnplacedKeeps(cli: Cli, specs: FlagTable, a: Action, m: Mapping)
    requires ShippedTables(cli, specs) && PlainAction(a) && a.execution == Some(Plain(m)) && NonePlaced(m)
    ensures KeepsTargets(cli.reg, specs, a)
  {
    PlacesNothingKeeps(cli, specs, a);
  }

  lemma FirstReadsPlaceNothing(i: nat)
    requires i < 4 || i == 5
    ensures i < |SHIPPED_READS| && SHIPPED_READS[i].execution.Some? && SHIPPED_READS[i].execution.value.Plain?
    ensures NonePlaced(SHIPPED_READS[i].execution.value.mapping)
  {
  }

  lemma FirstReadsKeep(cli: Cli, specs: FlagTable, i: nat)
    requires ShippedTables(cli, specs) && (i < 4 || i == 5)
    ensures i < |SHIPPED_READS| && PlainAction(SHIPPED_READS[i]) && KeepsTargets(cli.reg, specs, SHIPPED_READS[i])
  {
    FirstReadsPlaceNothing(i);
    ShippedReadPlain(i);
    var a := SHIPPED_READS[i];
    UnplacedKeeps(cli, specs, a, a.execution.value.mapping);
  }

  lemma OnePlacedLoses(cli: Cli, specs: FlagTable, a: Action, m: Mapping, source: string, optional: bool)
    requires ShippedTables(cli, specs) && PlainAction(a) && IsReadOnlyExecutable(cli.reg, a)
    requires a.execution == Some(Plain(m)) && m.args == [Placed(0, source, optional)] && source != ""
    ensures !KeepsTargets(cli.reg, specs, a)
  {
    var ex := a.execution.value;
    assert Selects(ex, None, m);
    PlainReadKeeps(cli, specs, ex, None, m);
    BareLosesTarget(specs, ex, None, m, source, optional);
  }

  lemma PlacingReadsLose(cli: Cli, specs: FlagTable)
    requires ShippedTables(cli, specs)
    requires IsReadOnlyExecutable(cli.reg, ROUTE_TEST) && IsReadOnlyExecutable(cli.reg, SESSION_STATUS)
    requires PlainAction(ROUTE_TEST) && PlainAction(SESSION_STATUS)
    ensures !KeepsTargets(cli.reg, specs, ROUTE_TEST) && !KeepsTargets(cli.reg, specs, SESSION_STATUS)
  {
    OnePlacedLoses(cli, specs, ROUTE_TEST, ROUTE_TEST.execution.value.mapping, "parameters.routeId", false);
    OnePlacedLoses(cli, specs, SESSION_STATUS, SESSION_STATUS.execution.value.mapping, "parameters.sessionId", true);
  }

  lemma ReadNames()
    ensures |SHIPPED_READS| == 8 && SHIPPED_READS[4] == ROUTE_TEST && SHIPPED_READS[6] == SESSION_STATUS
      && SHIPPED_READS[7] == OBJECT_QUERY
  {
  }

  /** All shipped reads but the route test (4) and the session status (6) keep the configured target. */
  lemma ShippedTargetExact(cli: Cli, specs: FlagTable, i: nat)
    requires ShippedTables(cli, specs) && i < |SHIPPED_READS|
    ensures SHIPPED_READS[4] == ROUTE_TEST && SHIPPED_READS[6] == SESSION_STATUS && SHIPPED_READS[i].execution.Some?
    ensures (forall p, target, cwd :: CallKeepsTarget(cli.reg, specs, SHIPPED_READS[i], p, target, cwd))
      <==> i != 4 && i != 6
  {
    ReadNames();
    ShippedReadPlain(i);
    TargetKeptExact(cli.reg, specs, SHIPPED_READS[i]);
    if i == 4 || i == 6 {
      ShippedReadPlain(4);
      ShippedReadPlain(6);
      ShippedReadAccepted(4);
      ShippedReadAccepted(6);
      PlacingReadsLose(cli, specs);
    } else if i == 7 {
      ObjectQueryKeeps(cli, specs);
    } else {
      FirstReadsKeep(cli, specs, i);
    }
  }
}
