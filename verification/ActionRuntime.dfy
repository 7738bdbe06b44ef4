/** scripts/lib/mcp-action-runtime.js: building an invocation and deciding whether to run it. */
module ActionRuntime {
  import opened Wrappers
  import opened Lists
  import opened Text
  import opened ActionContracts

  /** A submitted parameter value; `Other` is a non-string value with its String() text. */
  datatype Value = Null | Str(text: string) | Other(text: string, truthy: bool) {
    predicate Truthy() {
      match this
      case Null => false
      case Str(t) => t != ""
      case Other(_, b) => b
    }
  }

  type Parameters = map<string, Value>

  /** The String() text of a parameter that is neither missing nor null. */
  function ParamText(p: Parameters, key: string): Option<string> {
    if key in p && !p[key].Null? then Some(p[key].text) else None
  }

  /** `source.replace(/^parameters\./, "")`. */
  function SourceKey(source: string): string {
    if StartsWith(source, "parameters.") then source[|"parameters."|..] else source
  }

  /** A source names the parameter behind `parameters.`, or else the one it is spelled like. */
  lemma SourceExact(source: string, key: string)
    ensures SourceKey(source) == key
      <==> source == "parameters." + key || (source == key && !StartsWith(source, "parameters."))
  {
    if StartsWith(source, "parameters.") {
      assert source == "parameters." + source[|"parameters."|..];
    }
  }

  // ---- one template ----

  /** A flag pushed to the command line, alone or with the value pushed after it. */
  datatype Binding = Alone(flag: Option<string>) | Valued(flag: Option<string>, value: Option<string>)

  datatype Step = Skip | Place(position: nat, text: Option<string>) | Bind(binding: Binding) | Missing(key: string)

  function StepOf(t: Template, p: Parameters): Step {
    var text := if t.HasSource() then ParamText(p, SourceKey(t.source.value)) else None;
    if t.position.None? && t.flagOnly then Bind(Alone(t.flag))
    else if t.HasSource() && text.None? then
      if t.optional then Skip else Missing(SourceKey(t.source.value))
    else
      var value := if t.HasSource() then text else t.value;
      if t.position.Some? then Place(t.position.value, value) else Bind(Valued(t.flag, value))
  }

  // ---- the loop over the templates ----

  /** `a[i] = v` on an array that grows with holes. */
  function SetAt<T>(a: seq<Option<T>>, i: nat, v: Option<T>): seq<Option<T>> {
    if i < |a| then a[i := v] else a + seq(i - |a|, _ => None) + [v]
  }

  datatype Build = Built(positional: seq<Option<string>>, bindings: seq<Binding>) | Lacks(key: string)

  /** What one template adds to the positionals and flags so far. */
  function Stepped(before: Build, step: Step): Build
    requires before.Built?
  {
    match step
    case Skip => before
    case Place(i, text) => before.(positional := SetAt(before.positional, i, text))
    case Bind(b) => before.(bindings := before.bindings + [b])
    case Missing(key) => Lacks(key)
  }

  function Emit(args: seq<Template>, p: Parameters): Build {
    if args == [] then Built([], []) else
      var before := Emit(args[..|args| - 1], p);
      if before.Lacks? then before else Stepped(before, StepOf(args[|args| - 1], p))
  }

  function TokensOf(b: Binding): seq<Option<string>> {
    if b.Alone? then [b.flag] else [b.flag, b.value]
  }

  function Tokens(bindings: seq<Binding>): seq<Option<string>> {
    if bindings == [] then [] else
      Tokens(bindings[..|bindings| - 1]) + TokensOf(bindings[|bindings| - 1])
  }

  datatype Failure =
    | UnknownVariant
    | MissingParameter(key: string)
    | UnmappedCommand(key: string)
    | CorruptSessions(ids: seq<string>)

  function Lookup(table: seq<(string, Mapping)>, name: string): Option<Mapping> {
    if table == [] then None
    else if table[0].0 == name then Some(table[0].1)
    else Lookup(table[1..], name)
  }

  lemma {:induction false} LookupListed(table: seq<(string, Mapping)>, name: string)
    requires Lookup(table, name).Some?
    ensures (name, Lookup(table, name).value) in table
    decreases |table|
  {
    if table[0].0 != name {
      LookupListed(table[1..], name);
    } else {
      assert table[0] in table;
    }
  }

  function ResolveExecution(ex: Execution, p: Parameters): Result<Mapping, Failure> {
    if ex.Plain? then Ok(ex.mapping)
    else if ex.param !in p || !p[ex.param].Truthy() then Error(UnknownVariant)
    else
      var m := Lookup(ex.table, p[ex.param].text);
      if m.Some? then Ok(m.value) else Error(UnknownVariant)
  }

  /** The first entry of this name. */
  ghost predicate FirstNamed(table: seq<(string, Mapping)>, name: string, m: Mapping) {
    exists k :: 0 <= k < |table| && table[k] == (name, m) && forall j :: 0 <= j < k ==> table[j].0 != name
  }

  lemma {:induction false} LookupExact(table: seq<(string, Mapping)>, name: string)
    ensures match Lookup(table, name)
      case Some(m) => FirstNamed(table, name, m)
      case None => forall e :: e in table ==> e.0 != name
    decreases |table|
  {
    if table != [] && table[0].0 != name {
      LookupExact(table[1..], name);
      if Lookup(table[1..], name).Some? {
        var m := Lookup(table[1..], name).value;
        var k :| 0 <= k < |table| - 1 && table[1..][k] == (name, m)
          && forall j :: 0 <= j < k ==> table[1..][j].0 != name;
        assert table[k + 1] == (name, m);
        assert forall j :: 0 < j < k + 1 ==> table[j] == table[1..][j - 1];
      }
    }
  }

  /** The parameter selects a variant: it is given, not empty, and the name of one. */
  ghost predicate Chooses(ex: Execution, p: Parameters, m: Mapping) {
    match ex
    case Plain(mapping) => m == mapping
    case Variants(param, table) =>
      && param in p && p[param] != Null && p[param] != Str("") && p[param] != Other(p[param].text, false)
      && FirstNamed(table, p[param].text, m)
  }

  /** A call resolves to the mapping it selects; it is refused exactly when it selects none. */
  lemma ResolvedExact(ex: Execution, p: Parameters)
    ensures match ResolveExecution(ex, p)
      case Ok(m) => Chooses(ex, p, m)
      case Error(e) => e == UnknownVariant && forall m :: !Chooses(ex, p, m)
  {
    if ex.Variants? && ex.param in p && p[ex.param].Truthy() {
      LookupExact(ex.table, p[ex.param].text);
    }
  }

  function Argv(m: Mapping, b: Build): seq<Option<string>>
    requires b.Built?
  {
    [Some(m.command), Some(m.subcommand)] + b.positional + Tokens(b.bindings)
  }

  lemma EmitStep(args: seq<Template>, p: Parameters, i: nat)
    requires i < |args| && Emit(args[..i], p).Built?
    ensures Emit(args[..i + 1], p) == Stepped(Emit(args[..i], p), StepOf(args[i], p))
  {
    assert args[..i + 1][..i] == args[..i];
  }

  lemma {:induction false} TokensStep(bindings: seq<Binding>, b: Binding)
    ensures Tokens(bindings + [b]) == Tokens(bindings) + TokensOf(b)
  {
    assert (bindings + [b])[..|bindings|] == bindings;
  }

  method BuildCommand(ex: Execution, p: Parameters) returns (r: Result<seq<Option<string>>, Failure>)
    ensures var m := ResolveExecution(ex, p);
      if m.Error? then r == Error(m.error)
      else
        var b := Emit(m.value.args, p);
        r == if b.Lacks? then Error(MissingParameter(b.key)) else Ok(Argv(m.value, b))
  {
    var resolved := ResolveExecution(ex, p);
    if resolved.Error? {
      return Error(resolved.error);
    }
    var m := resolved.value;
    var missing, positional, flags := FillTemplates(m.args, p);
    if missing.Some? {
      return Error(MissingParameter(missing.value));
    }
    return Ok([Some(m.command), Some(m.subcommand)] + positional + flags);
  }

  /** The loop over the templates, up to the first missing parameter. */
  method FillTemplates(args: seq<Template>, p: Parameters)
    returns (missing: Option<string>, positional: seq<Option<string>>, flags: seq<Option<string>>)
    ensures match Emit(args, p)
      case Lacks(key) => missing == Some(key)
      case Built(places, bindings) => missing == None && positional == places && flags == Tokens(bindings)
  {
    missing, positional, flags := None, [], [];
    ghost var bindings: seq<Binding> := [];
    for i := 0 to |args|
      invariant missing == None
      invariant Emit(args[..i], p) == Built(positional, bindings)
      invariant flags == Tokens(bindings)
    {
      EmitStep(args, p, i);
      var step := ReadTemplate(args[i], p);
      match step {
        case Skip =>
        case Missing(key) =>
          EmitLacks(args, p, i, key);
          missing := Some(key);
          return;
        case Place(position, text) =>
          positional := SetAt(positional, position, text);
        case Bind(b) =>
          TokensStep(bindings, b);
          flags := flags + TokensOf(b);
          bindings := bindings + [b];
      }
    }
    assert args[..|args|] == args;
  }

  /** One template: what it puts where, or the parameter it lacks. */
  method ReadTemplate(t: Template, p: Parameters) returns (step: Step)
    ensures step == StepOf(t, p)
  {
    if t.position.None? && t.flagOnly {
      return Bind(Alone(t.flag));
    }
    var value := t.value;
    if t.HasSource() {
      var key := SourceKey(t.source.value);
      value := ParamText(p, key);
      if value.None? {
        return if t.optional then Skip else Missing(key);
      }
    }
    step := if t.position.Some? then Place(t.position.value, value) else Bind(Valued(t.flag, value));
  }

  /** The first missing parameter ends the loop. */
  lemma {:induction false} EmitLacks(args: seq<Template>, p: Parameters, i: nat, key: string)
    requires i < |args| && Emit(args[..i], p).Built? && StepOf(args[i], p) == Missing(key)
    ensures Emit(args, p) == Lacks(key)
    decreases |args|
  {
    var n := |args| - 1;
    if i < n {
      assert args[..n][..i] == args[..i];
      EmitLacks(args[..n], p, i, key);
    }
  }

  /** The loop completes when every source that is not optional has a text. */
  lemma {:induction false} EmitComplete(args: seq<Template>, p: Parameters)
    requires forall t :: t in args && t.HasSource() && !t.optional ==> ParamText(p, SourceKey(t.source.value)).Some?
    ensures Emit(args, p).Built?
    decreases |args|
  {
    if args != [] {
      assert args[|args| - 1] in args;
      EmitComplete(args[..|args| - 1], p);
    }
  }

  // ---- the concurrency guard ----

  datatype Session = Session(sessionId: string, agentId: string)

  /** `parameters.sessionId || parameters.id`, when that is a string. */
  function MySession(p: Parameters): Option<string> {
    var v := if "sessionId" in p && p["sessionId"].Truthy() then p["sessionId"]
             else if "id" in p then p["id"] else Null;
    if v.Str? then Some(v.text) else None
  }

  function Others(active: seq<Session>, mine: Option<string>): seq<Session> {
    Without(active, (s: Session) => mine == Some(s.sessionId))
  }

  // ---- deciding one call ----

  datatype Outcome =
    | Spawned(argv: seq<Option<string>>)
    | Conflict(others: seq<Session>)
    | ApprovalRequired(argv: seq<Option<string>>)
    | Threw(failure: Failure)

  predicate SelectedIsReadOnly(reg: Registry, a: Action, m: Mapping) {
    IsReadOnlyExecutable(reg, a) && DirectRead(reg, m)
  }

  function Decide(reg: Registry, a: Action, p: Parameters, active: seq<Session>, corrupt: seq<string>): Outcome
    requires a.execution.Some?
  {
    var resolved := ResolveExecution(a.execution.value, p);
    if resolved.Error? then Threw(resolved.error) else
      var m := resolved.value;
      var b := Emit(m.args, p);
      if b.Lacks? then Threw(MissingParameter(b.key))
      else if KeyOf(m) !in reg then Threw(UnmappedCommand(KeyOf(m)))
      else if SelectedIsReadOnly(reg, a, m) then Spawned(Argv(m, b))
      else if corrupt != [] then Threw(CorruptSessions(corrupt))
      else
        var others := Others(active, MySession(p));
        if others != [] then Conflict(others) else ApprovalRequired(Argv(m, b))
  }

  /** A spawned process: the mapping and the loop's result it came from, and its argument vector. */
  datatype Invocation = Invocation(mapping: Mapping, build: Build, argv: seq<Option<string>>)

  /** Every binding comes from a template that pushes a flag. */
  lemma {:induction false} BindingOrigin(args: seq<Template>, p: Parameters, b: Binding) returns (t: Template)
    requires Emit(args, p).Built? && b in Emit(args, p).bindings
    ensures t in args && t.position.None? && t.flag == b.flag && StepOf(t, p) == Bind(b)
    decreases |args|
  {
    var n := |args| - 1;
    var before := Emit(args[..n], p);
    assert args == args[..n] + [args[n]];
    if b in before.bindings {
      t := BindingOrigin(args[..n], p, b);
    } else {
      t := args[n];
    }
  }

  lemma {:induction false} BindingEmitted(args: seq<Template>, p: Parameters, t: Template, b: Binding)
    requires t in args && Emit(args, p).Built? && StepOf(t, p) == Bind(b)
    ensures b in Emit(args, p).bindings
    decreases |args|
  {
    var n := |args| - 1;
    assert args == args[..n] + [args[n]];
    if t in args[..n] {
      BindingEmitted(args[..n], p, t, b);
    }
  }

  // ---- selecting a variant ----

  /** The variant of this name, or the plain execution, is this mapping. */
  predicate Selects(ex: Execution, variant: Option<string>, m: Mapping) {
    if ex.Plain? then variant == None && m == ex.mapping
    else variant.Some? && Lookup(ex.table, variant.value) == Some(m)
  }

  function SelectedName(ex: Execution, p: Parameters): Option<string>
    requires ResolveExecution(ex, p).Ok?
  {
    if ex.Plain? then None else Some(p[ex.param].text)
  }

  lemma SelectedEntry(ex: Execution, variant: Option<string>, m: Mapping)
    requires Selects(ex, variant, m)
    ensures exists e :: e in ex.Entries() && e.1 == m
  {
    if ex.Plain? {
      assert ("", m) in ex.Entries();
    } else {
      LookupListed(ex.table, variant.value);
    }
  }

  lemma ResolvedSelects(ex: Execution, p: Parameters)
    requires ResolveExecution(ex, p).Ok?
    ensures Selects(ex, SelectedName(ex, p), ResolveExecution(ex, p).value)
  {
  }
}
