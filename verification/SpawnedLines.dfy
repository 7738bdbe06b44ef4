/** scripts/lib/mcp-action-runtime.js: the command line of a spawned process, and what templates make of it. */
module SpawnedLines {
  import opened Wrappers
  import opened Lists
  import opened ActionContracts
  import opened ActionRuntime
  import opened ArgumentSlots
  import opened CliSeam
  import opened ParsedFlags

  // ---- the vector and the line ----

  /** What a token without a text, such as a hole of the positional array, is passed to the process as. */
  const UNDEFINED := "undefined"

  function Passed(t: Option<string>): string {
    if t.Some? then t.value else UNDEFINED
  }

  function Texts(ts: seq<Option<string>>): seq<string> {
    seq(|ts|, i requires 0 <= i < |ts| => Passed(ts[i]))
  }

  lemma TextsAppend(a: seq<Option<string>>, b: seq<Option<string>>)
    ensures Texts(a + b) == Texts(a) + Texts(b)
  {
  }

  /** What spawnSync passes to the CLI: every token as a text, and the target behind them. */
  function SpawnedArgv(argv: seq<Option<string>>, target: string): seq<string> {
    Texts(argv) + ["--target", target]
  }

  /** The part of it that the argument parser sees. */
  function SpawnedLine(m: Mapping, b: Build, target: string): seq<string>
    requires b.Built?
  {
    SpawnedArgv(Argv(m, b), target)[1..]
  }

  lemma LineParts(m: Mapping, b: Build, target: string)
    requires b.Built?
    ensures SpawnedArgv(Argv(m, b), target)[0] == m.command
    ensures SpawnedLine(m, b, target)
         == ([m.subcommand] + Texts(b.positional)) + (Texts(ActionRuntime.Tokens(b.bindings)) + ["--target", target])
  {
    LineOfParts(m.command, m.subcommand, b.positional, ActionRuntime.Tokens(b.bindings), ["--target", target]);
  }

  lemma LineOfParts(command: string, sub: string, slots: seq<Option<string>>, tokens: seq<Option<string>>,
      tail: seq<string>)
    ensures var line := Texts([Some(command), Some(sub)] + slots + tokens) + tail;
      line[0] == command && line[1..] == ([sub] + Texts(slots)) + (Texts(tokens) + tail)
  {
    var head := [Some(command), Some(sub)];
    TextsAppend(head + slots, tokens);
    TextsAppend(head, slots);
    assert Texts(head) == [command, sub];
    var line := [command, sub] + Texts(slots) + Texts(tokens) + tail;
    assert line[1..] == ([sub] + Texts(slots)) + (Texts(tokens) + tail);
  }

  /** The process is started: the command is built and may run directly. */
  predicate Started(reg: Registry, a: Action, p: Parameters)
    requires a.execution.Some?
  {
    var m := ResolveExecution(a.execution.value, p);
    m.Ok? && SelectedIsReadOnly(reg, a, m.value) && Emit(m.value.args, p).Built?
  }

  /** One of these flags is read on the line. */
  ghost predicate ReadsStop(specs: FlagTable, line: seq<string>, stops: set<string>) {
    exists f :: f in stops && f in FlagsRead(line, specs)
  }

  /** Some text is no flag of the table. */
  lemma FreeText(specs: FlagTable) returns (text: string)
    ensures text !in specs
  {
    text := Longer(specs.Keys);
  }

  lemma {:induction false} Longer(keys: set<string>) returns (text: string)
    ensures text !in keys && forall k :: k in keys ==> |k| < |text|
    decreases |keys|
  {
    if keys == {} {
      text := "x";
    } else {
      var k :| k in keys;
      var t := Longer(keys - {k});
      text := t + k + "x";
    }
  }

  // ---- lines with the texts of the caller left open ----

  /** A token of the line: a text the author wrote, or whatever the caller sends under a key. */
  datatype Symbol = Lit(text: string) | Caller(key: string)

  function Known(text: Option<string>): Option<Symbol> {
    if text.Some? then Some(Lit(text.value)) else None
  }

  datatype Outline = Outline(slots: seq<Option<Symbol>>, tokens: seq<Option<Symbol>>) | Refused

  /** The text of a template; no result when its source is absent. */
  function SymbolOf(t: Template, selector: Option<string>, variant: Option<string>,
      absent: set<string>): Option<Option<Symbol>>
  {
    if !t.HasSource() then Some(Known(t.value))
    else if FromSelector(selector, t) then Some(Known(variant))
    else if SourceKey(t.source.value) in absent then None
    else Some(Some(Caller(SourceKey(t.source.value))))
  }

  /** One template, put behind what the templates before it made. */
  function Extend(before: Outline, t: Template, selector: Option<string>, variant: Option<string>,
      absent: set<string>): Outline
    requires before.Outline?
  {
    if t.position.None? && t.flagOnly then before.(tokens := before.tokens + [Known(t.flag)])
    else
      var text := SymbolOf(t, selector, variant, absent);
      if text.None? then if t.optional then before else Refused
      else if t.position.Some? then before.(slots := SetAt(before.slots, t.position.value, text.value))
      else before.(tokens := before.tokens + [Known(t.flag), text.value])
  }

  /** The loop over the templates for a caller who leaves out these keys. */
  function OutlineOf(args: seq<Template>, selector: Option<string>, variant: Option<string>,
      absent: set<string>): Outline
  {
    if args == [] then Outline([], []) else
      var before := OutlineOf(args[..|args| - 1], selector, variant, absent);
      if before.Refused? then Refused else Extend(before, args[|args| - 1], selector, variant, absent)
  }

  /** A token without a text is read as the author's `undefined`. */
  function Symbols(xs: seq<Option<Symbol>>): seq<Symbol> {
    seq(|xs|, i requires 0 <= i < |xs| => if xs[i].Some? then xs[i].value else Lit(UNDEFINED))
  }

  /** The symbols between the command and the target. */
  function SymbolLine(m: Mapping, o: Outline): seq<Symbol>
    requires o.Outline?
  {
    [Lit(m.subcommand)] + Symbols(o.slots) + Symbols(o.tokens)
  }

  // ---- filling the outline in gives the line ----

  function CallerText(p: Parameters, key: string): string {
    if ParamText(p, key).Some? then ParamText(p, key).value else ""
  }

  function TextOf(x: Symbol, p: Parameters): string {
    match x
    case Lit(text) => text
    case Caller(key) => CallerText(p, key)
  }

  function FilledOption(x: Option<Symbol>, p: Parameters): Option<string> {
    if x.Some? then Some(TextOf(x.value, p)) else None
  }

  function FillOptions(xs: seq<Option<Symbol>>, p: Parameters): seq<Option<string>> {
    seq(|xs|, i requires 0 <= i < |xs| => FilledOption(xs[i], p))
  }

  function FillLine(line: seq<Symbol>, p: Parameters): seq<string> {
    seq(|line|, i requires 0 <= i < |line| => TextOf(line[i], p))
  }

  /** The parameters select this variant and leave out exactly these keys of its templates. */
  predicate Follows(p: Parameters, args: seq<Template>, selector: Option<string>, variant: Option<string>,
      absent: set<string>)
  {
    forall t :: t in args && t.HasSource() ==>
      var text := ParamText(p, SourceKey(t.source.value));
      if FromSelector(selector, t) then text == variant && text.Some?
      else text.None? <==> SourceKey(t.source.value) in absent
  }

  lemma FillSetAt(xs: seq<Option<Symbol>>, i: nat, x: Option<Symbol>, p: Parameters)
    ensures FillOptions(SetAt(xs, i, x), p) == SetAt(FillOptions(xs, p), i, FilledOption(x, p))
  {
  }

  lemma FillAppend(xs: seq<Option<Symbol>>, ys: seq<Option<Symbol>>, p: Parameters)
    ensures FillOptions(xs + ys, p) == FillOptions(xs, p) + FillOptions(ys, p)
  {
  }

  /** The outline and the loop's result hold the same texts. */
  predicate Mirrors(o: Outline, b: Build, p: Parameters) {
    if o.Refused? then b.Lacks?
    else b.Built? && FillOptions(o.slots, p) == b.positional && FillOptions(o.tokens, p) == Tokens(b.bindings)
  }

  lemma SymbolFills(t: Template, p: Parameters, selector: Option<string>, variant: Option<string>, absent: set<string>)
    requires Follows(p, [t], selector, variant, absent)
    ensures var text, got := SymbolOf(t, selector, variant, absent),
        if t.HasSource() then ParamText(p, SourceKey(t.source.value)) else None;
      && (text.None? <==> t.HasSource() && got.None?)
      && (text.Some? ==> FilledOption(text.value, p) == if t.HasSource() then got else t.value)
  {
    assert t in [t];
  }

  lemma PairFills(flag: Option<string>, x: Option<Symbol>, p: Parameters)
    ensures FillOptions([Known(flag)], p) == [flag]
    ensures FillOptions([Known(flag), x], p) == [flag, FilledOption(x, p)]
  {
  }

  lemma BindFills(before: Outline, b: Build, bound: Binding, added: seq<Option<Symbol>>, p: Parameters)
    requires before.Outline? && b.Built? && Mirrors(before, b, p) && FillOptions(added, p) == TokensOf(bound)
    ensures Mirrors(before.(tokens := before.tokens + added), b.(bindings := b.bindings + [bound]), p)
  {
    FillAppend(before.tokens, added, p);
    TokensStep(b.bindings, bound);
  }

  lemma PlaceFills(before: Outline, b: Build, i: nat, x: Option<Symbol>, p: Parameters)
    requires before.Outline? && b.Built? && Mirrors(before, b, p)
    ensures Mirrors(before.(slots := SetAt(before.slots, i, x)),
                    b.(positional := SetAt(b.positional, i, FilledOption(x, p))), p)
  {
    FillSetAt(before.slots, i, x, p);
  }

  lemma ExtendFills(before: Outline, b: Build, t: Template, p: Parameters,
                    selector: Option<string>, variant: Option<string>, absent: set<string>)
    requires before.Outline? && b.Built? && Mirrors(before, b, p) && Follows(p, [t], selector, variant, absent)
    ensures Mirrors(Extend(before, t, selector, variant, absent), Stepped(b, StepOf(t, p)), p)
  {
    SymbolFills(t, p, selector, variant, absent);
    if t.position.None? && t.flagOnly {
      PairFills(t.flag, None, p);
      BindFills(before, b, Alone(t.flag), [Known(t.flag)], p);
    } else {
      var text := SymbolOf(t, selector, variant, absent);
      if text.Some? {
        var x := text.value;
        if t.position.Some? {
          PlaceFills(before, b, t.position.value, x, p);
        } else {
          PairFills(t.flag, x, p);
          BindFills(before, b, Valued(t.flag, FilledOption(x, p)), [Known(t.flag), x], p);
        }
      }
    }
  }

  /** The outline is what the loop does, with the caller's texts left open. */
  lemma {:induction false} OutlineFills(args: seq<Template>, p: Parameters,
                                        selector: Option<string>, variant: Option<string>, absent: set<string>)
    requires Follows(p, args, selector, variant, absent)
    ensures Mirrors(OutlineOf(args, selector, variant, absent), Emit(args, p), p)
    decreases |args|
  {
    if args != [] {
      var front, t := args[..|args| - 1], args[|args| - 1];
      assert args == front + [t];
      OutlineFills(front, p, selector, variant, absent);
      var before := OutlineOf(front, selector, variant, absent);
      if before.Outline? {
        assert forall u :: u in [t] ==> u in args;
        ExtendFills(before, Emit(front, p), t, p, selector, variant, absent);
      }
    }
  }

  lemma SymbolTexts(xs: seq<Option<Symbol>>, p: Parameters)
    ensures FillLine(Symbols(xs), p) == Texts(FillOptions(xs, p))
  {
  }

  /** The spawned line is the outline's, with the caller's texts put in. */
  lemma LineFills(m: Mapping, o: Outline, b: Build, p: Parameters, target: string)
    requires o.Outline? && b.Built? && Mirrors(o, b, p)
    ensures SpawnedLine(m, b, target) == FillLine(SymbolLine(m, o), p) + ["--target", target]
  {
    SymbolTexts(o.slots, p);
    SymbolTexts(o.tokens, p);
    LineParts(m, b, target);
    FillThree(Lit(m.subcommand), Symbols(o.slots), Symbols(o.tokens), p);
    Associative([m.subcommand] + Texts(b.positional), Texts(Tokens(b.bindings)), ["--target", target]);
  }

  lemma FillThree(x: Symbol, a: seq<Symbol>, b: seq<Symbol>, p: Parameters)
    ensures FillLine([x] + a + b, p) == [TextOf(x, p)] + FillLine(a, p) + FillLine(b, p)
  {
  }

  // ---- reading the outline ----

  predicate TargetRow(specs: FlagTable) {
    "--target" in specs && specs["--target"] == FlagSpec("target", false, None)
  }

  /** The flag takes the token behind it. */
  predicate TakesValue(specs: FlagTable, text: string) {
    text in specs && !specs[text].boolean
  }

  /** Where a flag may stand there is a stop, or a text of the caller; the target flag stands at the end. */
  predicate MeetsStop(line: seq<Symbol>, specs: FlagTable, stops: set<string>)
    decreases |line|
  {
    if line == [] then "--target" in stops
    else match line[0]
      case Caller(_) => true
      case Lit(text) =>
        if text in stops then true
        else if !TakesValue(specs, text) then MeetsStop(line[1..], specs, stops)
        else |line| > 1 && MeetsStop(line[2..], specs, stops)
  }

  lemma ReadsCons(specs: FlagTable, line: seq<string>, rest: seq<string>, f: string, stops: set<string>)
    requires FlagsRead(line, specs) == [f] + FlagsRead(rest, specs)
    ensures ReadsStop(specs, line, stops) <==> f in stops || ReadsStop(specs, rest, stops)
  {
    assert f in [f] + FlagsRead(rest, specs);
    assert forall g :: g in FlagsRead(line, specs) <==> g == f || g in FlagsRead(rest, specs);
  }

  lemma ReadTarget(specs: FlagTable, target: string, stops: set<string>)
    requires TargetRow(specs)
    ensures FlagsRead(["--target", target], specs) == ["--target"]
    ensures ReadsStop(specs, ["--target", target], stops) <==> "--target" in stops
  {
    var tail := ["--target", target];
    assert tail[2..] == [];
    assert "--target" in FlagsRead(tail, specs);
  }

  lemma FillRest(line: seq<Symbol>, p: Parameters, k: nat, tail: seq<string>)
    requires k <= |line|
    ensures (FillLine(line, p) + tail)[k..] == FillLine(line[k..], p) + tail
  {
  }

  /** One round of reading a text line. */
  lemma ReadStep(specs: FlagTable, line: seq<string>, stops: set<string>)
    requires line != []
    ensures line[0] !in specs ==> (ReadsStop(specs, line, stops) <==> ReadsStop(specs, line[1..], stops))
    ensures line[0] in specs && specs[line[0]].boolean ==>
      (ReadsStop(specs, line, stops) <==> line[0] in stops || ReadsStop(specs, line[1..], stops))
    ensures TakesValue(specs, line[0]) && |line| > 1 ==>
      (ReadsStop(specs, line, stops) <==> line[0] in stops || ReadsStop(specs, line[2..], stops))
  {
    if line[0] in specs && specs[line[0]].boolean {
      ReadsCons(specs, line, line[1..], line[0], stops);
    } else if TakesValue(specs, line[0]) && |line| > 1 {
      ReadsCons(specs, line, line[2..], line[0], stops);
    }
  }

  /** An outline that meets no stop is never read as one, whatever the caller sends. */
  lemma {:induction false} UnmetRead(line: seq<Symbol>, specs: FlagTable, stops: set<string>, p: Parameters,
      target: string)
    requires TargetRow(specs) && target !in specs && !MeetsStop(line, specs, stops)
    ensures !ReadsStop(specs, FillLine(line, p) + ["--target", target], stops)
    decreases |line|
  {
    var tail := ["--target", target];
    var texts := FillLine(line, p) + tail;
    if line == [] {
      assert texts == tail;
      ReadTarget(specs, target, stops);
    } else {
      var text := line[0].text;
      assert texts[0] == text;
      ReadStep(specs, texts, stops);
      FillRest(line, p, 1, tail);
      if !TakesValue(specs, text) {
        UnmetRead(line[1..], specs, stops, p, target);
      } else if |line| > 1 {
        FillRest(line, p, 2, tail);
        UnmetRead(line[2..], specs, stops, p, target);
      } else {
        assert texts[2..] == [target];
        assert [target][1..] == [];
        assert FlagsRead([target], specs) == [];
      }
    }
  }

  /** One that does is read as a stop when every text of the caller is one. */
  lemma {:induction false} MetRead(line: seq<Symbol>, specs: FlagTable, stops: set<string>, stop: string,
      p: Parameters, target: string)
    requires TargetRow(specs) && MeetsStop(line, specs, stops) && stop in stops && stops <= specs.Keys
    requires forall x :: x in line && x.Caller? ==> CallerText(p, x.key) == stop
    ensures ReadsStop(specs, FillLine(line, p) + ["--target", target], stops)
    decreases |line|
  {
    var tail := ["--target", target];
    var texts := FillLine(line, p) + tail;
    if line == [] {
      assert texts == tail;
      ReadTarget(specs, target, stops);
    } else {
      assert line[0] in line && texts[0] == TextOf(line[0], p);
      ReadStep(specs, texts, stops);
      FillRest(line, p, 1, tail);
      if line[0].Lit? && line[0].text !in stops {
        var k := if TakesValue(specs, line[0].text) then 2 else 1;
        FillRest(line, p, k, tail);
        assert forall x :: x in line[k..] ==> x in line;
        MetRead(line[k..], specs, stops, stop, p, target);
      }
    }
  }

  // ---- every caller ----

  /** For no choice of omitted keys does the variant let a stop, or a text of the caller, stand as a flag. */
  ghost predicate Unreachable(specs: FlagTable, stops: set<string>, ex: Execution, variant: Option<string>,
      m: Mapping)
  {
    stops == {} || forall absent ::
      var o := OutlineOf(m.args, Selector(ex), variant, absent);
      o.Outline? ==> !MeetsStop(SymbolLine(m, o), specs, stops)
  }

  /** The keys that a call leaves out. */
  function AbsentKeys(m: Mapping, p: Parameters): set<string> {
    set t | t in m.args && t.HasSource() && ParamText(p, SourceKey(t.source.value)).None? :: SourceKey(t.source.value)
  }

  lemma CallFollows(ex: Execution, m: Mapping, p: Parameters)
    requires ResolveExecution(ex, p) == Ok(m)
    ensures Follows(p, m.args, Selector(ex), SelectedName(ex, p), AbsentKeys(m, p))
  {
  }

  /** A caller who selects the variant, leaves out these keys and sends these texts. */
  function Calling(ex: Execution, variant: Option<string>, m: Mapping, absent: set<string>,
      text: string -> string): Parameters
  {
    var keys := set t | t in m.args && t.HasSource() :: SourceKey(t.source.value);
    var sources := map k | k in keys && k !in absent :: Str(text(k));
    if ex.Variants? && variant.Some? then sources[ex.param := Other(variant.value, true)] else sources
  }

  lemma CallingFollows(ex: Execution, variant: Option<string>, m: Mapping, absent: set<string>, text: string -> string)
    requires Selects(ex, variant, m)
    ensures var p := Calling(ex, variant, m, absent, text);
      && ResolveExecution(ex, p) == Ok(m) && SelectedName(ex, p) == variant
      && Follows(p, m.args, Selector(ex), variant, absent)
      && forall k :: k in p && Selector(ex) != Some(k) ==> CallerText(p, k) == text(k)
  {
    var p := Calling(ex, variant, m, absent, text);
    forall t | t in m.args && t.HasSource()
      ensures var got := ParamText(p, SourceKey(t.source.value));
        if FromSelector(Selector(ex), t) then got == variant && got.Some?
        else got.None? <==> SourceKey(t.source.value) in absent
    {
      var k := SourceKey(t.source.value);
      assert k in set u | u in m.args && u.HasSource() :: SourceKey(u.source.value);
    }
  }

  lemma SetAtHolds(xs: seq<Option<Symbol>>, i: nat, v: Option<Symbol>, x: Symbol)
    requires Some(x) in SetAt(xs, i, v)
    ensures Some(x) in xs || Some(x) == v
  {
    var r := SetAt(xs, i, v);
    var j :| 0 <= j < |r| && r[j] == Some(x);
    if j < |xs| && j != i {
      assert xs[j] == Some(x);
    }
  }

  /** A symbol of the caller that one template adds is its source's key, which is sent and not the selector. */
  lemma ExtendCallers(before: Outline, t: Template, selector: Option<string>, variant: Option<string>,
      absent: set<string>, x: Symbol)
    requires before.Outline? && x.Caller?
    requires var o := Extend(before, t, selector, variant, absent);
      o.Outline? && (Some(x) in o.slots || Some(x) in o.tokens)
    ensures Some(x) in before.slots || Some(x) in before.tokens
      || (t.HasSource() && x.key == SourceKey(t.source.value) && x.key !in absent && selector != Some(x.key))
  {
    var text := SymbolOf(t, selector, variant, absent);
    if t.position.Some? && text.Some? {
      if Some(x) in SetAt(before.slots, t.position.value, text.value) {
        SetAtHolds(before.slots, t.position.value, text.value, x);
      }
    }
  }

  /** The caller's symbols of an outline are keys that are sent, and never the selector. */
  lemma {:induction false} CallersSent(args: seq<Template>, selector: Option<string>, variant: Option<string>,
                                       absent: set<string>, x: Symbol)
    requires var o := OutlineOf(args, selector, variant, absent);
      o.Outline? && (Some(x) in o.slots || Some(x) in o.tokens) && x.Caller?
    ensures x.key !in absent && selector != Some(x.key)
    ensures exists t :: t in args && t.HasSource() && SourceKey(t.source.value) == x.key
    decreases |args|
  {
    if args != [] {
      var front, t := args[..|args| - 1], args[|args| - 1];
      assert args == front + [t];
      var before := OutlineOf(front, selector, variant, absent);
      ExtendCallers(before, t, selector, variant, absent, x);
      if Some(x) in before.slots || Some(x) in before.tokens {
        CallersSent(front, selector, variant, absent, x);
      } else {
        assert t in args;
      }
    }
  }

  lemma CallerSays(ex: Execution, variant: Option<string>, m: Mapping, absent: set<string>, text: string -> string,
      x: Symbol)
    requires Selects(ex, variant, m)
    requires var o := OutlineOf(m.args, Selector(ex), variant, absent); o.Outline? && x in SymbolLine(m, o)
    ensures x.Caller? ==> CallerText(Calling(ex, variant, m, absent, text), x.key) == text(x.key)
  {
    if x.Caller? {
      var o := OutlineOf(m.args, Selector(ex), variant, absent);
      CallingFollows(ex, variant, m, absent, text);
      assert Some(x) in o.slots || Some(x) in o.tokens by { SymbolOrigin(m, o, x); }
      CallersSent(m.args, Selector(ex), variant, absent, x);
      var keys := set t | t in m.args && t.HasSource() :: SourceKey(t.source.value);
      assert x.key in keys;
    }
  }

  lemma SymbolOrigin(m: Mapping, o: Outline, x: Symbol)
    requires o.Outline? && x in SymbolLine(m, o) && x.Caller?
    ensures Some(x) in o.slots || Some(x) in o.tokens
  {
    var a, b := Symbols(o.slots), Symbols(o.tokens);
    var line := [Lit(m.subcommand)] + a + b;
    var i :| 0 <= i < |line| && line[i] == x;
    if i <= |a| {
      assert line[i] == a[i - 1] && o.slots[i - 1] == Some(x);
    } else {
      assert line[i] == b[i - 1 - |a|] && o.tokens[i - 1 - |a|] == Some(x);
    }
  }

  /** The line of a call, from its outline. */
  lemma CallLine(ex: Execution, m: Mapping, p: Parameters, variant: Option<string>, absent: set<string>, target: string)
    requires Follows(p, m.args, Selector(ex), variant, absent)
    ensures var o, b := OutlineOf(m.args, Selector(ex), variant, absent), Emit(m.args, p);
      && (b.Built? <==> o.Outline?)
      && (o.Outline? ==> SpawnedLine(m, b, target) == FillLine(SymbolLine(m, o), p) + ["--target", target])
  {
    OutlineFills(m.args, p, Selector(ex), variant, absent);
    var o, b := OutlineOf(m.args, Selector(ex), variant, absent), Emit(m.args, p);
    if o.Outline? {
      LineFills(m, o, b, p, target);
    }
  }

  lemma UnreachableCall(specs: FlagTable, stops: set<string>, ex: Execution, m: Mapping, p: Parameters, target: string)
    requires TargetRow(specs) && target !in specs && ResolveExecution(ex, p) == Ok(m) && Emit(m.args, p).Built?
    requires Unreachable(specs, stops, ex, SelectedName(ex, p), m)
    ensures !ReadsStop(specs, SpawnedLine(m, Emit(m.args, p), target), stops)
  {
    if stops != {} {
      var absent := AbsentKeys(m, p);
      CallFollows(ex, m, p);
      CallLine(ex, m, p, SelectedName(ex, p), absent, target);
      var o := OutlineOf(m.args, Selector(ex), SelectedName(ex, p), absent);
      UnmetRead(SymbolLine(m, o), specs, stops, p, target);
    }
  }

  lemma ReachableCall(specs: FlagTable, stops: set<string>, ex: Execution, variant: Option<string>, m: Mapping,
      target: string)
    returns (p: Parameters)
    requires TargetRow(specs) && stops <= specs.Keys && Selects(ex, variant, m)
    requires !Unreachable(specs, stops, ex, variant, m)
    ensures ResolveExecution(ex, p) == Ok(m) && SelectedName(ex, p) == variant && Emit(m.args, p).Built?
    ensures ReadsStop(specs, SpawnedLine(m, Emit(m.args, p), target), stops)
  {
    var stop :| stop in stops;
    var absent :| var o := OutlineOf(m.args, Selector(ex), variant, absent);
      o.Outline? && MeetsStop(SymbolLine(m, o), specs, stops);
    var text := (k: string) => stop;
    p := Calling(ex, variant, m, absent, text);
    CallingFollows(ex, variant, m, absent, text);
    CallLine(ex, m, p, variant, absent, target);
    var line := SymbolLine(m, OutlineOf(m.args, Selector(ex), variant, absent));
    forall x | x in line && x.Caller? ensures CallerText(p, x.key) == stop {
      CallerSays(ex, variant, m, absent, text, x);
    }
    MetRead(line, specs, stops, stop, p, target);
  }

  /**
   * Whatever the parameters and the target, the CLI reads no stop on the line of this variant, exactly when
   * the templates let neither a stop nor a text of the caller stand as a flag.
   */
  lemma UnreachableExact(specs: FlagTable, stops: set<string>, ex: Execution, variant: Option<string>, m: Mapping)
    requires TargetRow(specs) && stops <= specs.Keys && Selects(ex, variant, m)
    ensures Unreachable(specs, stops, ex, variant, m) <==> forall p, target ::
      ResolveExecution(ex, p) == Ok(m) && SelectedName(ex, p) == variant && Emit(m.args, p).Built? && target !in specs
      ==> !ReadsStop(specs, SpawnedLine(m, Emit(m.args, p), target), stops)
  {
    if Unreachable(specs, stops, ex, variant, m) {
      forall p, target | ResolveExecution(ex, p) == Ok(m) && SelectedName(ex, p) == variant && Emit(m.args, p).Built?
        && target !in specs
        ensures !ReadsStop(specs, SpawnedLine(m, Emit(m.args, p), target), stops)
      {
        UnreachableCall(specs, stops, ex, m, p, target);
      }
    } else {
      var target := FreeText(specs);
      var p := ReachableCall(specs, stops, ex, variant, m, target);
    }
  }

  // ---- whose target the command works on ----

  /** After these symbols the next token is taken as a value; `valued` are the keys that hold a flag with a value. */
  predicate Swallows(line: seq<Symbol>, specs: FlagTable, valued: set<string>)
    decreases |line|
  {
    if line == [] then false
    else
      var takes := match line[0]
        case Caller(key) => key in valued
        case Lit(text) => TakesValue(specs, text);
      if !takes then Swallows(line[1..], specs, valued)
      else |line| == 1 || Swallows(line[2..], specs, valued)
  }

  predicate SwallowsNext(line: seq<string>, specs: FlagTable)
    decreases |line|
  {
    if line == [] then false
    else if !TakesValue(specs, line[0]) then SwallowsNext(line[1..], specs)
    else |line| == 1 || SwallowsNext(line[2..], specs)
  }

  /** The keys of these symbols under which the caller sends a flag that takes a value. */
  predicate ValuedKeys(line: seq<Symbol>, specs: FlagTable, p: Parameters, valued: set<string>) {
    forall x :: x in line && x.Caller? ==> (x.key in valued <==> TakesValue(specs, CallerText(p, x.key)))
  }

  lemma FillSuffix(line: seq<Symbol>, p: Parameters, k: nat)
    requires k <= |line|
    ensures FillLine(line, p)[k..] == FillLine(line[k..], p)
  {
  }

  lemma {:induction false} SwallowsFills(line: seq<Symbol>, specs: FlagTable, p: Parameters, valued: set<string>)
    requires ValuedKeys(line, specs, p, valued)
    ensures Swallows(line, specs, valued) <==> SwallowsNext(FillLine(line, p), specs)
    decreases |line|
  {
    if line != [] {
      var texts := FillLine(line, p);
      assert line[0] in line && texts[0] == TextOf(line[0], p);
      FillSuffix(line, p, 1);
      var takes := TakesValue(specs, texts[0]);
      if !takes {
        assert forall x :: x in line[1..] ==> x in line;
        SwallowsFills(line[1..], specs, p, valued);
      } else if |line| > 1 {
        FillSuffix(line, p, 2);
        assert forall x :: x in line[2..] ==> x in line;
        SwallowsFills(line[2..], specs, p, valued);
      }
    }
  }

  predicate Holds(args: Args, key: string, text: string) {
    key in args.keys && args.keys[key] == CliSeam.Text(text)
  }

  /** A key holds the target at the end of a line that leaves the target flag to be read. */
  lemma {:induction false} TargetRead(line: seq<string>, specs: FlagTable, args: Args, target: string)
    requires TargetRow(specs) && target !in specs && !SwallowsNext(line, specs)
    ensures Holds(ParseArgs(line + ["--target", target], specs, args), "target", target)
    decreases |line|
  {
    var tail := ["--target", target];
    var whole := line + tail;
    if line == [] {
      assert whole == tail && tail[2..] == [];
    } else if line[0] !in specs {
      assert whole[1..] == line[1..] + tail;
      TargetRead(line[1..], specs, args.(positional := args.positional + [line[0]]), target);
    } else if specs[line[0]].boolean {
      assert whole[1..] == line[1..] + tail;
      TargetRead(line[1..], specs, args.(keys := args.keys[specs[line[0]].key := Flag(true)]), target);
    } else {
      assert whole[2..] == line[2..] + tail;
      TargetRead(line[2..], specs, SetValue(args, specs[line[0]], Some(line[1])), target);
    }
  }

  lemma SetOther(args: Args, spec: FlagSpec, value: string, text: string)
    requires value != text && !Holds(args, "target", text)
    ensures !Holds(SetValue(args, spec, Some(value)), "target", text)
  {
  }

  /** Otherwise the target is a positional, and no key holds it that no other token gave. */
  lemma {:induction false} TargetLost(line: seq<string>, specs: FlagTable, args: Args, target: string)
    requires TargetRow(specs) && target !in specs && SwallowsNext(line, specs)
    requires target !in line && !Holds(args, "target", target)
    ensures !Holds(ParseArgs(line + ["--target", target], specs, args), "target", target)
    decreases |line|
  {
    var tail := ["--target", target];
    var whole := line + tail;
    assert line[0] in line && forall k: nat, t :: k <= |line| && t in line[k..] ==> t in line;
    if line[0] !in specs {
      assert whole[1..] == line[1..] + tail;
      TargetLost(line[1..], specs, args.(positional := args.positional + [line[0]]), target);
    } else if specs[line[0]].boolean {
      assert whole[1..] == line[1..] + tail;
      TargetLost(line[1..], specs, args.(keys := args.keys[specs[line[0]].key := Flag(true)]), target);
    } else if |line| == 1 {
      assert whole[1] == "--target" && whole[2..] == [target] && [target][1..] == [];
      SetOther(args, specs[line[0]], "--target", target);
      var after := SetValue(args, specs[line[0]], Some("--target"));
      assert ParseArgs(whole, specs, args) == ParseArgs([target], specs, after);
      assert ParseArgs([target], specs, after) == after.(positional := after.positional + [target]);
    } else {
      assert whole[2..] == line[2..] + tail && line[1] in line;
      SetOther(args, specs[line[0]], line[1], target);
      TargetLost(line[2..], specs, SetValue(args, specs[line[0]], Some(line[1])), target);
    }
  }

  /** For no choice of omitted keys, and of keys that hold a flag with a value, is the target flag swallowed. */
  ghost predicate KeepsTarget(specs: FlagTable, ex: Execution, variant: Option<string>, m: Mapping) {
    forall absent, valued ::
      var o := OutlineOf(m.args, Selector(ex), variant, absent);
      o.Outline? ==> !Swallows(SymbolLine(m, o), specs, valued)
  }

  /** The CLI works on the target that the server appends. */
  ghost predicate TargetKept(specs: FlagTable, m: Mapping, p: Parameters, target: string, cwd: string) {
    Emit(m.args, p).Built? && target !in specs ==>
      Holds(ParseArgs(SpawnedLine(m, Emit(m.args, p), target), specs, Defaults(cwd)), "target", target)
  }

  lemma KeptCall(specs: FlagTable, ex: Execution, m: Mapping, p: Parameters, target: string, cwd: string)
    requires TargetRow(specs) && ResolveExecution(ex, p) == Ok(m) && KeepsTarget(specs, ex, SelectedName(ex, p), m)
    ensures TargetKept(specs, m, p, target, cwd)
  {
    if Emit(m.args, p).Built? && target !in specs {
      var absent := AbsentKeys(m, p);
      CallFollows(ex, m, p);
      CallLine(ex, m, p, SelectedName(ex, p), absent, target);
      var line := SymbolLine(m, OutlineOf(m.args, Selector(ex), SelectedName(ex, p), absent));
      var valued := set x | x in line && x.Caller? && TakesValue(specs, CallerText(p, x.key)) :: x.key;
      SwallowsFills(line, specs, p, valued);
      TargetRead(FillLine(line, p), specs, Defaults(cwd), target);
    }
  }

  lemma LostCall(specs: FlagTable, ex: Execution, variant: Option<string>, m: Mapping)
    returns (p: Parameters, target: string, cwd: string)
    requires TargetRow(specs) && Selects(ex, variant, m) && !KeepsTarget(specs, ex, variant, m)
    ensures ResolveExecution(ex, p) == Ok(m) && SelectedName(ex, p) == variant && Emit(m.args, p).Built?
    ensures target !in specs && !TargetKept(specs, m, p, target, cwd)
  {
    var absent, valued :| var o := OutlineOf(m.args, Selector(ex), variant, absent);
      o.Outline? && Swallows(SymbolLine(m, o), specs, valued);
    var plain := FreeText(specs);
    var text := (k: string) => if k in valued then "--target" else plain;
    p := Calling(ex, variant, m, absent, text);
    var line := SymbolLine(m, OutlineOf(m.args, Selector(ex), variant, absent));
    CallingFollows(ex, variant, m, absent, text);
    forall x | x in line && x.Caller? ensures x.key in valued <==> TakesValue(specs, CallerText(p, x.key)) {
      CallerSays(ex, variant, m, absent, text, x);
    }
    SwallowsFills(line, specs, p, valued);
    var texts := FillLine(line, p);
    target := Longer(specs.Keys + set t | t in texts);
    cwd := target + "/";
    CallLine(ex, m, p, variant, absent, target);
    TargetLost(texts, specs, Defaults(cwd), target);
  }

  /** Every call keeps the target exactly when the templates never let the target flag be swallowed. */
  lemma TargetExact(specs: FlagTable, ex: Execution, variant: Option<string>, m: Mapping)
    requires TargetRow(specs) && Selects(ex, variant, m)
    ensures KeepsTarget(specs, ex, variant, m) <==> forall p, target, cwd ::
      ResolveExecution(ex, p) == Ok(m) && SelectedName(ex, p) == variant ==> TargetKept(specs, m, p, target, cwd)
  {
    if KeepsTarget(specs, ex, variant, m) {
      forall p, target, cwd | ResolveExecution(ex, p) == Ok(m) && SelectedName(ex, p) == variant
        ensures TargetKept(specs, m, p, target, cwd)
      {
        KeptCall(specs, ex, m, p, target, cwd);
      }
    } else {
      var p, target, cwd := LostCall(specs, ex, variant, m);
    }
  }
}
