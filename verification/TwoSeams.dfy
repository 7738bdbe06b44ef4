/** The server and the CLI decide independently; for what the server spawns they agree. */
module TwoSeams {
  import opened Wrappers
  import opened Lists
  import opened Text
  import opened ActionContracts
  import opened ActionRuntime
  import opened ActionServer
  import opened ArgumentSlots
  import opened CliSeam
  import opened ParsedFlags
  import opened SpawnedLines

  // ---- flag spellings and argument keys ----

  /** Undoes the conversion: an upper-case letter was a hyphen and its lower-case letter. */
  function Kebab(s: string): string {
    if s == "" then ""
    else (if IsUpper(s[0]) then ['-', ToLower(s[0])] else [s[0]]) + Kebab(s[1..])
  }

  predicate NoUpper(s: string) {
    forall i :: 0 <= i < |s| ==> !IsUpper(s[i])
  }

  lemma {:induction false} KebabInvertsCamel(s: string)
    requires NoUpper(s)
    ensures Kebab(Camel(s)) == s
    decreases |s|
  {
    if s != "" {
      if s[0] == '-' && |s| > 1 && IsLower(s[1]) {
        KebabInvertsCamel(s[2..]);
        assert s == ['-', s[1]] + s[2..];
        assert ([ToUpper(s[1])] + Camel(s[2..]))[1..] == Camel(s[2..]);
      } else {
        KebabInvertsCamel(s[1..]);
        assert s == [s[0]] + s[1..];
        assert ([s[0]] + Camel(s[1..]))[1..] == Camel(s[1..]);
      }
    }
  }

  predicate LowerFlag(flag: string) {
    StartsWith(flag, "--") && NoUpper(flag)
  }

  /** Two flags without upper-case letters never share an argument key. */
  lemma FlagKeysInjective(f: string, g: string)
    requires LowerFlag(f) && LowerFlag(g)
    ensures KeyOfFlag(f) == KeyOfFlag(g) <==> f == g
  {
    KebabInvertsCamel(f[2..]);
    KebabInvertsCamel(g[2..]);
    assert f == "--" + f[2..] && g == "--" + g[2..];
  }

  /**
   * The write flag is a row of the flag table spelled by the convention; every other row follows it too or uses
   * another key, and nothing accumulates into its key.
   */
  ghost predicate ConventionalFlag(specs: FlagTable, w: string) {
    && LowerFlag(w) && w in specs && specs[w].key == KeyOfFlag(w) && KeyOfFlag(w) != "target"
    && forall f :: f in specs ==>
       && ((LowerFlag(f) && specs[f].key == KeyOfFlag(f)) || specs[f].key != KeyOfFlag(w))
       && specs[f].accumulate != Some(KeyOfFlag(w))
  }

  ghost predicate ConventionalTable(specs: FlagTable, reg: Registry) {
    forall k, w :: k in reg && w in reg[k].writeFlags ==> ConventionalFlag(specs, w)
  }

  // ---- the spawned command line ----

  /** The binding is written the way the flag table reads it. */
  predicate Fits(specs: FlagTable, b: Binding) {
    && b.flag.Some? && b.flag.value in specs
    && specs[b.flag.value].boolean == b.Alone?
  }

  predicate AllFit(specs: FlagTable, bs: seq<Binding>) {
    forall b :: b in bs ==> Fits(specs, b)
  }

  function FlagsOf(specs: FlagTable, bs: seq<Binding>): seq<string>
    requires AllFit(specs, bs)
  {
    seq(|bs|, i requires 0 <= i < |bs| => assert bs[i] in bs; bs[i].flag.value)
  }

  lemma {:induction false} TokensCons(bs: seq<Binding>)
    requires bs != []
    ensures ActionRuntime.Tokens(bs) == TokensOf(bs[0]) + ActionRuntime.Tokens(bs[1..])
    decreases |bs|
  {
    var n := |bs| - 1;
    if n == 0 {
      assert bs[..0] == [] && bs[1..] == [];
    } else {
      var tail := bs[1..];
      TokensCons(bs[..n]);
      assert bs[..n][1..] == tail[..n - 1];
      Associative(TokensOf(bs[0]), ActionRuntime.Tokens(tail[..n - 1]), TokensOf(bs[n]));
    }
  }

  lemma FlagsCons(specs: FlagTable, bs: seq<Binding>)
    requires AllFit(specs, bs) && bs != []
    ensures Fits(specs, bs[0]) && AllFit(specs, bs[1..])
    ensures FlagsOf(specs, bs) == [bs[0].flag.value] + FlagsOf(specs, bs[1..])
  {
    assert bs[0] in bs;
  }

  /** Bindings that fit the table are read as their flags. */
  lemma {:induction false} ReadFitting(bs: seq<Binding>, rest: seq<string>, specs: FlagTable)
    requires AllFit(specs, bs)
    ensures FlagsRead(Texts(ActionRuntime.Tokens(bs)) + rest, specs) == FlagsOf(specs, bs) + FlagsRead(rest, specs)
    ensures PositionalsRead(Texts(ActionRuntime.Tokens(bs)) + rest, specs) == PositionalsRead(rest, specs)
    decreases |bs|
  {
    if bs == [] {
      assert Texts(ActionRuntime.Tokens(bs)) + rest == rest;
    } else {
      var b, tail := bs[0], bs[1..];
      assert b in bs;
      TokensCons(bs);
      FlagsCons(specs, bs);
      ReadFitting(tail, rest, specs);
      var others := ActionRuntime.Tokens(tail);
      TextsAppend(TokensOf(b), others);
      ReadOneBinding(b, Texts(others) + rest, specs);
      Associative(Texts(TokensOf(b)), Texts(others), rest);
      Associative([b.flag.value], FlagsOf(specs, tail), FlagsRead(rest, specs));
    }
  }

  lemma ReadOneBinding(b: Binding, rest: seq<string>, specs: FlagTable)
    requires Fits(specs, b)
    ensures FlagsRead(Texts(TokensOf(b)) + rest, specs) == [b.flag.value] + FlagsRead(rest, specs)
    ensures PositionalsRead(Texts(TokensOf(b)) + rest, specs) == PositionalsRead(rest, specs)
  {
    var line := Texts(TokensOf(b)) + rest;
    if b.Alone? {
      assert line[1..] == rest;
    } else {
      assert line[2..] == rest;
    }
  }

  /** Behind fitting bindings, the first one that pushes a stop is read. */
  lemma {:induction false} ReadStop(bs: seq<Binding>, rest: seq<string>, specs: FlagTable, stops: set<string>)
    returns (f: string)
    requires forall b :: b in bs ==> Fits(specs, b) || (b.flag.Some? && b.flag.value in stops)
    requires exists b :: b in bs && b.flag.Some? && b.flag.value in stops
    requires stops <= specs.Keys && rest != []
    ensures f in stops && f in FlagsRead(Texts(ActionRuntime.Tokens(bs)) + rest, specs)
    decreases |bs|
  {
    var b, tail := bs[0], bs[1..];
    var first, others := TokensOf(b), ActionRuntime.Tokens(tail);
    assert b in bs && bs == [b] + tail;
    TokensCons(bs);
    TextsAppend(first, others);
    Associative(Texts(first), Texts(others), rest);
    if b.flag.Some? && b.flag.value in stops {
      f := b.flag.value;
      ReadLeading(first, Texts(others) + rest, f, specs);
    } else {
      f := ReadStop(tail, rest, specs, stops);
      ReadOneBinding(b, Texts(others) + rest, specs);
    }
  }

  lemma ReadLeading(first: seq<Option<string>>, rest: seq<string>, f: string, specs: FlagTable)
    requires first != [] && first[0] == Some(f) && f in specs && rest != []
    ensures f in FlagsRead(Texts(first) + rest, specs)
  {
    var more := Texts(first)[1..] + rest;
    ReadFirst([], f, more, specs);
    assert [] + [f] + more == Texts(first) + rest;
  }

  // ---- what the tables and the templates promise ----

  predicate NameParts(specs: FlagTable, key: string, command: string, sub: string) {
    '/' !in command && '/' !in sub && sub != "" && sub !in specs && key == CapabilityKey(command, sub)
  }

  /** Only a flag without a value asks for help. */
  ghost predicate HelpIsBoolean(specs: FlagTable) {
    forall f :: f in specs && Sets(specs[f], "help") ==> specs[f].boolean && specs[f].key == "help"
  }

  /** What the server's whitelist and the CLI's tables promise one another. */
  ghost predicate TablesAgree(cli: Cli, specs: FlagTable) {
    && ConventionalTable(specs, cli.reg)
    && TargetRow(specs)
    && "--help" in specs
    && HelpIsBoolean(specs)
    && (forall k :: k in cli.reg ==> exists command, sub :: NameParts(specs, k, command, sub))
    && (exists definitions ::
          && ValidateCommandRegistry(definitions, cli.reg) == Valid
          && cli.typed == set c | c in definitions && definitions[c])
    && cli.typed <= cli.commands && cli.typed !! SHORTCUTS
    && (forall sub, rest: seq<string> :: CapabilityKey("context", sub) in cli.reg ==>
          var c := ResolveContext(sub, [sub] + rest);
          && c.Some? && c.value.effect == cli.reg[CapabilityKey("context", sub)].effect
          && cli.reg[CapabilityKey("context", sub)].writeFlags == [])
  }

  /** The flags that keep a spawned read from its handler: its write flags, and those that ask for help. */
  function HelpFlags(specs: FlagTable): set<string> {
    set f | f in specs && Sets(specs[f], "help")
  }

  function Stops(specs: FlagTable, cap: Capability, help: bool): set<string> {
    WriteFlags(specs, cap) + if help then HelpFlags(specs) else {}
  }

  /** The template's flag, unless a stop, is written as the table reads it. */
  predicate FittingTemplate(specs: FlagTable, stops: set<string>, t: Template) {
    t.position.None? ==>
      t.flag.Some? && (t.flag.value !in stops ==> t.flag.value in specs && specs[t.flag.value].boolean == t.flagOnly)
  }

  /** A text the author puts in a slot is no flag of the table, unless a stop. */
  predicate FittingSlot(specs: FlagTable, stops: set<string>, selector: Option<string>, variant: Option<string>,
      t: Template)
  {
    if !t.HasSource() then Passed(t.value) in specs ==> Passed(t.value) in stops
    else FromSelector(selector, t) && variant.Some? && variant.value in specs ==> variant.value in stops
  }

  /** Nothing is placed but a text in the first slot. */
  predicate NoGaps(args: seq<Template>) {
    forall t :: t in args && t.position.Some? ==> t.position == Some(0) && (t.value.Some? || t.HasSource())
  }

  /** Templates written for the flag table: nothing here speaks of the parameters of a call. */
  ghost predicate Fitting(specs: FlagTable, stops: set<string>, selector: Option<string>, variant: Option<string>,
      args: seq<Template>)
  {
    && (UNDEFINED in specs ==> NoGaps(args))
    && (forall t :: t in args ==> FittingTemplate(specs, stops, t))
    && (forall i: nat ::
      SlotTemplate(args, i).Some? ==> FittingSlot(specs, stops, selector, variant, SlotTemplate(args, i).value))
  }

  lemma MappedKeyIndexed(actions: seq<Action>, a: Action, e: (string, Mapping))
    requires forall x :: x in actions ==> x.execution.Some?
    requires a in actions && e in a.execution.value.Entries()
    ensures KeyOf(e.1) in Index(actions)
  {
    IndexKeys(actions);
  }

  // ---- tame templates: nothing a caller sends is read as a flag ----

  /** The first slot, if any, holds a text. */
  predicate OneText(slots: seq<Option<string>>) {
    slots == [] || (|slots| == 1 && slots[0].Some?)
  }

  lemma StepKeepsOneText(b: Build, t: Template, p: Parameters)
    requires b.Built? && OneText(b.positional) && NoGaps([t])
    ensures var r := Stepped(b, StepOf(t, p)); r.Built? ==> OneText(r.positional)
  {
    assert t in [t];
  }

  lemma {:induction false} NoHoles(args: seq<Template>, p: Parameters)
    requires NoGaps(args) && Emit(args, p).Built?
    ensures OneText(Emit(args, p).positional)
    decreases |args|
  {
    if args != [] {
      var front, t := args[..|args| - 1], args[|args| - 1];
      assert args == front + [t];
      NoHoles(front, p);
      StepKeepsOneText(Emit(front, p), t, p);
    }
  }

  /** What stands in a slot without a text is no flag. */
  lemma HolePlain(specs: FlagTable, stops: set<string>, selector: Option<string>, variant: Option<string>,
      args: seq<Template>, p: Parameters)
    requires Fitting(specs, stops, selector, variant, args) && Emit(args, p).Built?
    ensures forall x :: x in Emit(args, p).positional && x.None? ==> UNDEFINED !in specs
  {
    if UNDEFINED in specs {
      NoHoles(args, p);
    }
  }

  lemma TameSlotPlain(specs: FlagTable, stops: set<string>, ex: Execution, m: Mapping, p: Parameters, i: nat)
    requires ResolveExecution(ex, p) == Ok(m) && Emit(m.args, p).Built? && stops != {}
    requires Tame(stops, Selector(ex), SelectedName(ex, p), m.args)
    requires Fitting(specs, stops, Selector(ex), SelectedName(ex, p), m.args)
    requires i < |Emit(m.args, p).positional| && Emit(m.args, p).positional[i].Some?
    ensures Emit(m.args, p).positional[i].value !in specs
  {
    SlotsExact(m.args, p, i);
    PlacedHasTemplate(m.args, p, i);
    var t := SlotTemplate(m.args, i).value;
    assert TameSlot(stops, Selector(ex), SelectedName(ex, p), t);
    assert FittingSlot(specs, stops, Selector(ex), SelectedName(ex, p), t);
    PlacedByTemplate(m.args, p, i);
  }

  lemma TameBindingsFit(specs: FlagTable, stops: set<string>, ex: Execution, m: Mapping, p: Parameters)
    requires ResolveExecution(ex, p) == Ok(m) && Emit(m.args, p).Built?
    requires Tame(stops, Selector(ex), SelectedName(ex, p), m.args)
    requires Fitting(specs, stops, Selector(ex), SelectedName(ex, p), m.args)
    ensures AllFit(specs, Emit(m.args, p).bindings)
    ensures forall f :: f in stops ==> f !in FlagsOf(specs, Emit(m.args, p).bindings)
  {
    var bs := Emit(m.args, p).bindings;
    forall b | b in bs ensures Fits(specs, b) && b.flag.value !in stops {
      var t := BindingOrigin(m.args, p, b);
      assert FittingTemplate(specs, stops, t);
    }
    assert forall i :: 0 <= i < |bs| ==> bs[i] in bs;
  }

  lemma TameRead(specs: FlagTable, stops: set<string>, ex: Execution, m: Mapping, p: Parameters, target: string)
    requires ResolveExecution(ex, p) == Ok(m) && Emit(m.args, p).Built? && stops != {} && "--target" !in stops
    requires Tame(stops, Selector(ex), SelectedName(ex, p), m.args)
    requires Fitting(specs, stops, Selector(ex), SelectedName(ex, p), m.args)
    requires m.subcommand !in specs && "--target" in specs && !specs["--target"].boolean
    ensures !ReadsStop(specs, SpawnedLine(m, Emit(m.args, p), target), stops)
  {
    var b := Emit(m.args, p);
    LineParts(m, b, target);
    TameBindingsFit(specs, stops, ex, m, p);
    HolePlain(specs, stops, Selector(ex), SelectedName(ex, p), m.args, p);
    var ps, tail := [m.subcommand] + Texts(b.positional), ["--target", target];
    forall t | t in ps ensures t !in specs {
      if t != m.subcommand {
        var i :| 0 <= i < |b.positional| && t == Texts(b.positional)[i];
        if b.positional[i].Some? {
          TameSlotPlain(specs, stops, ex, m, p, i);
        } else {
          assert b.positional[i] in b.positional;
        }
      }
    }
    ReadFitting(b.bindings, tail, specs);
    ReadPlain(ps, Texts(ActionRuntime.Tokens(b.bindings)) + tail, specs);
    assert tail[2..] == [];
    assert FlagsRead(tail, specs) == ["--target"];
  }

  // ---- templates that are not: some call makes the CLI read a stop ----

  /** With every source spelled like a stop, whatever is read as a flag first is a stop. */
  lemma FilledPlain(specs: FlagTable, stops: set<string>, ex: Execution, variant: Option<string>, m: Mapping,
      stop: string, i: nat)
    requires Selects(ex, variant, m) && Fitting(specs, stops, Selector(ex), variant, m.args) && stop in stops
    requires Emit(m.args, Filled(ex, variant, m, stop)).Built?
    requires var b := Emit(m.args, Filled(ex, variant, m, stop)); i < |b.positional| && b.positional[i].Some?
    ensures var b := Emit(m.args, Filled(ex, variant, m, stop));
      b.positional[i].value in specs ==> b.positional[i].value in stops
  {
    var p := Filled(ex, variant, m, stop);
    FilledTexts(ex, variant, m, stop);
    SlotsExact(m.args, p, i);
    PlacedHasTemplate(m.args, p, i);
    FilledSlot(ex, variant, m, stop, i);
    assert FittingSlot(specs, stops, Selector(ex), variant, SlotTemplate(m.args, i).value);
  }

  lemma FilledBindings(specs: FlagTable, stops: set<string>, ex: Execution, variant: Option<string>, m: Mapping,
      stop: string)
    requires Selects(ex, variant, m) && Fitting(specs, stops, Selector(ex), variant, m.args)
    requires Emit(m.args, Filled(ex, variant, m, stop)).Built?
    ensures forall x :: x in Emit(m.args, Filled(ex, variant, m, stop)).bindings ==>
      Fits(specs, x) || (x.flag.Some? && x.flag.value in stops)
  {
    var p := Filled(ex, variant, m, stop);
    FilledTexts(ex, variant, m, stop);
    forall x | x in Emit(m.args, p).bindings ensures Fits(specs, x) || (x.flag.Some? && x.flag.value in stops) {
      var t := BindingOrigin(m.args, p, x);
      assert FittingTemplate(specs, stops, t);
    }
  }

  /** The first text of the table among some texts. */
  lemma {:induction false} FirstKnown(ts: seq<string>, specs: FlagTable) returns (k: nat)
    requires exists t :: t in ts && t in specs
    ensures k < |ts| && ts[k] in specs && forall t :: t in ts[..k] ==> t !in specs
    decreases |ts|
  {
    if ts[0] in specs {
      k := 0;
    } else {
      assert ts == [ts[0]] + ts[1..];
      k := FirstKnown(ts[1..], specs);
      k := k + 1;
      assert ts[..k] == [ts[0]] + ts[1..][..k - 1];
    }
  }

  lemma UntameRead(specs: FlagTable, stops: set<string>, ex: Execution, variant: Option<string>, m: Mapping,
      stop: string, target: string)
    requires Selects(ex, variant, m) && stop in stops && stops <= specs.Keys && m.subcommand !in specs
    requires Fitting(specs, stops, Selector(ex), variant, m.args) && !Tame(stops, Selector(ex), variant, m.args)
    ensures Emit(m.args, Filled(ex, variant, m, stop)).Built?
    ensures ReadsStop(specs, SpawnedLine(m, Emit(m.args, Filled(ex, variant, m, stop)), target), stops)
  {
    var p := Filled(ex, variant, m, stop);
    UntameEmits(stops, ex, variant, m, stop);
    var b := Emit(m.args, p);
    forall i | 0 <= i < |b.positional| && b.positional[i].Some?
      ensures b.positional[i].value in specs ==> b.positional[i].value in stops
    {
      FilledPlain(specs, stops, ex, variant, m, stop, i);
    }
    FilledBindings(specs, stops, ex, variant, m, stop);
    HolePlain(specs, stops, Selector(ex), variant, m.args, p);
    StopOnLine(specs, stops, m, b, target);
  }

  lemma StopOnLine(specs: FlagTable, stops: set<string>, m: Mapping, b: Build, target: string)
    requires b.Built? && !NoStop(stops, b)
    requires stops <= specs.Keys && m.subcommand !in specs
    requires forall x :: x in b.positional && x.None? ==> UNDEFINED !in specs
    requires forall i ::
      0 <= i < |b.positional| && b.positional[i].Some? && b.positional[i].value in specs ==>
        b.positional[i].value in stops
    requires forall x :: x in b.bindings ==> Fits(specs, x) || (x.flag.Some? && x.flag.value in stops)
    ensures ReadsStop(specs, SpawnedLine(m, b, target), stops)
  {
    LineParts(m, b, target);
    var texts, tail := Texts(b.positional), ["--target", target];
    var rest := Texts(ActionRuntime.Tokens(b.bindings)) + tail;
    var ps := [m.subcommand] + texts;
    forall t | t in ps && t in specs ensures t in stops {
      var i :| 0 <= i < |texts| && texts[i] == t;
      assert t == Passed(b.positional[i]) && b.positional[i] in b.positional;
    }
    if exists t :: t in ps && t in specs {
      StopAmongTexts(specs, stops, ps, rest);
    } else {
      assert forall i :: 0 <= i < |b.positional| ==> Passed(b.positional[i]) == ps[i + 1] && ps[i + 1] in ps;
      var f := ReadStop(b.bindings, tail, specs, stops);
      ReadPlain(ps, rest, specs);
    }
  }

  lemma StopAmongTexts(specs: FlagTable, stops: set<string>, ps: seq<string>, rest: seq<string>)
    requires (exists t :: t in ps && t in specs) && rest != []
    requires forall t :: t in ps && t in specs ==> t in stops
    ensures ReadsStop(specs, ps + rest, stops)
  {
    var k := FirstKnown(ps, specs);
    assert ps[k] in ps;
    ReadFirst(ps[..k], ps[k], ps[k + 1..] + rest, specs);
    assert ps[..k] + [ps[k]] + (ps[k + 1..] + rest) == ps + rest;
  }

  // ---- for every call ----

  /** No variant lets a write flag, or a help flag, or a text of the caller stand as a flag. */
  ghost predicate Unreached(reg: Registry, specs: FlagTable, a: Action, help: bool)
    requires a.execution.Some?
  {
    IsReadOnlyExecutable(reg, a) ==>
      forall variant, m :: Selects(a.execution.value, variant, m) && KeyOf(m) in reg ==>
        Unreachable(specs, Stops(specs, reg[KeyOf(m)], help), a.execution.value, variant, m)
  }

  lemma WriteFreeUnreached(reg: Registry, specs: FlagTable, a: Action)
    requires a.execution.Some?
    ensures Unreached(reg, specs, a, false) <==> WriteFree(reg, specs, a)
  {
    assert forall k :: k in reg ==> Stops(specs, reg[k], false) == WriteFlags(specs, reg[k]);
  }

  lemma RegisteredNames(cli: Cli, specs: FlagTable, m: Mapping)
    requires TablesAgree(cli, specs) && KeyOf(m) in cli.reg
    ensures '/' !in m.command && m.subcommand != "" && m.subcommand !in specs
  {
    var command, sub :| NameParts(specs, KeyOf(m), command, sub);
    SameKey(command, sub, m.command, m.subcommand);
  }

  lemma StopsKnown(cli: Cli, specs: FlagTable, key: string, help: bool)
    requires TablesAgree(cli, specs) && key in cli.reg
    ensures Stops(specs, cli.reg[key], help) <= specs.Keys && "--target" !in Stops(specs, cli.reg[key], help)
  {
    forall w | w in WriteFlags(specs, cli.reg[key]) ensures w != "--target" {
      assert ConventionalFlag(specs, w);
    }
  }

  /** The CLI reads none of the stops on the line of this call. */
  ghost predicate CallUndisturbed(reg: Registry, specs: FlagTable, a: Action, p: Parameters, target: string, help: bool)
    requires a.execution.Some?
  {
    Started(reg, a, p) && target !in specs ==>
      var m := ResolveExecution(a.execution.value, p).value;
      !ReadsStop(specs, SpawnedLine(m, Emit(m.args, p), target), Stops(specs, reg[KeyOf(m)], help))
  }

  /** Every call is undisturbed exactly when no variant lets a stop or a text of the caller stand as a flag. */
  lemma UndisturbedExact(cli: Cli, specs: FlagTable, a: Action, help: bool)
    requires TablesAgree(cli, specs) && a.execution.Some?
    ensures (forall p, target :: CallUndisturbed(cli.reg, specs, a, p, target, help))
      <==> Unreached(cli.reg, specs, a, help)
  {
    if Unreached(cli.reg, specs, a, help) {
      forall p, target ensures CallUndisturbed(cli.reg, specs, a, p, target, help) {
        UnreachedCall(cli, specs, a, p, target, help);
      }
    } else {
      var p, target := ReachedCall(cli, specs, a, help);
    }
  }

  lemma UnreachedCall(cli: Cli, specs: FlagTable, a: Action, p: Parameters, target: string, help: bool)
    requires TablesAgree(cli, specs) && a.execution.Some? && Unreached(cli.reg, specs, a, help)
    ensures CallUndisturbed(cli.reg, specs, a, p, target, help)
  {
    if Started(cli.reg, a, p) && target !in specs {
      var ex := a.execution.value;
      var m := ResolveExecution(ex, p).value;
      ResolvedSelects(ex, p);
      UnreachableCall(specs, Stops(specs, cli.reg[KeyOf(m)], help), ex, m, p, target);
    }
  }

  lemma ReachedCall(cli: Cli, specs: FlagTable, a: Action, help: bool) returns (p: Parameters, target: string)
    requires TablesAgree(cli, specs) && a.execution.Some? && !Unreached(cli.reg, specs, a, help)
    ensures target !in specs && !CallUndisturbed(cli.reg, specs, a, p, target, help)
  {
    var ex := a.execution.value;
    var variant, m :| Selects(ex, variant, m) && KeyOf(m) in cli.reg
      && !Unreachable(specs, Stops(specs, cli.reg[KeyOf(m)], help), ex, variant, m);
    StopsKnown(cli, specs, KeyOf(m), help);
    target := FreeText(specs);
    p := ReachableCall(specs, Stops(specs, cli.reg[KeyOf(m)], help), ex, variant, m, target);
    SelectedEntry(ex, variant, m);
  }

  // ---- templates written for the flag table ----

  /** Every variant of a directly executable action is written for the flag table. */
  ghost predicate FittingAction(reg: Registry, specs: FlagTable, a: Action, help: bool)
    requires a.execution.Some?
  {
    IsReadOnlyExecutable(reg, a) ==>
      forall variant, m :: Selects(a.execution.value, variant, m) && KeyOf(m) in reg ==>
        Fitting(specs, Stops(specs, reg[KeyOf(m)], help), Selector(a.execution.value), variant, m.args)
  }

  /** No variant pushes a stop or lets a caller place one. */
  ghost predicate TameAction(reg: Registry, specs: FlagTable, a: Action, help: bool)
    requires a.execution.Some?
  {
    IsReadOnlyExecutable(reg, a) ==>
      forall variant, m :: Selects(a.execution.value, variant, m) && KeyOf(m) in reg ==>
        Tame(Stops(specs, reg[KeyOf(m)], help), Selector(a.execution.value), variant, m.args)
  }

  lemma TameCall(cli: Cli, specs: FlagTable, a: Action, p: Parameters, target: string, help: bool)
    requires TablesAgree(cli, specs) && a.execution.Some?
    requires FittingAction(cli.reg, specs, a, help) && TameAction(cli.reg, specs, a, help)
    ensures CallUndisturbed(cli.reg, specs, a, p, target, help)
  {
    if Started(cli.reg, a, p) {
      var ex := a.execution.value;
      var m := ResolveExecution(ex, p).value;
      var stops := Stops(specs, cli.reg[KeyOf(m)], help);
      ResolvedSelects(ex, p);
      RegisteredNames(cli, specs, m);
      StopsKnown(cli, specs, KeyOf(m), help);
      if stops != {} {
        TameRead(specs, stops, ex, m, p, target);
      }
    }
  }

  lemma UntameCall(cli: Cli, specs: FlagTable, a: Action, target: string, help: bool) returns (p: Parameters)
    requires TablesAgree(cli, specs) && a.execution.Some? && target !in specs
    requires FittingAction(cli.reg, specs, a, help) && !TameAction(cli.reg, specs, a, help)
    ensures !CallUndisturbed(cli.reg, specs, a, p, target, help)
  {
    var ex := a.execution.value;
    var variant, m :| Selects(ex, variant, m) && KeyOf(m) in cli.reg
      && !Tame(Stops(specs, cli.reg[KeyOf(m)], help), Selector(ex), variant, m.args);
    var stops := Stops(specs, cli.reg[KeyOf(m)], help);
    assert stops != {} by { NoStopsTame(ex, variant, m); }
    var stop :| stop in stops;
    RegisteredNames(cli, specs, m);
    StopsKnown(cli, specs, KeyOf(m), help);
    SelectedEntry(ex, variant, m);
    FilledTexts(ex, variant, m, stop);
    UntameRead(specs, stops, ex, variant, m, stop, target);
    p := Filled(ex, variant, m, stop);
  }

  lemma NoStopsTame(ex: Execution, variant: Option<string>, m: Mapping)
    ensures Tame({}, Selector(ex), variant, m.args)
  {
  }

  /**
   * For templates written for the flag table the condition can be read off them one by one: no variant pushes a
   * stop as a flag, places one literally or as its own name, or, where there are stops, places a caller's text.
   */
  lemma FittingExact(cli: Cli, specs: FlagTable, a: Action, help: bool)
    requires TablesAgree(cli, specs) && a.execution.Some? && FittingAction(cli.reg, specs, a, help)
    ensures Unreached(cli.reg, specs, a, help) <==> TameAction(cli.reg, specs, a, help)
  {
    UndisturbedExact(cli, specs, a, help);
    if TameAction(cli.reg, specs, a, help) {
      forall p, target ensures CallUndisturbed(cli.reg, specs, a, p, target, help) {
        TameCall(cli, specs, a, p, target, help);
      }
    } else {
      var target := FreeText(specs);
      var p := UntameCall(cli, specs, a, target, help);
    }
  }

  // ---- what the CLI makes of the line ----

  lemma WriteBoundExact(cli: Cli, specs: FlagTable, key: string, line: seq<string>, cwd: string)
    requires TablesAgree(cli, specs) && key in cli.reg && Closed(line, specs)
    ensures WriteFlagBound(cli.reg[key].writeFlags, ParseArgs(line, specs, Defaults(cwd)))
       <==> ReadsStop(specs, line, WriteFlags(specs, cli.reg[key]))
  {
    var cap, args := cli.reg[key], ParseArgs(line, specs, Defaults(cwd));
    FlagsReadKnown(line, specs);
    forall w | w in cap.writeFlags ensures BoundIn(args, KeyOfFlag(w)) <==> w in FlagsRead(line, specs) {
      BoundExact(line, specs, Defaults(cwd), KeyOfFlag(w));
      OnlyOwnRow(cli, specs, key, w);
    }
    assert forall w :: w in cap.writeFlags ==> ConventionalFlag(specs, w);
  }

  /** A write flag's key is set by its own row and no other. */
  lemma OnlyOwnRow(cli: Cli, specs: FlagTable, key: string, w: string)
    requires TablesAgree(cli, specs) && key in cli.reg && w in cli.reg[key].writeFlags
    ensures w != "" && w in specs && forall f :: f in specs ==> (Sets(specs[f], KeyOfFlag(w)) <==> f == w)
    ensures forall cwd :: !BoundIn(Defaults(cwd), KeyOfFlag(w))
  {
    assert ConventionalFlag(specs, w) && LowerFlag(w) && "--" <= w;
    forall f | f in specs ensures Sets(specs[f], KeyOfFlag(w)) <==> f == w {
      if LowerFlag(f) && specs[f].key == KeyOfFlag(f) {
        FlagKeysInjective(f, w);
      }
    }
  }

  lemma {:induction false} HelpIsFlag(line: seq<string>, specs: FlagTable, args: Args)
    requires HelpIsBoolean(specs)
    requires "help" in args.keys ==> args.keys["help"] == Flag(true)
    ensures var after := ParseArgs(line, specs, args); "help" in after.keys ==> after.keys["help"] == Flag(true)
    decreases |line|
  {
    if line != [] {
      var spec := if line[0] in specs then specs[line[0]] else FlagSpec("", true, None);
      if line[0] !in specs {
        HelpIsFlag(line[1..], specs, args.(positional := args.positional + [line[0]]));
      } else if spec.boolean {
        HelpIsFlag(line[1..], specs, args.(keys := args.keys[spec.key := Flag(true)]));
      } else {
        assert !Sets(spec, "help");
        if |line| > 1 {
          HelpIsFlag(line[2..], specs, SetValue(args, spec, Some(line[1])));
        }
      }
    }
  }

  lemma HelpExact(cli: Cli, specs: FlagTable, line: seq<string>, cwd: string)
    requires TablesAgree(cli, specs) && Closed(line, specs)
    ensures HelpAsked(ParseArgs(line, specs, Defaults(cwd))) <==> ReadsStop(specs, line, HelpFlags(specs))
  {
    HelpIsFlag(line, specs, Defaults(cwd));
    BoundExact(line, specs, Defaults(cwd), "help");
    FlagsReadKnown(line, specs);
  }

  lemma FirstToken(line: seq<string>, specs: FlagTable, cwd: string)
    requires line != [] && line[0] !in specs
    ensures var args := ParseArgs(line, specs, Defaults(cwd)); args.positional != [] && args.positional[0] == line[0]
  {
    PositionalsExact(line, specs, Defaults(cwd));
  }

  lemma NameTyped(cli: Cli, specs: FlagTable, m: Mapping)
    requires TablesAgree(cli, specs) && KeyOf(m) in cli.reg
    ensures m.command in cli.typed
  {
    RegisteredNames(cli, specs, m);
    var definitions :| ValidateCommandRegistry(definitions, cli.reg) == Valid
      && cli.typed == set c | c in definitions && definitions[c];
    RegistryCheckTypes(definitions, cli.reg, m.command, m.subcommand);
  }

  /** The classification of a registered read hangs on its write flags alone. */
  lemma Classified(cli: Cli, specs: FlagTable, m: Mapping, args: Args)
    requires TablesAgree(cli, specs) && KeyOf(m) in cli.reg && cli.reg[KeyOf(m)].effect.Read?
    requires args.positional != [] && args.positional[0] == m.subcommand != "" && m.command in cli.typed
    ensures var c := Classify(cli, m.command, args);
      c.Some? && (c.value.effect.Read? <==> !WriteFlagBound(cli.reg[KeyOf(m)].writeFlags, args))
  {
    if m.command == "context" {
      assert KeyOf(m) == CapabilityKey("context", m.subcommand);
      assert [m.subcommand] + args.positional[1..] == args.positional;
    }
  }

  /** The line of a registered, indexed read is a typed invocation; it is a read exactly without write flags. */
  lemma LineClassified(cli: Cli, specs: FlagTable, actions: seq<Action>, m: Mapping, line: seq<string>, cwd: string)
    requires forall x :: x in actions ==> x.execution.Some?
    requires TablesAgree(cli, specs) && KeyOf(m) in Index(actions) && KeyOf(m) in cli.reg
      && cli.reg[KeyOf(m)].effect.Read?
    requires line != [] && line[0] == m.subcommand && Closed(line, specs)
    ensures m.command in cli.typed
    ensures var args := ParseArgs(line, specs, Defaults(cwd));
      && args.positional != [] && args.positional[0] == m.subcommand != ""
      && var d := Validate(cli, Index(actions), m.command, args);
      && d.Typed?
      && (d.capability.effect.Read? <==> !ReadsStop(specs, line, WriteFlags(specs, cli.reg[KeyOf(m)])))
  {
    var args := ParseArgs(line, specs, Defaults(cwd));
    RegisteredNames(cli, specs, m);
    NameTyped(cli, specs, m);
    FirstToken(line, specs, cwd);
    WriteBoundExact(cli, specs, KeyOf(m), line, cwd);
    Classified(cli, specs, m, args);
    assert CapabilityKey(m.command, args.positional[0]) == KeyOf(m);
  }

  /** What one run of the CLI does with a registered, indexed read, whatever flags its line carries. */
  lemma LineDecided(cli: Cli, specs: FlagTable, actions: seq<Action>, m: Mapping, argv: seq<string>, cwd: string)
    requires AllAccepted(cli.reg, actions)
    requires TablesAgree(cli, specs) && KeyOf(m) in Index(actions) && KeyOf(m) in cli.reg
      && cli.reg[KeyOf(m)].effect.Read?
    requires |argv| > 1 && argv[0] == m.command && argv[1] == m.subcommand && Closed(argv[1..], specs)
    ensures var r, line := RunResult(cli, Some(actions), specs, argv, cwd), argv[1..];
      if ReadsStop(specs, line, HelpFlags(specs)) then r == Shown(ShowUsage)
      else r.Answered? && if ReadsStop(specs, line, WriteFlags(specs, cli.reg[KeyOf(m)]))
        then !r.HandledAsRead() && (r.dispatched.Handled? <==> Approved(ParseArgs(line, specs, Defaults(cwd))))
        else r.HandledAsRead()
  {
    var line := argv[1..];
    HelpExact(cli, specs, line, cwd);
    LineClassified(cli, specs, actions, m, line, cwd);
    NotShortcut(cli, specs, m.command);
    RunOfCall(cli, specs, Some(actions), m.command, argv, cwd);
    var args := ParseArgs(line, specs, Defaults(cwd));
    DecisionOfCall(cli, actions, m.command, args);
  }

  lemma NotShortcut(cli: Cli, specs: FlagTable, command: string)
    requires TablesAgree(cli, specs) && command in cli.typed
    ensures command !in SHORTCUTS && command in cli.commands
  {
  }

  lemma RunOfCall(cli: Cli, specs: FlagTable, onDisk: Option<seq<Action>>, command: string, argv: seq<string>,
      cwd: string)
    requires argv != [] && argv[0] == command && command !in SHORTCUTS && command in cli.commands
    ensures var args := ParseArgs(argv[1..], specs, Defaults(cwd));
      RunResult(cli, onDisk, specs, argv, cwd)
      == if HelpAsked(args) then Shown(ShowUsage) else Answered(Decision(cli, onDisk, Call(command, args)))
  {
  }

  lemma DecisionOfCall(cli: Cli, actions: seq<Action>, command: string, args: Args)
    requires AllAccepted(cli.reg, actions) && command in cli.typed && args.positional != [] && args.positional[0] != ""
    requires Validate(cli, Index(actions), command, args).Typed?
    ensures var d, r := Validate(cli, Index(actions), command, args),
      Answered(Decision(cli, Some(actions), Call(command, args)));
      if d.capability.effect.Read? then r.HandledAsRead()
      else !r.HandledAsRead() && (r.dispatched.Handled? <==> Approved(args))
  {
  }

  // ---- the two seams ----

  /** The invocation of a started process, as the CLI gets it. */
  function ArgvOfCall(reg: Registry, a: Action, p: Parameters, target: string): seq<string>
    requires a.execution.Some? && Started(reg, a, p)
  {
    var m := ResolveExecution(a.execution.value, p).value;
    SpawnedArgv(Argv(m, Emit(m.args, p)), target)
  }

  lemma ArgvParts(reg: Registry, a: Action, p: Parameters, target: string, specs: FlagTable)
    requires a.execution.Some? && Started(reg, a, p) && target !in specs
    ensures var argv, m := ArgvOfCall(reg, a, p, target), ResolveExecution(a.execution.value, p).value;
      && |argv| > 1 && argv[0] == m.command && argv[1] == m.subcommand && Closed(argv[1..], specs)
      && argv[1..] == SpawnedLine(m, Emit(m.args, p), target)
  {
    var m := ResolveExecution(a.execution.value, p).value;
    LineParts(m, Emit(m.args, p), target);
    var argv := ArgvOfCall(reg, a, p, target);
    assert argv[1..][0] == argv[1];
  }

  lemma CallIndexed(actions: seq<Action>, a: Action, p: Parameters)
    requires forall x :: x in actions ==> x.execution.Some?
    requires a in actions && ResolveExecution(a.execution.value, p).Ok?
    ensures KeyOf(ResolveExecution(a.execution.value, p).value) in Index(actions)
  {
    var e := ResolvedEntry(a.execution.value, p);
    MappedKeyIndexed(actions, a, e);
  }

  /** The CLI classifies the started process as a typed read of the same command. */
  ghost predicate CallAgrees(cli: Cli, specs: FlagTable, actions: seq<Action>, a: Action, p: Parameters,
      target: string, cwd: string)
    requires a.execution.Some? && forall x :: x in actions ==> x.execution.Some?
  {
    Started(cli.reg, a, p) && target !in specs ==>
      var m := ResolveExecution(a.execution.value, p).value;
      var args := ParseArgs(ArgvOfCall(cli.reg, a, p, target)[1..], specs, Defaults(cwd));
      var d := Validate(cli, Index(actions), m.command, args);
      && args.positional != [] && args.positional[0] == m.subcommand
      && d.Typed? && d.capability.effect.Read?
  }

  /** The CLI runs the handler of the started process, as a read and without asking anybody. */
  ghost predicate CallHandled(cli: Cli, specs: FlagTable, actions: seq<Action>, a: Action, p: Parameters,
      target: string, cwd: string)
    requires a.execution.Some?
  {
    Started(cli.reg, a, p) && target !in specs ==>
      RunResult(cli, Some(actions), specs, ArgvOfCall(cli.reg, a, p, target), cwd).HandledAsRead()
  }

  lemma CallDecided(cli: Cli, specs: FlagTable, actions: seq<Action>, a: Action, p: Parameters, target: string,
      cwd: string)
    requires AllAccepted(cli.reg, actions) && a in actions && TablesAgree(cli, specs) && target !in specs
    ensures CallAgrees(cli, specs, actions, a, p, target, cwd) <==> CallUndisturbed(cli.reg, specs, a, p, target, false)
    ensures CallHandled(cli, specs, actions, a, p, target, cwd) <==> CallUndisturbed(cli.reg, specs, a, p, target, true)
  {
    if Started(cli.reg, a, p) {
      var m := ResolveExecution(a.execution.value, p).value;
      ArgvParts(cli.reg, a, p, target, specs);
      CallIndexed(actions, a, p);
      LineClassified(cli, specs, actions, m, ArgvOfCall(cli.reg, a, p, target)[1..], cwd);
      LineDecided(cli, specs, actions, m, ArgvOfCall(cli.reg, a, p, target), cwd);
    }
  }

  /** What the CLI does with a started process, by what it reads of the spawned line. */
  lemma StartedDecided(cli: Cli, specs: FlagTable, actions: seq<Action>, a: Action, p: Parameters, target: string,
      cwd: string)
    requires AllAccepted(cli.reg, actions) && a in actions && TablesAgree(cli, specs)
    requires Started(cli.reg, a, p) && target !in specs
    ensures var m := ResolveExecution(a.execution.value, p).value;
      && KeyOf(m) in cli.reg
      && var r, line := RunResult(cli, Some(actions), specs, ArgvOfCall(cli.reg, a, p, target), cwd),
                        SpawnedLine(m, Emit(m.args, p), target);
      if ReadsStop(specs, line, HelpFlags(specs)) then r == Shown(ShowUsage)
      else r.Answered? && if ReadsStop(specs, line, WriteFlags(specs, cli.reg[KeyOf(m)]))
        then !r.HandledAsRead() && (r.dispatched.Handled? <==> Approved(ParseArgs(line, specs, Defaults(cwd))))
        else r.HandledAsRead()
  {
    var m := ResolveExecution(a.execution.value, p).value;
    ArgvParts(cli.reg, a, p, target, specs);
    CallIndexed(actions, a, p);
    LineDecided(cli, specs, actions, m, ArgvOfCall(cli.reg, a, p, target), cwd);
  }

  /**
   * The seams agree: for an action of the shared whitelist, whatever the parameters, the CLI classifies what
   * the server spawns as a typed read of the same command, exactly when the action is write-free.
   */
  lemma SeamsAgree(cli: Cli, specs: FlagTable, actions: seq<Action>, a: Action)
    requires AllAccepted(cli.reg, actions) && a in actions && TablesAgree(cli, specs)
    ensures (forall p, target, cwd :: CallAgrees(cli, specs, actions, a, p, target, cwd))
      <==> WriteFree(cli.reg, specs, a)
  {
    WriteFreeUnreached(cli.reg, specs, a);
    if WriteFree(cli.reg, specs, a) {
      forall p, target, cwd ensures CallAgrees(cli, specs, actions, a, p, target, cwd) {
        UnreachedCall(cli, specs, a, p, target, false);
        if target !in specs {
          CallDecided(cli, specs, actions, a, p, target, cwd);
        }
      }
    } else {
      var p, target := ReachedCall(cli, specs, a, false);
      CallDecided(cli, specs, actions, a, p, target, "");
    }
  }

  /**
   * Every process the server starts for the action reaches its handler as a read without approval, exactly
   * when no variant lets a write flag, a help flag or a text of the caller stand as a flag.
   */
  lemma HandledExact(cli: Cli, specs: FlagTable, actions: seq<Action>, a: Action)
    requires AllAccepted(cli.reg, actions) && a in actions && TablesAgree(cli, specs)
    ensures (forall p, target, cwd :: CallHandled(cli, specs, actions, a, p, target, cwd))
      <==> Unreached(cli.reg, specs, a, true)
  {
    if Unreached(cli.reg, specs, a, true) {
      forall p, target, cwd ensures CallHandled(cli, specs, actions, a, p, target, cwd) {
        UnreachedCall(cli, specs, a, p, target, true);
        if target !in specs {
          CallDecided(cli, specs, actions, a, p, target, cwd);
        }
      }
    } else {
      var p, target := ReachedCall(cli, specs, a, true);
      CallDecided(cli, specs, actions, a, p, target, "");
    }
  }

  // ---- the configured target ----

  /** If this call starts a process, its command works on the target that the server appended. */
  ghost predicate CallKeepsTarget(reg: Registry, specs: FlagTable, a: Action, p: Parameters, target: string,
      cwd: string)
    requires a.execution.Some?
  {
    Started(reg, a, p) ==> TargetKept(specs, ResolveExecution(a.execution.value, p).value, p, target, cwd)
  }

  /** No variant lets the target flag be taken for the value of another flag. */
  ghost predicate KeepsTargets(reg: Registry, specs: FlagTable, a: Action)
    requires a.execution.Some?
  {
    IsReadOnlyExecutable(reg, a) ==>
      forall variant, m :: Selects(a.execution.value, variant, m) ==> KeepsTarget(specs, a.execution.value, variant, m)
  }

  /**
   * Whatever the parameters, every started process works on the configured target, exactly when for no choice
   * of omitted keys, and of keys that hold a flag with a value, the target flag is swallowed.
   */
  lemma TargetKeptExact(reg: Registry, specs: FlagTable, a: Action)
    requires TargetRow(specs) && a.execution.Some?
    ensures (forall p, target, cwd :: CallKeepsTarget(reg, specs, a, p, target, cwd)) <==> KeepsTargets(reg, specs, a)
  {
    var ex := a.execution.value;
    if KeepsTargets(reg, specs, a) {
      forall p, target, cwd ensures CallKeepsTarget(reg, specs, a, p, target, cwd) {
        if Started(reg, a, p) {
          ResolvedSelects(ex, p);
          KeptCall(specs, ex, ResolveExecution(ex, p).value, p, target, cwd);
        }
      }
    } else {
      var variant, m :| Selects(ex, variant, m) && !KeepsTarget(specs, ex, variant, m);
      var p, target, cwd := LostCall(specs, ex, variant, m);
      SelectedEntry(ex, variant, m);
      assert DirectRead(reg, m);
      assert !CallKeepsTarget(reg, specs, a, p, target, cwd);
    }
  }

  /** The placed texts come back as the positionals exactly when none of them is a flag of the table. */
  lemma PositionalsBack(specs: FlagTable, m: Mapping, b: Build, target: string, cwd: string)
    requires b.Built?
    requires m.subcommand !in specs && AllFit(specs, b.bindings)
    requires "--target" in specs && !specs["--target"].boolean
    ensures (ParseArgs(SpawnedLine(m, b, target), specs, Defaults(cwd)).positional
              == [m.subcommand] + Texts(b.positional))
       <==> forall t :: t in Texts(b.positional) ==> t !in specs
  {
    var line, ps, tail := SpawnedLine(m, b, target), [m.subcommand] + Texts(b.positional), ["--target", target];
    LineParts(m, b, target);
    PositionalsExact(line, specs, Defaults(cwd));
    assert Defaults(cwd).positional + PositionalsRead(line, specs) == PositionalsRead(line, specs);
    if forall t :: t in Texts(b.positional) ==> t !in specs {
      ReadFitting(b.bindings, tail, specs);
      ReadPlain(ps, Texts(ActionRuntime.Tokens(b.bindings)) + tail, specs);
      assert tail[2..] == [] && PositionalsRead(tail, specs) == [];
    } else {
      var t :| t in Texts(b.positional) && t in specs;
      assert t in ps;
    }
  }

  /**
   * End to end, for one call: a spawned vector is run by the CLI, whose handler is reached as a read exactly
   * when no write or help flag is read on the line; nothing else reaches a handler.
   */
  method SpawnThenRun(server: Server, cli: Dispatcher, specs: FlagTable, a: Action, p: Parameters,
                      active: seq<Session>, corrupt: seq<string>, target: string, cwd: string)
    returns (outcome: Outcome, ran: Option<Ran>)
    requires server.Valid() && cli.Valid() && a in server.actions && a.execution.Some?
    requires cli.cli.reg == server.reg && cli.onDisk == Some(server.actions)
    requires TablesAgree(cli.cli, specs) && target !in specs
    modifies server, cli
    ensures server.Valid() && cli.Valid()
    ensures outcome == Decide(server.reg, a, p, active, corrupt)
    ensures ran.Some? <==> outcome.Spawned?
    ensures ran.Some? ==> ran.value == RunResult(cli.cli, cli.onDisk, specs, SpawnedArgv(outcome.argv, target), cwd)
    ensures ran.Some? ==> (ran.value.HandledAsRead() <==> CallUndisturbed(server.reg, specs, a, p, target, true))
    ensures |cli.handled| == |old(cli.handled)|
      + if ran.Some? && ran.value.Answered? && ran.value.dispatched.Handled? then 1 else 0
  {
    outcome := server.RunAction(a, p, active, corrupt);
    ran := None;
    StartedVector(server.reg, a, p, active, corrupt, target);
    if outcome.Spawned? {
      CallRun(cli.cli, specs, server.actions, a, p, target, cwd);
      var r := cli.Run(specs, SpawnedArgv(outcome.argv, target), cwd);
      ran := Some(r);
    }
  }

  lemma StartedVector(reg: Registry, a: Action, p: Parameters, active: seq<Session>, corrupt: seq<string>,
      target: string)
    requires a.execution.Some?
    ensures var d := Decide(reg, a, p, active, corrupt);
      && (Started(reg, a, p) <==> d.Spawned?)
      && (Started(reg, a, p) ==> SpawnedArgv(d.argv, target) == ArgvOfCall(reg, a, p, target))
  {
  }

  lemma CallRun(cli: Cli, specs: FlagTable, actions: seq<Action>, a: Action, p: Parameters, target: string, cwd: string)
    requires AllAccepted(cli.reg, actions) && a in actions && TablesAgree(cli, specs) && target !in specs
    requires Started(cli.reg, a, p)
    ensures RunResult(cli, Some(actions), specs, ArgvOfCall(cli.reg, a, p, target), cwd).HandledAsRead()
       <==> CallUndisturbed(cli.reg, specs, a, p, target, true)
  {
    CallDecided(cli, specs, actions, a, p, target, cwd);
  }
}
