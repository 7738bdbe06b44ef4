/**
 * Checks of an Action Type against the flag table. The conditions of the seam theorems quantify over the keys a
 * caller leaves out and over what the caller sends; only the keys of the templates matter, so they can be computed.
 */
module TemplateChecks {
  import opened Wrappers
  import opened ActionContracts
  import opened ActionRuntime
  import opened ActionServer
  import opened ArgumentSlots
  import opened CliSeam
  import opened ParsedFlags
  import opened SpawnedLines
  import opened TwoSeams

  // ---- the choices of a caller ----

  /** The keys of the templates; of the optional ones only, if so asked. */
  function KeysOf(args: seq<Template>, optional: bool): seq<string> {
    if args == [] then [] else
      var t, rest := args[0], KeysOf(args[1..], optional);
      if t.HasSource() && (optional ==> t.optional) then [SourceKey(t.source.value)] + rest else rest
  }

  lemma {:induction false} KeyListed(args: seq<Template>, optional: bool, t: Template)
    requires t in args && t.HasSource() && (optional ==> t.optional)
    ensures SourceKey(t.source.value) in KeysOf(args, optional)
    decreases |args|
  {
    if t != args[0] {
      assert t in args[1..];
      KeyListed(args[1..], optional, t);
    }
  }

  function Subsets(keys: seq<string>): seq<set<string>> {
    if keys == [] then [{}] else
      var rest := Subsets(keys[1..]);
      rest + seq(|rest|, i requires 0 <= i < |rest| => rest[i] + {keys[0]})
  }

  /** Every set of some of the keys is listed. */
  lemma {:induction false} SubsetListed(keys: seq<string>, s: set<string>)
    requires forall k :: k in s ==> k in keys
    ensures s in Subsets(keys)
    decreases |keys|
  {
    if keys == [] {
      assert s == {};
    } else {
      var rest := Subsets(keys[1..]);
      SubsetListed(keys[1..], s - {keys[0]});
      if keys[0] in s {
        var i :| 0 <= i < |rest| && rest[i] == s - {keys[0]};
        assert s == rest[i] + {keys[0]} == Subsets(keys)[|rest| + i];
      } else {
        assert s - {keys[0]} == s;
      }
    }
  }

  // ---- which of them matter ----

  /** Leaving out a key that belongs to no optional template changes nothing, as long as the command is built. */
  lemma {:induction false} SameOutline(args: seq<Template>, selector: Option<string>, variant: Option<string>,
                                       absent: set<string>, keys: set<string>)
    requires OutlineOf(args, selector, variant, absent).Outline?
    requires forall t :: t in args && t.HasSource() && t.optional ==> SourceKey(t.source.value) in keys
    ensures OutlineOf(args, selector, variant, absent * keys) == OutlineOf(args, selector, variant, absent)
    decreases |args|
  {
    if args != [] {
      var front, t := args[..|args| - 1], args[|args| - 1];
      assert args == front + [t];
      SameOutline(front, selector, variant, absent, keys);
    }
  }

  /** Whether a key that no symbol has holds a flag with a value makes no difference. */
  lemma {:induction false} SameSwallows(line: seq<Symbol>, specs: FlagTable, valued: set<string>, keys: set<string>)
    requires forall x :: x in line && x.Caller? ==> x.key in keys
    ensures Swallows(line, specs, valued * keys) <==> Swallows(line, specs, valued)
    decreases |line|
  {
    if line != [] {
      assert line[0] in line;
      assert forall x :: x in line[1..] ==> x in line;
      SameSwallows(line[1..], specs, valued, keys);
      if |line| > 1 {
        assert forall x :: x in line[2..] ==> x in line;
        SameSwallows(line[2..], specs, valued, keys);
      }
    }
  }

  lemma LineKeys(ex: Execution, variant: Option<string>, m: Mapping, absent: set<string>, x: Symbol)
    requires var o := OutlineOf(m.args, Selector(ex), variant, absent);
      o.Outline? && x in SymbolLine(m, o) && x.Caller?
    ensures x.key in KeysOf(m.args, false)
  {
    var o := OutlineOf(m.args, Selector(ex), variant, absent);
    SymbolOrigin(m, o, x);
    CallersSent(m.args, Selector(ex), variant, absent, x);
    var t :| t in m.args && t.HasSource() && SourceKey(t.source.value) == x.key;
    KeyListed(m.args, false, t);
  }

  /** A choice of keys that the templates tell apart. */
  lemma Restricted(ex: Execution, variant: Option<string>, m: Mapping, absent: set<string>)
    returns (restricted: set<string>)
    requires OutlineOf(m.args, Selector(ex), variant, absent).Outline?
    ensures restricted in Subsets(KeysOf(m.args, true))
    ensures OutlineOf(m.args, Selector(ex), variant, restricted) == OutlineOf(m.args, Selector(ex), variant, absent)
  {
    var keys := set k | k in KeysOf(m.args, true);
    forall t | t in m.args && t.HasSource() && t.optional ensures SourceKey(t.source.value) in keys {
      KeyListed(m.args, true, t);
    }
    restricted := absent * keys;
    SameOutline(m.args, Selector(ex), variant, absent, keys);
    SubsetListed(KeysOf(m.args, true), restricted);
  }

  // ---- one variant ----

  /** No choice of omitted optional keys lets a stop, or a text of the caller, stand as a flag. */
  predicate NeverMeets(specs: FlagTable, stops: set<string>, ex: Execution, variant: Option<string>, m: Mapping) {
    stops == {} || forall absent :: absent in Subsets(KeysOf(m.args, true)) ==>
      var o := OutlineOf(m.args, Selector(ex), variant, absent);
      o.Outline? ==> !MeetsStop(SymbolLine(m, o), specs, stops)
  }

  lemma NeverMeetsExact(specs: FlagTable, stops: set<string>, ex: Execution, variant: Option<string>, m: Mapping)
    ensures NeverMeets(specs, stops, ex, variant, m) <==> Unreachable(specs, stops, ex, variant, m)
  {
    if NeverMeets(specs, stops, ex, variant, m) && stops != {} {
      forall absent ensures var o := OutlineOf(m.args, Selector(ex), variant, absent);
        o.Outline? ==> !MeetsStop(SymbolLine(m, o), specs, stops)
      {
        if OutlineOf(m.args, Selector(ex), variant, absent).Outline? {
          var restricted := Restricted(ex, variant, m, absent);
        }
      }
    }
  }

  /** No choice of omitted optional keys, and of keys that hold a flag with a value, swallows the target flag. */
  predicate NeverSwallows(specs: FlagTable, ex: Execution, variant: Option<string>, m: Mapping) {
    forall absent :: absent in Subsets(KeysOf(m.args, true)) ==>
      var o := OutlineOf(m.args, Selector(ex), variant, absent);
      o.Outline? ==>
        forall valued :: valued in Subsets(KeysOf(m.args, false)) ==> !Swallows(SymbolLine(m, o), specs, valued)
  }

  lemma NeverSwallowsExact(specs: FlagTable, ex: Execution, variant: Option<string>, m: Mapping)
    ensures NeverSwallows(specs, ex, variant, m) <==> KeepsTarget(specs, ex, variant, m)
  {
    if NeverSwallows(specs, ex, variant, m) {
      forall absent, valued ensures var o := OutlineOf(m.args, Selector(ex), variant, absent);
        o.Outline? ==> !Swallows(SymbolLine(m, o), specs, valued)
      {
        if OutlineOf(m.args, Selector(ex), variant, absent).Outline? {
          var restricted := Restricted(ex, variant, m, absent);
          SwallowsRestricted(specs, ex, variant, m, restricted, valued);
        }
      }
    }
  }

  lemma SwallowsRestricted(specs: FlagTable, ex: Execution, variant: Option<string>, m: Mapping, absent: set<string>,
      valued: set<string>)
    requires absent in Subsets(KeysOf(m.args, true)) && NeverSwallows(specs, ex, variant, m)
    requires OutlineOf(m.args, Selector(ex), variant, absent).Outline?
    ensures !Swallows(SymbolLine(m, OutlineOf(m.args, Selector(ex), variant, absent)), specs, valued)
  {
    var line := SymbolLine(m, OutlineOf(m.args, Selector(ex), variant, absent));
    var keys := set k | k in KeysOf(m.args, false);
    forall x | x in line && x.Caller? ensures x.key in keys {
      LineKeys(ex, variant, m, absent, x);
    }
    SubsetListed(KeysOf(m.args, false), valued * keys);
    SameSwallows(line, specs, valued, keys);
  }

  // ---- an Action Type ----

  function VariantOf(ex: Execution, e: (string, Mapping)): Option<string> {
    if ex.Plain? then None else Some(e.0)
  }

  lemma SelectedListed(ex: Execution, variant: Option<string>, m: Mapping) returns (e: (string, Mapping))
    requires Selects(ex, variant, m)
    ensures e in ex.Entries() && e.1 == m && VariantOf(ex, e) == variant
  {
    if ex.Plain? {
      e := ("", m);
    } else {
      LookupListed(ex.table, variant.value);
      e := (variant.value, m);
    }
  }

  /** The check of every variant that can be selected. */
  predicate NeverReached(reg: Registry, specs: FlagTable, a: Action, help: bool)
    requires a.execution.Some?
  {
    var ex := a.execution.value;
    IsReadOnlyExecutable(reg, a) ==>
      forall e :: e in ex.Entries() && Selects(ex, VariantOf(ex, e), e.1) && KeyOf(e.1) in reg ==>
        NeverMeets(specs, Stops(specs, reg[KeyOf(e.1)], help), ex, VariantOf(ex, e), e.1)
  }

  lemma NeverReachedExact(reg: Registry, specs: FlagTable, a: Action, help: bool)
    requires a.execution.Some?
    ensures NeverReached(reg, specs, a, help) <==> Unreached(reg, specs, a, help)
  {
    var ex := a.execution.value;
    if IsReadOnlyExecutable(reg, a) {
      forall variant, m | Selects(ex, variant, m) && KeyOf(m) in reg
        ensures var stops := Stops(specs, reg[KeyOf(m)], help);
          NeverMeets(specs, stops, ex, variant, m) <==> Unreachable(specs, stops, ex, variant, m)
        ensures exists e :: e in ex.Entries() && e.1 == m && VariantOf(ex, e) == variant
      {
        var e := SelectedListed(ex, variant, m);
        NeverMeetsExact(specs, Stops(specs, reg[KeyOf(m)], help), ex, variant, m);
      }
    }
  }

  predicate NeverLost(reg: Registry, specs: FlagTable, a: Action)
    requires a.execution.Some?
  {
    var ex := a.execution.value;
    IsReadOnlyExecutable(reg, a) ==>
      forall e :: e in ex.Entries() && Selects(ex, VariantOf(ex, e), e.1) ==>
        NeverSwallows(specs, ex, VariantOf(ex, e), e.1)
  }

  lemma NeverLostExact(reg: Registry, specs: FlagTable, a: Action)
    requires a.execution.Some?
    ensures NeverLost(reg, specs, a) <==> KeepsTargets(reg, specs, a)
  {
    var ex := a.execution.value;
    if IsReadOnlyExecutable(reg, a) {
      forall variant, m | Selects(ex, variant, m)
        ensures NeverSwallows(specs, ex, variant, m) <==> KeepsTarget(specs, ex, variant, m)
        ensures exists e :: e in ex.Entries() && e.1 == m && VariantOf(ex, e) == variant
      {
        var e := SelectedListed(ex, variant, m);
        NeverSwallowsExact(specs, ex, variant, m);
      }
    }
  }

  /**
   * The checks decide what the seam theorems speak of, for all parameters, targets and directories: whether
   * every call is a typed read to the CLI, whether it reaches its handler as one, whether it keeps the target.
   */
  lemma ChecksDecide(cli: Cli, specs: FlagTable, actions: seq<Action>, a: Action)
    requires AllAccepted(cli.reg, actions) && a in actions && TablesAgree(cli, specs)
    ensures (forall p, target, cwd :: CallAgrees(cli, specs, actions, a, p, target, cwd))
       <==> NeverReached(cli.reg, specs, a, false)
    ensures (forall p, target, cwd :: CallHandled(cli, specs, actions, a, p, target, cwd))
       <==> NeverReached(cli.reg, specs, a, true)
    ensures (forall p, target, cwd :: CallKeepsTarget(cli.reg, specs, a, p, target, cwd))
       <==> NeverLost(cli.reg, specs, a)
  {
    SeamsAgree(cli, specs, actions, a);
    WriteFreeUnreached(cli.reg, specs, a);
    NeverReachedExact(cli.reg, specs, a, false);
    HandledExact(cli, specs, actions, a);
    NeverReachedExact(cli.reg, specs, a, true);
    TargetKeptExact(cli.reg, specs, a);
    NeverLostExact(cli.reg, specs, a);
  }
}
