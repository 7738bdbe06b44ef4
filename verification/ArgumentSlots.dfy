/** scripts/lib/mcp-action-runtime.js: which texts an Action Type can put where on a command line. */
module ArgumentSlots {
  import opened Wrappers
  import opened Text
  import opened ActionContracts
  import opened ActionRuntime

  // ---- the shape of the argument vector ----

  /** The text the last template places in a slot; None when no template fills the slot. */
  function LastPlaced(args: seq<Template>, p: Parameters, i: nat): Option<Option<string>> {
    if args == [] then None else
      var step := StepOf(args[|args| - 1], p);
      if step.Place? && step.position == i then Some(step.text) else LastPlaced(args[..|args| - 1], p, i)
  }

  /** A slot of the positional array holds what was placed there last, or is a hole. */
  lemma {:induction false} SlotsExact(args: seq<Template>, p: Parameters, i: nat)
    requires Emit(args, p).Built?
    ensures var slots, placed := Emit(args, p).positional, LastPlaced(args, p, i);
      if placed.Some? then i < |slots| && slots[i] == placed.value else i < |slots| ==> slots[i] == None
    decreases |args|
  {
    if args != [] {
      SlotsExact(args[..|args| - 1], p, i);
    }
  }

  /** The array is as long as the highest filled position needs. */
  lemma {:induction false} LastSlotFilled(args: seq<Template>, p: Parameters)
    requires Emit(args, p).Built?
    ensures var slots := Emit(args, p).positional;
      slots != [] ==> LastPlaced(args, p, |slots| - 1).Some?
    decreases |args|
  {
    if args != [] {
      LastSlotFilled(args[..|args| - 1], p);
    }
  }

  predicate FilledWithText(args: seq<Template>, p: Parameters, i: nat) {
    var placed := LastPlaced(args, p, i);
    placed.Some? && placed.value.Some?
  }

  /** No holes exactly when every slot up to a filled one is filled with a text. */
  lemma NoHolesExact(args: seq<Template>, p: Parameters)
    requires Emit(args, p).Built?
    ensures (forall i :: 0 <= i < |Emit(args, p).positional| ==> Emit(args, p).positional[i].Some?)
      <==> (forall i: nat, j: nat :: i <= j && LastPlaced(args, p, j).Some? ==> FilledWithText(args, p, i))
  {
    var slots := Emit(args, p).positional;
    forall i: nat ensures i < |slots| && slots[i].Some? <==> FilledWithText(args, p, i) {
      SlotsExact(args, p, i);
    }
    forall j: nat | LastPlaced(args, p, j).Some? ensures j < |slots| {
      SlotsExact(args, p, j);
    }
    LastSlotFilled(args, p);
    if slots != [] && forall i: nat, j: nat :: i <= j && LastPlaced(args, p, j).Some? ==> FilledWithText(args, p, i) {
      forall i | 0 <= i < |slots| ensures slots[i].Some? {
        assert i <= |slots| - 1 && LastPlaced(args, p, |slots| - 1).Some?;
        assert FilledWithText(args, p, i);
      }
    }
  }

  // ---- what the templates alone decide ----

  /** The last template with this position. */
  function SlotTemplate(args: seq<Template>, i: nat): Option<Template> {
    if args == [] then None
    else if args[|args| - 1].position == Some(i) then Some(args[|args| - 1])
    else SlotTemplate(args[..|args| - 1], i)
  }

  lemma {:induction false} SlotTemplateListed(args: seq<Template>, i: nat)
    requires SlotTemplate(args, i).Some?
    ensures SlotTemplate(args, i).value in args && SlotTemplate(args, i).value.position == Some(i)
    decreases |args|
  {
    var n := |args| - 1;
    if args[n].position != Some(i) {
      SlotTemplateListed(args[..n], i);
    } else {
      assert args[n] in args;
    }
  }

  /** A slot whose last template has its text holds that text. */
  lemma {:induction false} PlacedByTemplate(args: seq<Template>, p: Parameters, i: nat)
    requires Emit(args, p).Built? && SlotTemplate(args, i).Some?
    requires var t := SlotTemplate(args, i).value; t.HasSource() ==> ParamText(p, SourceKey(t.source.value)).Some?
    ensures var t := SlotTemplate(args, i).value;
      LastPlaced(args, p, i) == Some(if t.HasSource() then ParamText(p, SourceKey(t.source.value)) else t.value)
    decreases |args|
  {
    var n := |args| - 1;
    if args[n].position != Some(i) {
      PlacedByTemplate(args[..n], p, i);
    }
  }

  lemma {:induction false} PlacedHasTemplate(args: seq<Template>, p: Parameters, i: nat)
    requires LastPlaced(args, p, i).Some?
    ensures SlotTemplate(args, i).Some?
    decreases |args|
  {
    var n := |args| - 1;
    if args[n].position != Some(i) {
      PlacedHasTemplate(args[..n], p, i);
    }
  }

  /** The parameter that selects the variant. */
  function Selector(ex: Execution): Option<string> {
    if ex.Plain? then None else Some(ex.param)
  }

  predicate FromSelector(selector: Option<string>, t: Template) {
    t.HasSource() && selector == Some(SourceKey(t.source.value))
  }

  /** The slot cannot hold a stop: its literal and its variant's name are none, and no caller fills it. */
  predicate TameSlot(stops: set<string>, selector: Option<string>, variant: Option<string>, t: Template) {
    if !t.HasSource() then t.value.Some? ==> t.value.value !in stops
    else if FromSelector(selector, t) then variant.Some? ==> variant.value !in stops
    else stops == {}
  }

  /** No template of the variant pushes a stop as a flag or can place one as a positional. */
  ghost predicate Tame(stops: set<string>, selector: Option<string>, variant: Option<string>, args: seq<Template>) {
    && (forall t :: t in args && t.position.None? && t.flag.Some? ==> t.flag.value !in stops)
    && (forall i: nat ::
      SlotTemplate(args, i).Some? ==> TameSlot(stops, selector, variant, SlotTemplate(args, i).value))
  }

  /** No stop stands where a parser may take it for a flag: among the positionals or the pushed flags. */
  predicate NoStop(stops: set<string>, b: Build)
    requires b.Built?
  {
    && (forall x :: x in b.bindings && x.flag.Some? ==> x.flag.value !in stops)
    && (forall i :: 0 <= i < |b.positional| && b.positional[i].Some? ==> b.positional[i].value !in stops)
  }

  lemma SlotIsTame(stops: set<string>, ex: Execution, m: Mapping, p: Parameters, i: nat)
    requires ResolveExecution(ex, p) == Ok(m) && Emit(m.args, p).Built? && stops != {}
    requires Tame(stops, Selector(ex), SelectedName(ex, p), m.args)
    requires i < |Emit(m.args, p).positional| && Emit(m.args, p).positional[i].Some?
    ensures Emit(m.args, p).positional[i].value !in stops
  {
    SlotsExact(m.args, p, i);
    PlacedHasTemplate(m.args, p, i);
    var t := SlotTemplate(m.args, i).value;
    assert TameSlot(stops, Selector(ex), SelectedName(ex, p), t);
    PlacedByTemplate(m.args, p, i);
  }

  lemma TameEmits(stops: set<string>, ex: Execution, m: Mapping, p: Parameters)
    requires ResolveExecution(ex, p) == Ok(m) && Emit(m.args, p).Built?
    requires Tame(stops, Selector(ex), SelectedName(ex, p), m.args)
    ensures NoStop(stops, Emit(m.args, p))
  {
    var b := Emit(m.args, p);
    if stops != {} {
      forall x | x in b.bindings && x.flag.Some? ensures x.flag.value !in stops {
        var t := BindingOrigin(m.args, p, x);
      }
      forall i | 0 <= i < |b.positional| && b.positional[i].Some? ensures b.positional[i].value !in stops {
        SlotIsTame(stops, ex, m, p, i);
      }
    }
  }

  /** Parameters that select a variant and give every other source the same text. */
  function Filled(ex: Execution, variant: Option<string>, m: Mapping, text: string): Parameters {
    var keys := set t | t in m.args && t.HasSource() :: SourceKey(t.source.value);
    var sources := map k | k in keys :: Str(text);
    if ex.Variants? && variant.Some? then sources[ex.param := Other(variant.value, true)] else sources
  }

  lemma FilledTexts(ex: Execution, variant: Option<string>, m: Mapping, text: string)
    requires Selects(ex, variant, m)
    ensures var p := Filled(ex, variant, m, text);
      && ResolveExecution(ex, p) == Ok(m) && SelectedName(ex, p) == variant
      && (forall t :: t in m.args && t.HasSource() ==>
            ParamText(p, SourceKey(t.source.value)) == if FromSelector(Selector(ex), t) then variant else Some(text))
      && Emit(m.args, p).Built?
  {
    var p := Filled(ex, variant, m, text);
    forall t | t in m.args && t.HasSource()
      ensures ParamText(p, SourceKey(t.source.value)) == if FromSelector(Selector(ex), t) then variant else Some(text)
    {
      assert SourceKey(t.source.value) in p;
    }
    EmitComplete(m.args, p);
  }

  /** With every source filled, each slot with a template holds its text. */
  lemma FilledSlot(ex: Execution, variant: Option<string>, m: Mapping, text: string, i: nat)
    requires Selects(ex, variant, m) && SlotTemplate(m.args, i).Some?
    ensures Emit(m.args, Filled(ex, variant, m, text)).Built?
    ensures var t := SlotTemplate(m.args, i).value;
      var slots := Emit(m.args, Filled(ex, variant, m, text)).positional;
      && i < |slots|
      && slots[i] == if !t.HasSource() then t.value else if FromSelector(Selector(ex), t) then variant else Some(text)
  {
    var p := Filled(ex, variant, m, text);
    FilledTexts(ex, variant, m, text);
    SlotTemplateListed(m.args, i);
    PlacedByTemplate(m.args, p, i);
    SlotsExact(m.args, p, i);
  }

  lemma FilledFlag(ex: Execution, variant: Option<string>, m: Mapping, text: string, t: Template) returns (x: Binding)
    requires Selects(ex, variant, m) && t in m.args && t.position.None?
    ensures Emit(m.args, Filled(ex, variant, m, text)).Built?
    ensures x in Emit(m.args, Filled(ex, variant, m, text)).bindings && x.flag == t.flag
  {
    var p := Filled(ex, variant, m, text);
    FilledTexts(ex, variant, m, text);
    var key := if t.HasSource() then SourceKey(t.source.value) else "";
    x := if t.flagOnly then Alone(t.flag) else Valued(t.flag, if t.HasSource() then ParamText(p, key) else t.value);
    BindingEmitted(m.args, p, t, x);
  }

  lemma UntameEmits(stops: set<string>, ex: Execution, variant: Option<string>, m: Mapping, stop: string)
    requires Selects(ex, variant, m) && stop in stops && !Tame(stops, Selector(ex), variant, m.args)
    ensures Emit(m.args, Filled(ex, variant, m, stop)).Built?
    ensures !NoStop(stops, Emit(m.args, Filled(ex, variant, m, stop)))
  {
    FilledTexts(ex, variant, m, stop);
    if t :| t in m.args && t.position.None? && t.flag.Some? && t.flag.value in stops {
      var x := FilledFlag(ex, variant, m, stop, t);
    } else {
      var i: nat :| SlotTemplate(m.args, i).Some?
        && !TameSlot(stops, Selector(ex), variant, SlotTemplate(m.args, i).value);
      FilledSlot(ex, variant, m, stop, i);
    }
  }

  /**
   * Whatever the parameters, no stop is emitted where it may be read as a flag, exactly when no template of
   * the variant pushes or can place one.
   */
  lemma TameExact(stops: set<string>, ex: Execution, variant: Option<string>, m: Mapping)
    requires Selects(ex, variant, m)
    ensures Tame(stops, Selector(ex), variant, m.args)
       <==> forall p :: ResolveExecution(ex, p) == Ok(m) && SelectedName(ex, p) == variant && Emit(m.args, p).Built? ==>
              NoStop(stops, Emit(m.args, p))
  {
    if Tame(stops, Selector(ex), variant, m.args) {
      forall p | ResolveExecution(ex, p) == Ok(m) && SelectedName(ex, p) == variant && Emit(m.args, p).Built?
        ensures NoStop(stops, Emit(m.args, p))
      {
        TameEmits(stops, ex, m, p);
      }
    } else {
      var stop :| stop in stops;
      FilledTexts(ex, variant, m, stop);
      UntameEmits(stops, ex, variant, m, stop);
    }
  }
}
