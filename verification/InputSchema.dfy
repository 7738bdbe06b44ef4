/** scripts/amber-mcp.js: the input schema published for an Action Type, and what it promises buildCommand. */
module InputSchema {
  import opened Wrappers
  import opened Text
  import opened ActionContracts
  import opened ActionRuntime

  /** A declared parameter; an absent pattern is "". */
  datatype Parameter = Parameter(kind: string, required: bool, choices: Option<seq<string>>, pattern: string)

  type Declared = seq<(string, Parameter)>

  /** What the schema says of one property: `type`, `enum` and `pattern`. */
  datatype Property = Property(kind: string, choices: Option<seq<string>>, pattern: Option<string>)

  /** `if` the selector has this constant `then` these keys are required. */
  datatype Clause = Clause(variant: string, required: seq<string>)

  datatype Schema = Schema(properties: map<string, Property>, required: seq<string>, clauses: seq<Clause>)

  /** The pattern of a text that shows something. */
  const VISIBLE := "\\S"

  // ---- building the schema ----

  /** The sources a variant needs, other than its selector, in template order. */
  function RequiredOf(args: seq<Template>, selector: string): seq<string> {
    if args == [] then [] else
      var t := args[|args| - 1];
      RequiredOf(args[..|args| - 1], selector) +
      if t.HasSource() && !t.optional && SourceKey(t.source.value) != selector then [SourceKey(t.source.value)] else []
  }

  function Clauses(table: seq<(string, Mapping)>, selector: string): seq<Clause> {
    if table == [] then [] else
      var (variant, m) := table[|table| - 1];
      var required := RequiredOf(m.args, selector);
      Clauses(table[..|table| - 1], selector) + if required != [] then [Clause(variant, required)] else []
  }

  function RequiredNames(declared: Declared): seq<string> {
    if declared == [] then [] else
      var (key, def) := declared[|declared| - 1];
      RequiredNames(declared[..|declared| - 1]) + if def.required then [key] else []
  }

  /** The keys that some variant requires. */
  function NeededKeys(clauses: seq<Clause>): set<string> {
    set c, k | c in clauses && k in c.required :: k
  }

  function PropertyOf(key: string, def: Parameter, needed: set<string>): Property {
    Property(def.kind, def.choices,
             if def.pattern != "" then Some(def.pattern)
             else if (def.required || key in needed) && def.kind == "string" then Some(VISIBLE)
             else None)
  }

  function PropertiesOf(declared: Declared, needed: set<string>): map<string, Property> {
    if declared == [] then map[] else
      var (key, def) := declared[|declared| - 1];
      PropertiesOf(declared[..|declared| - 1], needed)[key := PropertyOf(key, def, needed)]
  }

  function Reserved(properties: map<string, Property>): map<string, Property> {
    properties["_target" := Property("string", None, None)]["_agent" := Property("string", None, None)]
  }

  function ClausesOf(ex: Execution): seq<Clause> {
    if ex.Variants? then Clauses(ex.table, ex.param) else []
  }

  function ToInputSchema(ex: Execution, declared: Declared): Schema {
    var clauses := ClausesOf(ex);
    Schema(Reserved(PropertiesOf(declared, NeededKeys(clauses))), RequiredNames(declared), clauses)
  }

  /** The loop over the declared parameters. */
  method BuildSchema(ex: Execution, declared: Declared) returns (schema: Schema)
    ensures schema == ToInputSchema(ex, declared)
  {
    var clauses := ClausesOf(ex);
    var requiredByVariant := NeededKeys(clauses);
    var properties: map<string, Property> := map[];
    var required: seq<string> := [];
    for i := 0 to |declared|
      invariant properties == PropertiesOf(declared[..i], requiredByVariant)
      invariant required == RequiredNames(declared[..i])
    {
      var (key, def) := declared[i];
      assert declared[..i + 1][..i] == declared[..i];
      var pattern: Option<string> := None;
      if def.pattern != "" {
        pattern := Some(def.pattern);
      } else if (def.required || key in requiredByVariant) && def.kind == "string" {
        pattern := Some(VISIBLE);
      }
      properties := properties[key := Property(def.kind, def.choices, pattern)];
      if def.required {
        required := required + [key];
      }
    }
    assert declared[..|declared|] == declared;
    schema := Schema(Reserved(properties), required, clauses);
  }

  // ---- validity: JSON Schema 2020-12, Core 10.2.2 (if/then) and Validation 6.5.3 (required) ----

  /** `test` stands for matching a pattern; null is no value of any type. */
  predicate Admits(p: Property, v: Value, test: (string, string) -> bool) {
    && !v.Null?
    && (p.kind == "string" ==> v.Str?)
    && (p.choices.Some? ==> v.Str? && v.text in p.choices.value)
    && (p.pattern.Some? && v.Str? ==> test(p.pattern.value, v.text))
  }

  ghost predicate ClauseHolds(c: Clause, selector: string, input: Parameters) {
    selector in input && input[selector] == Str(c.variant) ==> forall k :: k in c.required ==> k in input
  }

  ghost predicate Satisfies(schema: Schema, selector: string, input: Parameters, test: (string, string) -> bool) {
    && (forall k :: k in input ==> k in schema.properties && Admits(schema.properties[k], input[k], test))
    && (forall k :: k in schema.required ==> k in input)
    && (forall c :: c in schema.clauses ==> ClauseHolds(c, selector, input))
  }

  // ---- completeness ----

  /** The declared parameters are the properties of one object, none of them reserved. */
  ghost predicate OneObject(declared: Declared) {
    && (forall i, j :: 0 <= i < j < |declared| ==> declared[i].0 != declared[j].0)
    && (forall d :: d in declared ==> d.0 != "_target" && d.0 != "_agent")
  }

  lemma {:induction false} PropertyListed(declared: Declared, needed: set<string>, d: (string, Parameter))
    requires d in declared && forall i, j :: 0 <= i < j < |declared| ==> declared[i].0 != declared[j].0
    ensures d.0 in PropertiesOf(declared, needed) && PropertiesOf(declared, needed)[d.0] == PropertyOf(d.0, d.1, needed)
    decreases |declared|
  {
    var n := |declared| - 1;
    if d != declared[n] {
      assert d in declared[..n];
      PropertyListed(declared[..n], needed, d);
    }
  }

  /** The selector is a required parameter that enumerates variants of the table. */
  ghost predicate SelectorDeclared(ex: Execution, declared: Declared)
    requires ex.Variants?
  {
    exists d :: d in declared && d.0 == ex.param && d.1.required && d.1.choices.Some?
      && forall v :: v in d.1.choices.value ==> v != "" && Lookup(ex.table, v).Some?
  }

  lemma {:induction false} RequiredListed(declared: Declared, d: (string, Parameter))
    requires d in declared && d.1.required
    ensures d.0 in RequiredNames(declared)
    decreases |declared|
  {
    var n := |declared| - 1;
    if d != declared[n] {
      RequiredListed(declared[..n], d);
    }
  }

  lemma {:induction false} RequiredOfExact(args: seq<Template>, selector: string)
    ensures forall k :: k in RequiredOf(args, selector) <==>
      k != selector && exists t :: t in args && t.HasSource() && !t.optional && SourceKey(t.source.value) == k
    decreases |args|
  {
    if args != [] {
      var n := |args| - 1;
      RequiredOfExact(args[..n], selector);
      assert args == args[..n] + [args[n]];
    }
  }

  lemma {:induction false} ClauseListed(table: seq<(string, Mapping)>, selector: string, e: (string, Mapping))
    requires e in table && RequiredOf(e.1.args, selector) != []
    ensures Clause(e.0, RequiredOf(e.1.args, selector)) in Clauses(table, selector)
    decreases |table|
  {
    var n := |table| - 1;
    if e != table[n] {
      ClauseListed(table[..n], selector, e);
    }
  }

  /** An admitted input selects a variant by a text. */
  lemma SelectorAdmitted(ex: Execution, declared: Declared, input: Parameters, test: (string, string) -> bool)
    returns (m: Mapping)
    requires ex.Variants? && OneObject(declared) && SelectorDeclared(ex, declared)
    requires Satisfies(ToInputSchema(ex, declared), ex.param, input, test)
    ensures ResolveExecution(ex, input) == Ok(m)
    ensures input[ex.param].Str? && Lookup(ex.table, input[ex.param].text) == Some(m)
  {
    var needed := NeededKeys(ClausesOf(ex));
    var d :| d in declared && d.0 == ex.param && d.1.required && d.1.choices.Some?
      && forall v :: v in d.1.choices.value ==> v != "" && Lookup(ex.table, v).Some?;
    RequiredListed(declared, d);
    PropertyListed(declared, needed, d);
    assert ToInputSchema(ex, declared).properties[ex.param] == PropertyOf(d.0, d.1, needed);
    assert input[ex.param].Str? && input[ex.param].text in d.1.choices.value;
    m := Lookup(ex.table, input[ex.param].text).value;
  }

  /** The keys its clause requires of the selected variant are there, and are exactly its sources. */
  lemma SelectedSources(ex: Execution, declared: Declared, input: Parameters, test: (string, string) -> bool,
      m: Mapping)
    requires ex.Variants? && Satisfies(ToInputSchema(ex, declared), ex.param, input, test)
    requires ex.param in input && input[ex.param].Str? && Lookup(ex.table, input[ex.param].text) == Some(m)
    ensures forall t :: t in m.args && t.HasSource() && !t.optional ==>
      var k := SourceKey(t.source.value);
      k in input && !input[k].Null? && (k == ex.param || k in NeededKeys(ClausesOf(ex)))
  {
    var variant := input[ex.param].text;
    LookupListed(ex.table, variant);
    var required := RequiredOf(m.args, ex.param);
    RequiredOfExact(m.args, ex.param);
    if required != [] {
      ClauseListed(ex.table, ex.param, (variant, m));
      assert Clause(variant, required) in ToInputSchema(ex, declared).clauses;
      assert ClauseHolds(Clause(variant, required), ex.param, input);
    }
    forall t | t in m.args && t.HasSource() && !t.optional
      ensures var k := SourceKey(t.source.value);
        k in input && !input[k].Null? && (k == ex.param || k in NeededKeys(ClausesOf(ex)))
    {
      var k := SourceKey(t.source.value);
      assert k == ex.param || k in required;
    }
  }

  /** An admitted input selects a variant and supplies every source the variant needs. */
  lemma SelectedComplete(ex: Execution, declared: Declared, input: Parameters, test: (string, string) -> bool)
    requires ex.Variants? && OneObject(declared) && SelectorDeclared(ex, declared)
    requires Satisfies(ToInputSchema(ex, declared), ex.param, input, test)
    ensures ResolveExecution(ex, input).Ok?
    ensures Emit(ResolveExecution(ex, input).value.args, input).Built?
  {
    var m := SelectorAdmitted(ex, declared, input, test);
    SelectedSources(ex, declared, input, test, m);
    EmitComplete(m.args, input);
  }

  /**
   * A string parameter without a pattern of its own that the selected variant needs is not blank, even when
   * the declaration leaves it optional.
   */
  lemma SelectedVisible(ex: Execution, declared: Declared, input: Parameters, test: (string, string) -> bool,
                        t: Template, d: (string, Parameter))
    requires ex.Variants? && OneObject(declared) && SelectorDeclared(ex, declared)
    requires Satisfies(ToInputSchema(ex, declared), ex.param, input, test)
    requires forall s :: test(VISIBLE, s) ==> Trim(s) != ""
    requires ResolveExecution(ex, input).Ok? && t in ResolveExecution(ex, input).value.args && t.HasSource()
      && !t.optional
    requires d in declared && d.0 == SourceKey(t.source.value) && d.0 != ex.param && d.1.kind == "string"
      && d.1.pattern == ""
    ensures d.0 in input && input[d.0].Str? && Trim(input[d.0].text) != ""
  {
    var needed := NeededKeys(ClausesOf(ex));
    var m := SelectorAdmitted(ex, declared, input, test);
    SelectedSources(ex, declared, input, test, m);
    PropertyListed(declared, needed, d);
    assert ToInputSchema(ex, declared).properties[d.0] == PropertyOf(d.0, d.1, needed);
  }

  // ---- what is admitted, read off the declaration ----

  /** The value fits the declaration; a text that has to show something does, unless a pattern says otherwise. */
  predicate Fits(p: Parameter, visible: bool, v: Value, test: (string, string) -> bool) {
    && !v.Null?
    && (p.kind == "string" ==> v.Str?)
    && (p.choices.Some? ==> v.Str? && v.text in p.choices.value)
    && (v.Str? && p.pattern != "" ==> test(p.pattern, v.text))
    && (v.Str? && p.pattern == "" && p.kind == "string" && visible ==> test("\\S", v.text))
  }

  ghost predicate Sources(m: Mapping, key: string) {
    exists t :: t in m.args && t.HasSource() && !t.optional && SourceKey(t.source.value) == key
  }

  /** Some variant needs the parameter. */
  ghost predicate Demanded(ex: Execution, key: string) {
    ex.Variants? && key != ex.param && exists e :: e in ex.table && Sources(e.1, key)
  }

  lemma {:induction false} ClausesExact(table: seq<(string, Mapping)>, selector: string, c: Clause)
    ensures c in Clauses(table, selector) <==>
      exists e :: e in table && RequiredOf(e.1.args, selector) != []
        && c == Clause(e.0, RequiredOf(e.1.args, selector))
    decreases |table|
  {
    if table != [] {
      var n := |table| - 1;
      ClausesExact(table[..n], selector, c);
      assert table == table[..n] + [table[n]];
    }
  }

  lemma NeededExact(ex: Execution, key: string)
    ensures key in NeededKeys(ClausesOf(ex)) <==> Demanded(ex, key)
  {
    if ex.Variants? {
      var clauses := Clauses(ex.table, ex.param);
      forall e | e in ex.table ensures key in RequiredOf(e.1.args, ex.param) <==> key != ex.param && Sources(e.1, key) {
        RequiredOfExact(e.1.args, ex.param);
      }
      forall c | c in clauses && key in c.required ensures Demanded(ex, key) {
        ClausesExact(ex.table, ex.param, c);
      }
      forall e | e in ex.table && key in RequiredOf(e.1.args, ex.param)
        ensures Clause(e.0, RequiredOf(e.1.args, ex.param)) in clauses
      {
        ClauseListed(ex.table, ex.param, e);
      }
    }
  }

  lemma {:induction false} RequiredNamesExact(declared: Declared, key: string)
    ensures key in RequiredNames(declared) <==> exists d :: d in declared && d.0 == key && d.1.required
    decreases |declared|
  {
    if declared != [] {
      var n := |declared| - 1;
      RequiredNamesExact(declared[..n], key);
      assert declared == declared[..n] + [declared[n]];
    }
  }

  lemma {:induction false} PropertyKeys(declared: Declared, needed: set<string>, key: string)
    ensures key in PropertiesOf(declared, needed) <==> exists d :: d in declared && d.0 == key
    decreases |declared|
  {
    if declared != [] {
      var n := |declared| - 1;
      PropertyKeys(declared[..n], needed, key);
      assert declared == declared[..n] + [declared[n]];
    }
  }

  /** One property of the schema admits what its declaration says. */
  lemma DeclaredAdmits(ex: Execution, declared: Declared, d: (string, Parameter), v: Value,
      test: (string, string) -> bool)
    requires OneObject(declared) && d in declared
    ensures var p := ToInputSchema(ex, declared).properties;
      d.0 in p && (Admits(p[d.0], v, test) <==> Fits(d.1, d.1.required || Demanded(ex, d.0), v, test))
  {
    PropertyListed(declared, NeededKeys(ClausesOf(ex)), d);
    NeededExact(ex, d.0);
  }

  /** Every value is admitted by its declaration; the two reserved keys take any text. */
  ghost predicate ValuesFit(ex: Execution, declared: Declared, input: Parameters, test: (string, string) -> bool) {
    && (forall k :: k in input ==> k in ["_target", "_agent"] || exists d :: d in declared && d.0 == k)
    && (forall k :: k in input && k in ["_target", "_agent"] ==> input[k].Str?)
    && (forall d :: d in declared && d.0 in input ==>
      Fits(d.1, d.1.required || Demanded(ex, d.0), input[d.0], test))
  }

  ghost predicate NothingMissing(ex: Execution, declared: Declared, input: Parameters) {
    && (forall d :: d in declared && d.1.required ==> d.0 in input)
    && (ex.Variants? && ex.param in input ==> forall e :: e in ex.table && input[ex.param] == Str(e.0) ==>
      forall key :: Sources(e.1, key) ==> key in input)
  }

  lemma ValuesExact(ex: Execution, declared: Declared, input: Parameters, test: (string, string) -> bool)
    requires OneObject(declared)
    ensures ValuesFit(ex, declared, input, test) <==>
      var p := ToInputSchema(ex, declared).properties;
      forall k :: k in input ==> k in p && Admits(p[k], input[k], test)
  {
    var p := ToInputSchema(ex, declared).properties;
    forall k | k in input
      ensures k in p <==> k in ["_target", "_agent"] || exists d :: d in declared && d.0 == k
      ensures k in ["_target", "_agent"] ==> (Admits(p[k], input[k], test) <==> input[k].Str?)
    {
      PropertyKeys(declared, NeededKeys(ClausesOf(ex)), k);
    }
    forall d | d in declared && d.0 in input
      ensures d.0 in p
      ensures Admits(p[d.0], input[d.0], test) <==> Fits(d.1, d.1.required || Demanded(ex, d.0), input[d.0], test)
    {
      DeclaredAdmits(ex, declared, d, input[d.0], test);
    }
  }

  lemma ClausesHold(ex: Execution, input: Parameters)
    requires ex.Variants?
    ensures (forall c :: c in ClausesOf(ex) ==> ClauseHolds(c, ex.param, input)) <==>
      (ex.param in input ==> forall e :: e in ex.table && input[ex.param] == Str(e.0) ==>
        forall key :: Sources(e.1, key) ==> key in input)
  {
    var clauses := ClausesOf(ex);
    forall e | e in ex.table && ex.param in input && input[ex.param] == Str(e.0)
      ensures (forall key :: Sources(e.1, key) ==> key in input)
        <==> ClauseHolds(Clause(e.0, RequiredOf(e.1.args, ex.param)), ex.param, input)
      ensures RequiredOf(e.1.args, ex.param) != [] ==> Clause(e.0, RequiredOf(e.1.args, ex.param)) in clauses
    {
      RequiredOfExact(e.1.args, ex.param);
      if RequiredOf(e.1.args, ex.param) != [] {
        ClauseListed(ex.table, ex.param, e);
      }
    }
    forall c | c in clauses
      ensures exists e :: e in ex.table && c == Clause(e.0, RequiredOf(e.1.args, ex.param))
    {
      ClausesExact(ex.table, ex.param, c);
    }
  }

  /** What the published schema admits, said of the declaration alone. */
  lemma AdmittedExact(ex: Execution, declared: Declared, selector: string, input: Parameters,
      test: (string, string) -> bool)
    requires OneObject(declared) && (ex.Variants? ==> selector == ex.param)
    ensures Satisfies(ToInputSchema(ex, declared), selector, input, test)
      <==> ValuesFit(ex, declared, input, test) && NothingMissing(ex, declared, input)
  {
    ValuesExact(ex, declared, input, test);
    forall key ensures key in RequiredNames(declared) <==> exists d :: d in declared && d.0 == key && d.1.required {
      RequiredNamesExact(declared, key);
    }
    if ex.Variants? {
      ClausesHold(ex, input);
    }
  }

  /**
   * Schema completeness: for a variant action with a declared selector, every input the published
   * schema admits is one from which the command can be built.
   */
  method BuildFromAdmitted(ex: Execution, declared: Declared, input: Parameters, test: (string, string) -> bool)
    returns (r: Result<seq<Option<string>>, Failure>)
    requires ex.Variants? && OneObject(declared) && SelectorDeclared(ex, declared)
    requires Satisfies(ToInputSchema(ex, declared), ex.param, input, test)
    ensures r.Ok?
  {
    SelectedComplete(ex, declared, input, test);
    r := BuildCommand(ex, input);
  }
}
