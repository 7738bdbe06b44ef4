/** scripts/lib/core/cli-output.js: which tokens of a command line are read as flags, and what that binds. */
module ParsedFlags {
  import opened Wrappers
  import opened Lists
  import opened ActionContracts
  import opened CliSeam

  /** The tokens read as flags: known ones that are not the value of a flag before them, and that have a value. */
  function FlagsRead(line: seq<string>, specs: FlagTable): seq<string>
    decreases |line|
  {
    if line == [] then []
    else if line[0] !in specs then FlagsRead(line[1..], specs)
    else if specs[line[0]].boolean then [line[0]] + FlagsRead(line[1..], specs)
    else if |line| == 1 then []
    else [line[0]] + FlagsRead(line[2..], specs)
  }

  /** The tokens read as positionals: neither flags nor values. */
  function PositionalsRead(line: seq<string>, specs: FlagTable): seq<string>
    decreases |line|
  {
    if line == [] then []
    else if line[0] !in specs then [line[0]] + PositionalsRead(line[1..], specs)
    else if specs[line[0]].boolean then PositionalsRead(line[1..], specs)
    else if |line| == 1 then []
    else PositionalsRead(line[2..], specs)
  }

  /** The last token is no flag, so every flag in front of it has its value. */
  predicate Closed(line: seq<string>, specs: FlagTable) {
    line == [] || line[|line| - 1] !in specs
  }

  predicate Sets(spec: FlagSpec, key: string) {
    spec.key == key || (!spec.boolean && spec.accumulate == Some(key))
  }

  predicate BoundIn(args: Args, key: string) {
    key in args.keys && args.keys[key].Bound()
  }

  predicate SomeSets(flags: seq<string>, specs: FlagTable, key: string) {
    exists f :: f in flags && f in specs && Sets(specs[f], key)
  }

  lemma SetValueBinds(args: Args, spec: FlagSpec, value: string, key: string)
    requires !spec.boolean
    ensures BoundIn(SetValue(args, spec, Some(value)), key) <==> BoundIn(args, key) || Sets(spec, key)
  {
  }

  lemma SomeSetsCons(f: string, flags: seq<string>, specs: FlagTable, key: string)
    requires f in specs
    ensures SomeSets([f] + flags, specs, key) <==> Sets(specs[f], key) || SomeSets(flags, specs, key)
  {
    assert f in [f] + flags;
    assert forall g :: g in [f] + flags <==> g == f || g in flags;
  }

  /** A key ends up bound exactly when it was, or a flag that sets it is read. */
  lemma {:induction false} BoundExact(line: seq<string>, specs: FlagTable, args: Args, key: string)
    requires Closed(line, specs)
    ensures BoundIn(ParseArgs(line, specs, args), key)
      <==> BoundIn(args, key) || SomeSets(FlagsRead(line, specs), specs, key)
    decreases |line|
  {
    if line != [] {
      if line[0] !in specs {
        BoundExact(line[1..], specs, args.(positional := args.positional + [line[0]]), key);
      } else if specs[line[0]].boolean {
        BoundExact(line[1..], specs, args.(keys := args.keys[specs[line[0]].key := Flag(true)]), key);
        SomeSetsCons(line[0], FlagsRead(line[1..], specs), specs, key);
      } else if |line| > 1 {
        BoundExact(line[2..], specs, SetValue(args, specs[line[0]], Some(line[1])), key);
        SetValueBinds(args, specs[line[0]], line[1], key);
        SomeSetsCons(line[0], FlagsRead(line[2..], specs), specs, key);
      }
    }
  }

  lemma {:induction false} FlagsReadKnown(line: seq<string>, specs: FlagTable)
    ensures forall f :: f in FlagsRead(line, specs) ==> f in specs && f in line
    decreases |line|
  {
    if line != [] {
      assert line == [line[0]] + line[1..];
      if line[0] !in specs || specs[line[0]].boolean {
        FlagsReadKnown(line[1..], specs);
      } else if |line| > 1 {
        FlagsReadKnown(line[2..], specs);
        assert line == [line[0], line[1]] + line[2..];
      }
    }
  }

  lemma {:induction false} PositionalsExact(line: seq<string>, specs: FlagTable, args: Args)
    ensures ParseArgs(line, specs, args).positional == args.positional + PositionalsRead(line, specs)
    ensures forall t :: t in PositionalsRead(line, specs) ==> t !in specs
    decreases |line|
  {
    if line == [] {
    } else if line[0] !in specs {
      PositionalsExact(line[1..], specs, args.(positional := args.positional + [line[0]]));
      Associative(args.positional, [line[0]], PositionalsRead(line[1..], specs));
    } else if specs[line[0]].boolean {
      PositionalsExact(line[1..], specs, args.(keys := args.keys[specs[line[0]].key := Flag(true)]));
    } else if |line| > 1 {
      PositionalsExact(line[2..], specs, SetValue(args, specs[line[0]], Some(line[1])));
    }
  }

  // ---- reading a line piece by piece ----

  /** Tokens that are no flags are read as positionals. */
  lemma {:induction false} ReadPlain(ps: seq<string>, rest: seq<string>, specs: FlagTable)
    requires forall t :: t in ps ==> t !in specs
    ensures FlagsRead(ps + rest, specs) == FlagsRead(rest, specs)
    ensures PositionalsRead(ps + rest, specs) == ps + PositionalsRead(rest, specs)
    decreases |ps|
  {
    if ps == [] {
      assert ps + rest == rest;
    } else {
      assert ps[0] in ps;
      assert (ps + rest)[1..] == ps[1..] + rest;
      ReadPlain(ps[1..], rest, specs);
      assert ps == [ps[0]] + ps[1..];
      Associative([ps[0]], ps[1..], PositionalsRead(rest, specs));
    }
  }

  /** The first flag of a line is read, when something follows it. */
  lemma ReadFirst(ps: seq<string>, f: string, rest: seq<string>, specs: FlagTable)
    requires forall t :: t in ps ==> t !in specs
    requires f in specs && rest != []
    ensures f in FlagsRead(ps + [f] + rest, specs)
  {
    var line := [f] + rest;
    assert ps + [f] + rest == ps + line;
    ReadPlain(ps, line, specs);
    assert line[1..] == rest && line[2..] == rest[1..];
  }

  // ---- the values ----

  /** What one flag of the line reads: that it is there, or the token behind it, if there is one. */
  datatype Reading = Raised(flag: string) | Reads(flag: string, value: Option<string>)

  function Readings(line: seq<string>, specs: FlagTable): seq<Reading>
    decreases |line|
  {
    if line == [] then []
    else if line[0] !in specs then Readings(line[1..], specs)
    else if specs[line[0]].boolean then [Raised(line[0])] + Readings(line[1..], specs)
    else if |line| == 1 then [Reads(line[0], None)]
    else [Reads(line[0], Some(line[1]))] + Readings(line[2..], specs)
  }

  /** The value of the last reading of a flag with this key. */
  function LastRead(readings: seq<Reading>, specs: FlagTable, key: string): Option<ArgValue> {
    if readings == [] then None else
      var later := LastRead(readings[1..], specs, key);
      var r := readings[0];
      if later.Some? || r.flag !in specs || specs[r.flag].key != key then later
      else match r
        case Raised(_) => Some(Flag(true))
        case Reads(_, value) => Some(if value.None? then Missing else Text(value.value))
  }

  /** The values of all readings that are collected under this key, in order. */
  function Collected(readings: seq<Reading>, specs: FlagTable, key: string): seq<Option<string>> {
    if readings == [] then [] else
      var r := readings[0];
      (if r.Reads? && r.flag in specs && specs[r.flag].accumulate == Some(key) then [r.value] else [])
      + Collected(readings[1..], specs, key)
  }

  /** No flag collects values under this key. */
  predicate NoCollector(specs: FlagTable, key: string) {
    forall f :: f in specs ==> specs[f].accumulate != Some(key)
  }

  /** A key holds what its last flag on the line says, or else what it held before. */
  lemma {:induction false} LastReadExact(line: seq<string>, specs: FlagTable, args: Args, key: string)
    requires NoCollector(specs, key)
    ensures var last, keys := LastRead(Readings(line, specs), specs, key), ParseArgs(line, specs, args).keys;
      if last.Some? then key in keys && keys[key] == last.value
      else (key in keys <==> key in args.keys) && (key in keys ==> keys[key] == args.keys[key])
    decreases |line|
  {
    if line != [] {
      if line[0] !in specs {
        LastReadExact(line[1..], specs, args.(positional := args.positional + [line[0]]), key);
      } else if specs[line[0]].boolean {
        LastReadExact(line[1..], specs, args.(keys := args.keys[specs[line[0]].key := Flag(true)]), key);
      } else if |line| > 1 {
        LastReadExact(line[2..], specs, SetValue(args, specs[line[0]], Some(line[1])), key);
      } else {
        assert Readings(line, specs)[1..] == [];
      }
    }
  }

  /** The list under the key, which is empty while there is no such key. */
  predicate HoldsList(args: Args, key: string, list: seq<Option<string>>) {
    if key in args.keys then args.keys[key] == Many(list) else list == []
  }

  /** No flag sets this key itself. */
  predicate OnlyCollects(specs: FlagTable, key: string) {
    forall f :: f in specs ==> specs[f].key != key
  }

  lemma CollectOne(args: Args, spec: FlagSpec, value: Option<string>, key: string, list: seq<Option<string>>)
    requires spec.key != key && HoldsList(args, key, list)
    ensures HoldsList(SetValue(args, spec, value), key, list + if spec.accumulate == Some(key) then [value] else [])
  {
    assert list + [] == list;
    assert [] + [value] == [value];
  }

  /** Behind the list a key held stand the values of its flags on the line, in order. */
  lemma {:induction false} CollectedExact(line: seq<string>, specs: FlagTable, args: Args, key: string,
      list: seq<Option<string>>)
    requires OnlyCollects(specs, key) && HoldsList(args, key, list)
    ensures HoldsList(ParseArgs(line, specs, args), key, list + Collected(Readings(line, specs), specs, key))
    decreases |line|
  {
    if line == [] {
      assert list + [] == list;
    } else if line[0] !in specs {
      CollectedExact(line[1..], specs, args.(positional := args.positional + [line[0]]), key, list);
    } else if specs[line[0]].boolean {
      CollectedExact(line[1..], specs, args.(keys := args.keys[specs[line[0]].key := Flag(true)]), key, list);
      var rest := Collected(Readings(line[1..], specs), specs, key);
      assert [] + rest == rest;
    } else {
      CollectValued(line, specs, args, key, list);
    }
  }

  lemma {:induction false} CollectValued(line: seq<string>, specs: FlagTable, args: Args, key: string,
      list: seq<Option<string>>)
    requires OnlyCollects(specs, key) && HoldsList(args, key, list)
    requires line != [] && line[0] in specs && !specs[line[0]].boolean
    ensures HoldsList(ParseArgs(line, specs, args), key, list + Collected(Readings(line, specs), specs, key))
    decreases |line|, 0
  {
    var spec := specs[line[0]];
    var value := if |line| > 1 then Some(line[1]) else None;
    var one := if spec.accumulate == Some(key) then [value] else [];
    CollectOne(args, spec, value, key, list);
    if |line| > 1 {
      var rest := Collected(Readings(line[2..], specs), specs, key);
      CollectedExact(line[2..], specs, SetValue(args, spec, value), key, list + one);
      Associative(list, one, rest);
    } else {
      assert Readings(line, specs)[1..] == [] && one + [] == one;
    }
  }

  /** What no flag on the line says: the working directory as the target, plain output, no dry run, and no more. */
  lemma DefaultsStand(line: seq<string>, specs: FlagTable, cwd: string, key: string)
    requires NoCollector(specs, key) && LastRead(Readings(line, specs), specs, key).None?
    ensures var keys := ParseArgs(line, specs, Defaults(cwd)).keys;
      && (key in keys <==> key in ["target", "json", "dryRun"])
      && (key == "target" ==> keys[key] == ArgValue.Text(cwd))
      && (key in ["json", "dryRun"] ==> keys[key] == Flag(false))
  {
    LastReadExact(line, specs, Defaults(cwd), key);
  }
}
