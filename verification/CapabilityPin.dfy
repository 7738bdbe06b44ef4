/** scripts/lib/breakglass-commands.js: the --capability grammar. */
module CapabilityPin {
  import opened Wrappers
  import opened Text
  import opened TraceGrammar

  datatype Pin =
    | Runner(runnerId: string, runnerVersion: string, name: string, capabilityVersion: string)
    | External(id: string, version: string)

  const RUNNER := "runner:"
  const EXTERNAL := "external:"

  function Print(p: Pin): string {
    match p
    case Runner(id, v, name, cv) => "runner:" + (id + "@" + (v + "/" + (name + "@" + cv)))
    case External(id, v) => "external:" + (id + "@" + v)
  }

  /** The character classes of the two patterns. */
  predicate Fits(p: Pin) {
    match p
    case Runner(id, v, name, cv) =>
      && id != "" && Free(id, '@') && v != "" && Free(v, '/')
      && name != "" && Free(name, '@') && cv != "" && Free(cv, '@') && Free(cv, '/')
    case External(id, v) => id != "" && Free(id, '@') && v != "" && Free(v, '@') && Free(v, '/')
  }

  /** `([^@]+)@([^@/]+)` over the whole text. */
  function NameAtVersion(s: string): Option<(string, string)> {
    var parts := Cut(s, '@');
    if parts.Some? && Free(parts.value.1, '@') && Free(parts.value.1, '/') then parts else None
  }

  function ParseRunner(s: string): Option<Pin> {
    var outer := Cut(s, '@');
    if outer.None? then None else
      var middle := Cut(outer.value.1, '/');
      if middle.None? then None else
        var inner := NameAtVersion(middle.value.1);
        if inner.None? then None else Some(Runner(outer.value.0, middle.value.0, inner.value.0, inner.value.1))
  }

  function ParseExternal(s: string): Option<Pin> {
    var parts := NameAtVersion(s);
    if parts.None? then None else Some(External(parts.value.0, parts.value.1))
  }

  /** The two patterns, tried in this order. */
  function ParseCapabilityPin(raw: string): Option<Pin> {
    var runner := if StartsWith(raw, RUNNER) then ParseRunner(raw[|RUNNER|..]) else None;
    if runner.Some? then runner
    else if StartsWith(raw, EXTERNAL) then ParseExternal(raw[|EXTERNAL|..])
    else None
  }

  lemma CutParts(s: string, c: char)
    ensures var r := Cut(s, c);
      r.Some? ==> s == r.value.0 + [c] + r.value.1 && r.value.0 != "" && r.value.1 != "" && Free(r.value.0, c)
  {
    var i := FirstOf(s, c);
    if i > 0 {
      FreeUpTo(s, i, c);
    }
  }

  lemma PrefixDropped(prefix: string, s: string)
    ensures prefix <= prefix + s && (prefix + s)[|prefix|..] == s
  {
  }

  lemma RunnerPrinted(p: Pin)
    requires p.Runner? && Fits(p)
    ensures ParseCapabilityPin(Print(p)) == Some(p)
  {
    var inner := p.name + "@" + p.capabilityVersion;
    var middle := p.runnerVersion + "/" + inner;
    var s := p.runnerId + "@" + middle;
    CutJoined(p.name, p.capabilityVersion, '@');
    CutJoined(p.runnerVersion, inner, '/');
    CutJoined(p.runnerId, middle, '@');
    assert ParseRunner(s) == Some(p);
    PrefixDropped(RUNNER, s);
  }

  lemma ExternalPrinted(p: Pin)
    requires p.External? && Fits(p)
    ensures ParseCapabilityPin(Print(p)) == Some(p)
  {
    var s := p.id + "@" + p.version;
    CutJoined(p.id, p.version, '@');
    PrefixDropped(EXTERNAL, s);
    assert Print(p)[0] == 'e' && RUNNER[0] == 'r';
  }

  lemma RunnerParsed(raw: string)
    requires StartsWith(raw, RUNNER) && ParseRunner(raw[|RUNNER|..]).Some?
    ensures var p := ParseRunner(raw[|RUNNER|..]).value; Fits(p) && Print(p) == raw
  {
    var s := raw[|RUNNER|..];
    CutParts(s, '@');
    var middle := Cut(s, '@').value.1;
    CutParts(middle, '/');
    CutParts(Cut(middle, '/').value.1, '@');
    assert raw == RUNNER + s;
  }

  lemma ExternalParsed(raw: string)
    requires StartsWith(raw, EXTERNAL) && ParseExternal(raw[|EXTERNAL|..]).Some?
    ensures var p := ParseExternal(raw[|EXTERNAL|..]).value; Fits(p) && Print(p) == raw
  {
    var s := raw[|EXTERNAL|..];
    CutParts(s, '@');
    assert raw == EXTERNAL + s;
  }

  /** A pin is returned exactly when the text is its printed form: the decomposition is unique. */
  lemma PinExact(raw: string, p: Pin)
    ensures ParseCapabilityPin(raw) == Some(p) <==> Fits(p) && Print(p) == raw
  {
    if Fits(p) && Print(p) == raw {
      if p.Runner? { RunnerPrinted(p); } else { ExternalPrinted(p); }
    }
    if ParseCapabilityPin(raw) == Some(p) {
      if p.Runner? { RunnerParsed(raw); } else { ExternalParsed(raw); }
    }
  }
}
