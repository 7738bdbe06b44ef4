/** scripts/lib/canonical-artifact-commands.js: the --trace grammar, read back from what was written. */
module TraceGrammar {
  import opened Wrappers
  import opened Text

  datatype Syntax = Malformed

  datatype Trace = Trace(kind: string, target: Option<string>, identity: string, revision: Option<nat>)

  // ---- decimal numbers ----

  function Digit(n: nat): char
    requires n < 10
  {
    ('0' as int + n) as char
  }

  function Decimal(n: nat): string {
    if n < 10 then [Digit(n)] else Decimal(n / 10) + [Digit(n % 10)]
  }

  function NumberOf(s: string): nat
    requires forall i :: 0 <= i < |s| ==> IsDigit(s[i])
  {
    if s == "" then 0 else
      assert IsDigit(s[|s| - 1]);
      NumberOf(s[..|s| - 1]) * 10 + (s[|s| - 1] as int - '0' as int)
  }

  lemma {:induction false} DecimalReads(n: nat)
    ensures AllDigits(Decimal(n)) && NumberOf(Decimal(n)) == n
    decreases n
  {
    if n >= 10 {
      DecimalReads(n / 10);
      assert Decimal(n)[..|Decimal(n)| - 1] == Decimal(n / 10);
    } else {
      assert [Digit(n)][..0] == "";
    }
  }

  // ---- parsing ----

  /** The identity and its pinned revision: what follows the last `@`, when that is all digits. */
  function ParseReference(text: string): Result<(string, Option<nat>), Syntax> {
    var at := LastOf(text, '@');
    if at != -1 && AllDigits(text[at + 1..]) then
      if NumberOf(text[at + 1..]) < 1 || at == 0 then Error(Malformed)
      else Ok((text[..at], Some(NumberOf(text[at + 1..]))))
    else if text == "" then Error(Malformed)
    else Ok((text, None))
  }

  /** What follows the trace type, for a type that does or does not declare its target type. */
  function ParseTarget(kind: string, rest: string, declared: bool): Result<Trace, Syntax> {
    if !declared then WithReference(kind, None, rest) else
      var inner := Cut(rest, ':');
      if inner.None? then Error(Malformed) else WithReference(kind, Some(inner.value.0), inner.value.1)
  }

  function WithReference(kind: string, target: Option<string>, text: string): Result<Trace, Syntax> {
    var reference := ParseReference(text);
    if reference.Error? then Error(Malformed) else Ok(Trace(kind, target, reference.value.0, reference.value.1))
  }

  /** One --trace value; `declares` tells which trace types name their target type. */
  function ParseTrace(raw: string, declares: string -> bool): Result<Trace, Syntax> {
    var outer := Cut(raw, ':');
    if outer.None? then Error(Malformed) else ParseTarget(outer.value.0, outer.value.1, declares(outer.value.0))
  }

  function ParseTraces(raws: seq<string>, declares: string -> bool): Result<seq<Trace>, Syntax> {
    if raws == [] then Ok([]) else
      var before := ParseTraces(raws[..|raws| - 1], declares);
      var last := ParseTrace(raws[|raws| - 1], declares);
      if before.Error? || last.Error? then Error(Malformed) else Ok(before.value + [last.value])
  }

  lemma {:induction false} OneMalformed(raws: seq<string>, declares: string -> bool, i: nat)
    requires i < |raws| && ParseTrace(raws[i], declares).Error?
    ensures ParseTraces(raws, declares).Error?
    decreases |raws|
  {
    var n := |raws| - 1;
    if i < n {
      OneMalformed(raws[..n], declares, i);
    }
  }

  /** Every flag gives the trace at its own place. */
  ghost predicate GiveAll(raws: seq<string>, ts: seq<Trace>, declares: string -> bool) {
    |raws| == |ts| && forall i :: 0 <= i < |raws| ==> ParseTrace(raws[i], declares) == Ok(ts[i])
  }

  lemma GiveAllStep(raws: seq<string>, ts: seq<Trace>, declares: string -> bool)
    requires raws != [] && |raws| == |ts|
    ensures var n := |raws| - 1;
      GiveAll(raws, ts, declares)
      <==> GiveAll(raws[..n], ts[..n], declares) && ParseTrace(raws[n], declares) == Ok(ts[n])
  {
    var n := |raws| - 1;
    assert forall i :: 0 <= i < n ==> raws[..n][i] == raws[i] && ts[..n][i] == ts[i];
  }

  /** A list of flags gives a list of traces when each flag gives the trace at its place. */
  lemma {:induction false} TracesExact(raws: seq<string>, ts: seq<Trace>, declares: string -> bool)
    ensures ParseTraces(raws, declares) == Ok(ts) <==> GiveAll(raws, ts, declares)
    decreases |raws|
  {
    if raws != [] && ts != [] {
      var n, m := |raws| - 1, |ts| - 1;
      assert ts == ts[..m] + [ts[m]];
      TracesExact(raws[..n], ts[..m], declares);
      if n == m {
        GiveAllStep(raws, ts, declares);
      }
    }
  }

  method ParseTraceFlags(raws: seq<string>, declares: string -> bool) returns (r: Result<seq<Trace>, Syntax>)
    ensures r == ParseTraces(raws, declares)
  {
    var traces: seq<Trace> := [];
    for k := 0 to |raws|
      invariant ParseTraces(raws[..k], declares) == Ok(traces)
    {
      assert raws[..k + 1][..k] == raws[..k];
      var one := ParseTraceFlag(raws[k], declares);
      if one.Error? {
        OneMalformed(raws, declares, k);
        return Error(Malformed);
      }
      traces := traces + [one.value];
    }
    assert raws[..|raws|] == raws;
    return Ok(traces);
  }

  /** The loop body, for one value. */
  method ParseTraceFlag(raw: string, declares: string -> bool) returns (r: Result<Trace, Syntax>)
    ensures r == ParseTrace(raw, declares)
  {
    var colon := FirstOf(raw, ':');
    if colon <= 0 || colon == |raw| - 1 {
      return Error(Malformed);
    }
    var kind := raw[..colon];
    var rest := raw[colon + 1..];
    r := ParseTraceTarget(kind, rest, declares(kind));
  }

  /** The declared target type, then the reference. */
  method ParseTraceTarget(kind: string, text: string, declares: bool) returns (r: Result<Trace, Syntax>)
    ensures r == ParseTarget(kind, text, declares)
  {
    var rest := text;
    var declared: Option<string> := None;
    if declares {
      var second := FirstOf(rest, ':');
      if second <= 0 || second == |rest| - 1 {
        return Error(Malformed);
      }
      declared := Some(rest[..second]);
      rest := rest[second + 1..];
    }
    var reference := ParseIdentity(rest);
    r := if reference.Error? then Error(Malformed) else Ok(Trace(kind, declared, reference.value.0, reference.value.1));
  }

  /** The end of the loop body: the identity and its revision. */
  method ParseIdentity(rest: string) returns (r: Result<(string, Option<nat>), Syntax>)
    ensures r == ParseReference(rest)
  {
    var identity := rest;
    var revision: Option<nat> := None;
    var at := LastOf(identity, '@');
    if at != -1 {
      var revisionText := identity[at + 1..];
      if AllDigits(revisionText) {
        if NumberOf(revisionText) < 1 {
          return Error(Malformed);
        }
        revision := Some(NumberOf(revisionText));
        identity := identity[..at];
      }
    }
    r := if |identity| == 0 then Error(Malformed) else Ok((identity, revision));
  }

  // ---- printing and reading back ----

  function PrintReference(identity: string, revision: Option<nat>): string {
    if revision.Some? then identity + "@" + Decimal(revision.value) else identity
  }

  function PrintTrace(t: Trace): string {
    t.kind + ":" + ((if t.target.Some? then t.target.value + ":" else "") + PrintReference(t.identity, t.revision))
  }

  /** A trace the grammar is meant for. */
  predicate WellFormed(t: Trace, declares: string -> bool) {
    && t.kind != "" && Free(t.kind, ':')
    && (t.target.Some? <==> declares(t.kind))
    && (t.target.Some? ==> t.target.value != "" && Free(t.target.value, ':'))
    && t.identity != ""
    && (t.revision.Some? ==> t.revision.value >= 1)
  }

  /** The identity itself ends in `@` and digits. */
  predicate EndsLikeRevision(identity: string) {
    var at := LastOf(identity, '@');
    at != -1 && AllDigits(identity[at + 1..])
  }

  lemma LastAt(identity: string, digits: string)
    requires AllDigits(digits)
    ensures var s := identity + "@" + digits;
      LastOf(s, '@') == |identity| && s[|identity| + 1..] == digits && s[..|identity|] == identity
  {
    var s := identity + "@" + digits;
    assert s[|identity|] == '@';
    assert forall j :: |identity| < j < |s| ==> s[j] == digits[j - |identity| - 1];
  }

  lemma ReferenceRoundTrip(identity: string, revision: Option<nat>)
    requires identity != "" && (revision.Some? ==> revision.value >= 1)
    ensures ParseReference(PrintReference(identity, revision)) == Ok((identity, revision))
       <==> revision.Some? || !EndsLikeRevision(identity)
  {
    if revision.Some? {
      DecimalReads(revision.value);
      LastAt(identity, Decimal(revision.value));
    }
  }

  /** A pinned trace, or one whose identity does not end like a revision. */
  predicate ReadsBack(t: Trace) {
    t.revision.Some? || !EndsLikeRevision(t.identity)
  }

  /** A printed trace reads back as itself, except an unpinned identity that ends like a revision. */
  lemma TraceRoundTrip(t: Trace, declares: string -> bool)
    requires WellFormed(t, declares)
    ensures ParseTrace(PrintTrace(t), declares) == Ok(t) <==> ReadsBack(t)
  {
    ReferenceRoundTrip(t.identity, t.revision);
    ParsePrinted(t.kind, t.target, PrintReference(t.identity, t.revision), declares);
  }

  function Printed(ts: seq<Trace>): (raws: seq<string>) {
    seq(|ts|, i requires 0 <= i < |ts| => PrintTrace(ts[i]))
  }

  /** A list of printed traces reads back as itself, in order, if and only if each of them does. */
  lemma TracesRoundTrip(ts: seq<Trace>, declares: string -> bool)
    requires forall i :: 0 <= i < |ts| ==> WellFormed(ts[i], declares)
    ensures ParseTraces(Printed(ts), declares) == Ok(ts) <==> forall i :: 0 <= i < |ts| ==> ReadsBack(ts[i])
  {
    TracesExact(Printed(ts), ts, declares);
    forall i | 0 <= i < |ts| ensures ParseTrace(Printed(ts)[i], declares) == Ok(ts[i]) <==> ReadsBack(ts[i]) {
      TraceRoundTrip(ts[i], declares);
    }
  }

  /** The parts in front of the reference are found whatever the reference is. */
  lemma ParsePrinted(kind: string, target: Option<string>, reference: string, declares: string -> bool)
    requires kind != "" && Free(kind, ':') && reference != "" && (target.Some? <==> declares(kind))
    requires target.Some? ==> target.value != "" && Free(target.value, ':')
    ensures var r := ParseReference(reference);
      ParseTrace(kind + ":" + ((if target.Some? then target.value + ":" else "") + reference), declares)
      == if r.Error? then Error(Malformed) else Ok(Trace(kind, target, r.value.0, r.value.1))
  {
    var rest := (if target.Some? then target.value + ":" else "") + reference;
    CutJoined(kind, rest, ':');
    if target.Some? {
      CutJoined(target.value, reference, ':');
    } else {
      assert rest == reference;
    }
  }

  /** Whatever is accepted is well formed. */
  lemma AcceptedIsWellFormed(raw: string, declares: string -> bool)
    ensures var r := ParseTrace(raw, declares); r.Ok? ==> WellFormed(r.value, declares)
  {
    var r := ParseTrace(raw, declares);
    if r.Ok? {
      FreeUpTo(raw, FirstOf(raw, ':'), ':');
      var rest := raw[FirstOf(raw, ':') + 1..];
      if declares(r.value.kind) {
        FreeUpTo(rest, FirstOf(rest, ':'), ':');
      }
    }
  }
}
