/** scripts/lib/gate-writer.js and scripts/backfill-gates.js: gate files are written once. */
module GateBackfill {
  import opened Wrappers

  /** Absent JSON properties are "", which the source treats like absent ones. */
  datatype Gate = Gate(id: string, kind: string, description: string)
  datatype Stage = Stage(name: string, gateAfter: string)
  datatype Route = Route(gates: seq<Gate>, stages: seq<Stage>)
  datatype Manifest = Manifest(sessionId: string, routeId: string, createdAt: string)
  datatype Event = Event(kind: string, gateId: Option<string>, timestamp: string)

  datatype Definition = Definition(
    gateId: string, sessionId: string, kind: string, stage: string, description: string, triggeredAt: string)
  datatype Decision = Decision(decision: string, resolvedAt: string, resolvedBy: string, reason: string)

  function Or(s: string, fallback: string): string {
    if s == "" then fallback else s
  }

  predicate IsIdChar(c: char) {
    'a' <= c <= 'z' || 'A' <= c <= 'Z' || '0' <= c <= '9' || c == '_' || c == '-'
  }

  predicate IsValidGateId(id: string) {
    id != "" && forall i :: 0 <= i < |id| ==> IsIdChar(id[i])
  }

  // ---- writing files that are not there ----

  /** The files after offering these contents in order: each valid name that is still free is taken. */
  function Fill<V>(files: map<string, V>, offers: seq<(string, V)>): map<string, V>
    decreases |offers|
  {
    if offers == [] then files else Fill(Offer(files, offers[0]), offers[1..])
  }

  function Offer<V>(files: map<string, V>, offer: (string, V)): map<string, V> {
    if IsValidGateId(offer.0) && offer.0 !in files then files[offer.0 := offer.1] else files
  }

  /** How many of the offers are written. */
  function Written<V>(files: map<string, V>, offers: seq<(string, V)>): nat
    decreases |offers|
  {
    if offers == [] then 0 else
      (if IsValidGateId(offers[0].0) && offers[0].0 !in files then 1 else 0)
        + Written(Offer(files, offers[0]), offers[1..])
  }

  /** How many of the offers name no existing file: what a dry run counts. */
  function Planned<V>(files: map<string, V>, offers: seq<(string, V)>): nat
    decreases |offers|
  {
    if offers == [] then 0 else (if offers[0].0 !in files then 1 else 0) + Planned(files, offers[1..])
  }

  /** The first content offered under a name. */
  function FirstOffer<V>(offers: seq<(string, V)>, id: string): Option<V> {
    if offers == [] then None else if offers[0].0 == id then Some(offers[0].1) else FirstOffer(offers[1..], id)
  }

  /** Exactly which file holds what: existing ones as before, new ones the first valid offer. */
  lemma {:induction false} FillExact<V>(files: map<string, V>, offers: seq<(string, V)>, id: string)
    ensures var filled := Fill(files, offers);
      if id in files then id in filled && filled[id] == files[id]
      else if IsValidGateId(id) && FirstOffer(offers, id).Some? then
        id in filled && filled[id] == FirstOffer(offers, id).value
      else id !in filled
    decreases |offers|
  {
    if offers != [] {
      FillExact(Offer(files, offers[0]), offers[1..], id);
    }
  }

  /** A second round of offers under the same names writes nothing. */
  lemma {:induction false} NothingLeftToFill<V>(files: map<string, V>, offers: seq<(string, V)>)
    requires forall i :: 0 <= i < |offers| && IsValidGateId(offers[i].0) ==> offers[i].0 in files
    ensures Fill(files, offers) == files && Written(files, offers) == 0
    decreases |offers|
  {
    if offers != [] {
      NothingLeftToFill(files, offers[1..]);
    }
  }

  function Names<V>(offers: seq<(string, V)>): seq<string> {
    seq(|offers|, i requires 0 <= i < |offers| => offers[i].0)
  }

  lemma {:induction false} OfferFound<V>(offers: seq<(string, V)>, i: nat)
    requires i < |offers|
    ensures FirstOffer(offers, offers[i].0).Some?
    decreases |offers|
  {
    if offers[0].0 != offers[i].0 {
      OfferFound(offers[1..], i - 1);
    }
  }

  lemma FillTwice<V>(files: map<string, V>, offers: seq<(string, V)>, again: seq<(string, V)>)
    requires Names(offers) == Names(again)
    ensures Fill(Fill(files, offers), again) == Fill(files, offers)
    ensures Written(Fill(files, offers), again) == 0
  {
    forall i | 0 <= i < |again| && IsValidGateId(again[i].0) ensures again[i].0 in Fill(files, offers) {
      assert Names(offers)[i] == Names(again)[i];
      OfferFound(offers, i);
      FillExact(files, offers, again[i].0);
    }
    NothingLeftToFill(Fill(files, offers), again);
  }

  // ---- dry-run counts against real ones ----

  function Occurrences<V>(offers: seq<(string, V)>, id: string): nat {
    if offers == [] then 0 else (if offers[0].0 == id then 1 else 0) + Occurrences(offers[1..], id)
  }

  lemma {:induction false} PlannedAfterWrite<V>(files: map<string, V>, offers: seq<(string, V)>, id: string, v: V)
    requires id !in files
    ensures Planned(files, offers) == Planned(files[id := v], offers) + Occurrences(offers, id)
    decreases |offers|
  {
    if offers != [] {
      PlannedAfterWrite(files, offers[1..], id, v);
    }
  }

  lemma {:induction false} OccurrencesZero<V>(offers: seq<(string, V)>, id: string)
    ensures Occurrences(offers, id) == 0 <==> forall i :: 0 <= i < |offers| ==> offers[i].0 != id
    decreases |offers|
  {
    if offers != [] {
      OccurrencesZero(offers[1..], id);
      assert forall i :: 0 < i < |offers| ==> offers[i] == offers[1..][i - 1];
    }
  }

  /** Every name without a file is valid and offered once. */
  ghost predicate MissingAreDistinct<V>(files: map<string, V>, offers: seq<(string, V)>) {
    forall i :: 0 <= i < |offers| && offers[i].0 !in files ==>
      IsValidGateId(offers[i].0) && forall j :: 0 <= j < |offers| && j != i ==> offers[j].0 != offers[i].0
  }

  /** A dry run never counts too few, and counts right exactly when the missing names are valid and distinct. */
  lemma {:induction false} PlanExact<V>(files: map<string, V>, offers: seq<(string, V)>)
    ensures Planned(files, offers) >= Written(files, offers)
    ensures Planned(files, offers) == Written(files, offers) <==> MissingAreDistinct(files, offers)
    decreases |offers|
  {
    if offers != [] {
      var id, v, rest := offers[0].0, offers[0].1, offers[1..];
      assert forall i :: 0 < i < |offers| ==> offers[i] == rest[i - 1];
      assert forall i :: 0 <= i < |rest| ==> rest[i] == offers[i + 1];
      if id in files {
        PlanExact(files, rest);
        assert MissingAreDistinct(files, offers) <==> MissingAreDistinct(files, rest);
      } else if !IsValidGateId(id) {
        PlanExact(files, rest);
        assert !MissingAreDistinct(files, offers);
      } else {
        PlanExact(files[id := v], rest);
        PlannedAfterWrite(files, rest, id, v);
        OccurrencesZero(rest, id);
        assert MissingAreDistinct(files, offers) <==>
          MissingAreDistinct(files[id := v], rest) && Occurrences(rest, id) == 0;
      }
    }
  }

  // ---- the stage and approval lookups ----

  function StageOf(stages: seq<Stage>, id: string): Option<string> {
    if stages == [] then None
    else if stages[0].gateAfter == id && id != "" then Some(stages[0].name)
    else StageOf(stages[1..], id)
  }

  function FirstApproval(events: seq<Event>, id: string): Option<string> {
    if events == [] then None
    else if events[0].kind == "gate_passed" && events[0].gateId == Some(id) then Some(events[0].timestamp)
    else FirstApproval(events[1..], id)
  }

  function Lookup(m: map<string, string>, id: string): Option<string> {
    if id in m then Some(m[id]) else None
  }

  method BuildGateStageMap(stages: seq<Stage>) returns (m: map<string, string>)
    ensures forall id :: Lookup(m, id) == StageOf(stages, id)
  {
    m := map[];
    for i := 0 to |stages|
      invariant forall id :: StageOf(stages, id) == if id in m then Some(m[id]) else StageOf(stages[i..], id)
    {
      assert stages[i..][1..] == stages[i + 1..];
      if stages[i].gateAfter == "" || stages[i].gateAfter in m {
        continue;
      }
      m := m[stages[i].gateAfter := stages[i].name];
    }
    assert stages[|stages|..] == [];
  }

  method ApprovedGatesFromTimeline(events: seq<Event>) returns (m: map<string, string>)
    ensures forall id :: Lookup(m, id) == FirstApproval(events, id)
  {
    m := map[];
    for i := 0 to |events|
      invariant forall id ::
        FirstApproval(events, id) == if id in m then Some(m[id]) else FirstApproval(events[i..], id)
    {
      var e := events[i];
      assert events[i..][1..] == events[i + 1..];
      if e.kind != "gate_passed" || e.gateId.None? || e.gateId.value in m {
        continue;
      }
      m := m[e.gateId.value := e.timestamp];
    }
    assert events[|events|..] == [];
  }

  // ---- one session ----

  function DefinitionOf(g: Gate, sessionId: string, stage: Option<string>, createdAt: string, now: string): Definition {
    Definition(g.id, sessionId, Or(g.kind, "user-approval"),
               Or(if stage.Some? then stage.value else "", "unknown"), g.description, Or(createdAt, now))
  }

  function DefinitionOffers(route: Route, gates: seq<Gate>, m: Manifest, now: string): seq<(string, Definition)> {
    seq(|gates|, i requires 0 <= i < |gates| =>
      (gates[i].id, DefinitionOf(gates[i], m.sessionId, StageOf(route.stages, gates[i].id), m.createdAt, now)))
  }

  function DecisionOffers(gates: seq<Gate>, events: seq<Event>, now: string): seq<(string, Decision)> {
    if gates == [] then [] else
      var at := FirstApproval(events, gates[0].id);
      var rest := DecisionOffers(gates[1..], events, now);
      if at.Some? then [(gates[0].id, Decision("approved", Or(at.value, now), "human", ""))] + rest else rest
  }

  datatype Stats = Stats(gatesWritten: nat, decisionsWritten: nat, skipped: bool)

  /** The route to work on, unless the session is skipped. */
  function RouteToFill(manifest: Option<Manifest>, routes: map<string, Route>): Option<Route> {
    if manifest.None? || manifest.value.routeId == "" || manifest.value.routeId !in routes then None else
      var route := routes[manifest.value.routeId];
      if route.gates == [] then None else Some(route)
  }

  // ---- what the files hold afterwards, told from manifest, route and timeline ----

  /** There is nothing to fill in: no manifest, no route id, an unknown route, or one without gates. */
  predicate NothingToFill(manifest: Option<Manifest>, routes: map<string, Route>) {
    || manifest.None? || manifest.value.routeId == "" || manifest.value.routeId !in routes
    || routes[manifest.value.routeId].gates == []
  }

  /** A text of ASCII digits, letters, `-` (45) and `_` (95). */
  predicate IsFileName(id: string) {
    id != "" && forall c :: c in id ==>
      var n := c as int;
      48 <= n <= 57 || 65 <= n <= 90 || 97 <= n <= 122 || n == 45 || n == 95
  }

  /** The stage is the first that names the gate. */
  ghost predicate FirstStage(stages: seq<Stage>, id: string, name: string) {
    exists k :: 0 <= k < |stages| && stages[k] == Stage(name, id)
      && forall j :: 0 <= j < k ==> stages[j].gateAfter != id
  }

  /** The gate is the first of its id. */
  ghost predicate FirstGate(gates: seq<Gate>, g: Gate) {
    exists k :: 0 <= k < |gates| && gates[k] == g && forall j :: 0 <= j < k ==> gates[j].id != g.id
  }

  ghost predicate Declared(gates: seq<Gate>, id: string) {
    exists g :: g in gates && g.id == id
  }

  /** The gate was first passed at this time. */
  ghost predicate FirstPassed(events: seq<Event>, id: string, at: string) {
    exists k :: 0 <= k < |events| && events[k] == Event("gate_passed", Some(id), at)
      && forall j :: 0 <= j < k ==> !(events[j].kind == "gate_passed" && events[j].gateId == Some(id))
  }

  ghost predicate Passed(events: seq<Event>, id: string) {
    exists e :: e in events && e.kind == "gate_passed" && e.gateId == Some(id)
  }

  /** A pending definition of the gate, made from its route and the manifest. */
  ghost predicate IsPending(d: Definition, route: Route, m: Manifest, now: string, g: Gate) {
    && d.gateId == g.id && d.sessionId == m.sessionId && d.description == g.description
    && d.kind == (if g.kind == "" then "user-approval" else g.kind)
    && d.triggeredAt == (if m.createdAt == "" then now else m.createdAt)
    && (forall name :: FirstStage(route.stages, g.id, name) ==> d.stage == if name == "" then "unknown" else name)
    && ((forall s :: s in route.stages ==> s.gateAfter != g.id) ==> d.stage == "unknown")
  }

  ghost predicate DefinitionsFilled(route: Route, m: Manifest, now: string, before: map<string, Definition>,
      after: map<string, Definition>)
  {
    && (forall id :: id in after <==> id in before || (IsFileName(id) && Declared(route.gates, id)))
    && (forall id :: id in before ==> after[id] == before[id])
    && (forall g :: FirstGate(route.gates, g) && g.id in after && g.id !in before ==>
          IsPending(after[g.id], route, m, now, g))
  }

  ghost predicate DecisionsFilled(route: Route, events: seq<Event>, now: string, before: map<string, Decision>,
      after: map<string, Decision>)
  {
    && (forall id :: id in after <==>
          id in before || (IsFileName(id) && Declared(route.gates, id) && Passed(events, id)))
    && (forall id :: id in before ==> after[id] == before[id])
    && (forall id, at :: id in after && id !in before && FirstPassed(events, id, at) ==>
          after[id] == Decision("approved", if at == "" then now else at, "human", ""))
  }

  class SessionDirectory {
    var definitions: map<string, Definition>
    var decisions: map<string, Decision>

    constructor (definitions: map<string, Definition>, decisions: map<string, Decision>)
      ensures this.definitions == definitions && this.decisions == decisions
    {
      this.definitions := definitions;
      this.decisions := decisions;
    }

    method WriteGateDefinition(id: string, content: Definition) returns (written: bool)
      modifies this`definitions
      ensures definitions == Offer(old(definitions), (id, content))
      ensures written <==> IsValidGateId(id) && id !in old(definitions)
    {
      if !IsValidGateId(id) || id in definitions {
        return false;
      }
      definitions := definitions[id := content];
      return true;
    }

    method WriteGateDecision(id: string, content: Decision) returns (written: bool)
      modifies this`decisions
      ensures decisions == Offer(old(decisions), (id, content))
      ensures written <==> IsValidGateId(id) && id !in old(decisions)
    {
      if !IsValidGateId(id) || id in decisions {
        return false;
      }
      decisions := decisions[id := content];
      return true;
    }

    /** At session creation: every gate the route declares, as pending. */
    method WriteRouteGates(route: Route, m: Manifest, now: string) returns (written: nat)
      modifies this`definitions
      ensures var offers := DefinitionOffers(route, route.gates, m, now);
        definitions == Fill(old(definitions), offers) && written == Written(old(definitions), offers)
    {
      written := 0;
      ghost var offers := DefinitionOffers(route, route.gates, m, now);
      var stageMap := BuildGateStageMap(route.stages);
      for i := 0 to |route.gates|
        invariant Fill(definitions, offers[i..]) == Fill(old(definitions), offers)
        invariant written + Written(definitions, offers[i..]) == Written(old(definitions), offers)
      {
        var gate := route.gates[i];
        assert offers[i..][1..] == offers[i + 1..];
        assert Lookup(stageMap, gate.id) == StageOf(route.stages, gate.id);
        var one := WriteGateDefinition(gate.id,
          DefinitionOf(gate, m.sessionId, Lookup(stageMap, gate.id), m.createdAt, now));
        if one {
          written := written + 1;
        }
      }
      assert offers[|route.gates|..] == [];
    }

    method BackfillSession(manifest: Option<Manifest>, routes: map<string, Route>, events: seq<Event>, now: string)
      returns (stats: Stats)
      modifies this
      ensures var r := RouteToFill(manifest, routes);
        if r.None? then stats == Stats(0, 0, true) && definitions == old(definitions) && decisions == old(decisions)
        else
          var defs := DefinitionOffers(r.value, r.value.gates, manifest.value, now);
          var decs := DecisionOffers(r.value.gates, events, now);
          && definitions == Fill(old(definitions), defs) && decisions == Fill(old(decisions), decs)
          && stats == Stats(Written(old(definitions), defs), Written(old(decisions), decs), false)
      ensures stats.skipped <==> NothingToFill(manifest, routes)
      ensures stats.skipped ==> definitions == old(definitions) && decisions == old(decisions)
      ensures !stats.skipped ==>
        var m, route := manifest.value, routes[manifest.value.routeId];
        && DefinitionsFilled(route, m, now, old(definitions), definitions)
        && DecisionsFilled(route, events, now, old(decisions), decisions)
      ensures stats.gatesWritten == |definitions| - |old(definitions)|
      ensures stats.decisionsWritten == |decisions| - |old(decisions)|
    {
      var r := RouteToFill(manifest, routes);
      if r.None? {
        return Stats(0, 0, true);
      }
      var gates := r.value.gates;
      var stageMap := BuildGateStageMap(r.value.stages);
      var approvals := ApprovedGatesFromTimeline(events);
      ghost var defs := DefinitionOffers(r.value, gates, manifest.value, now);
      ghost var decs := DecisionOffers(gates, events, now);
      var gatesWritten, decisionsWritten := 0, 0;
      for i := 0 to |gates|
        invariant Fill(definitions, defs[i..]) == Fill(old(definitions), defs)
        invariant gatesWritten + Written(definitions, defs[i..]) == Written(old(definitions), defs)
        invariant Fill(decisions, DecisionOffers(gates[i..], events, now)) == Fill(old(decisions), decs)
        invariant decisionsWritten + Written(decisions, DecisionOffers(gates[i..], events, now))
          == Written(old(decisions), decs)
      {
        var gate := gates[i];
        assert defs[i..][1..] == defs[i + 1..] && gates[i..][1..] == gates[i + 1..];
        assert Lookup(stageMap, gate.id) == StageOf(r.value.stages, gate.id);
        assert Lookup(approvals, gate.id) == FirstApproval(events, gate.id);
        if gate.id !in definitions {
          var content := DefinitionOf(gate, manifest.value.sessionId, Lookup(stageMap, gate.id),
            manifest.value.createdAt, now);
          var written := WriteGateDefinition(gate.id, content);
          if written {
            gatesWritten := gatesWritten + 1;
          }
        }
        if gate.id in approvals {
          OneDecision(gates[i..], events, now, decisions);
          if gate.id !in decisions {
            var written := WriteGateDecision(gate.id, Decision("approved", Or(approvals[gate.id], now), "human", ""));
            if written {
              decisionsWritten := decisionsWritten + 1;
            }
          }
        }
      }
      assert defs[|gates|..] == [] && gates[|gates|..] == [];
      stats := Stats(gatesWritten, decisionsWritten, false);
      DefinitionsExact(r.value, manifest.value, now, old(definitions));
      DecisionsExact(r.value, events, now, old(decisions));
      WrittenCounts(old(definitions), defs);
      WrittenCounts(old(decisions), decs);
    }

    method PlanSession(manifest: Option<Manifest>, routes: map<string, Route>, events: seq<Event>, now: string)
      returns (stats: Stats)
      ensures var r := RouteToFill(manifest, routes);
        if r.None? then stats == Stats(0, 0, true)
        else stats == Stats(Planned(definitions, DefinitionOffers(r.value, r.value.gates, manifest.value, now)),
                            Planned(decisions, DecisionOffers(r.value.gates, events, now)), false)
      ensures stats.skipped <==> NothingToFill(manifest, routes)
    {
      var r := RouteToFill(manifest, routes);
      if r.None? {
        return Stats(0, 0, true);
      }
      var gates := r.value.gates;
      var approvals := ApprovedGatesFromTimeline(events);
      ghost var defs := DefinitionOffers(r.value, gates, manifest.value, now);
      ghost var decs := DecisionOffers(gates, events, now);
      var gatesWritten, decisionsWritten := 0, 0;
      for i := 0 to |gates|
        invariant gatesWritten + Planned(definitions, defs[i..]) == Planned(definitions, defs)
        invariant decisionsWritten + Planned(decisions, DecisionOffers(gates[i..], events, now))
          == Planned(decisions, decs)
      {
        var gate := gates[i];
        assert defs[i..][1..] == defs[i + 1..] && gates[i..][1..] == gates[i + 1..];
        assert Lookup(approvals, gate.id) == FirstApproval(events, gate.id);
        if gate.id !in definitions {
          gatesWritten := gatesWritten + 1;
        }
        if gate.id in approvals {
          OneDecision(gates[i..], events, now, decisions);
          if gate.id !in decisions {
            decisionsWritten := decisionsWritten + 1;
          }
        }
      }
      assert defs[|gates|..] == [] && gates[|gates|..] == [];
      stats := Stats(gatesWritten, decisionsWritten, false);
    }
  }

  lemma FileNameExact(id: string)
    ensures IsValidGateId(id) <==> IsFileName(id)
  {
    assert forall i :: 0 <= i < |id| ==> id[i] in id;
  }

  /** What is counted as written is what is there in addition. */
  lemma {:induction false} WrittenCounts<V>(files: map<string, V>, offers: seq<(string, V)>)
    ensures |Fill(files, offers)| == |files| + Written(files, offers)
    decreases |offers|
  {
    if offers != [] {
      WrittenCounts(Offer(files, offers[0]), offers[1..]);
    }
  }

  lemma {:induction false} StageExact(stages: seq<Stage>, id: string)
    requires id != ""
    ensures if StageOf(stages, id).Some? then FirstStage(stages, id, StageOf(stages, id).value)
            else forall s :: s in stages ==> s.gateAfter != id
    ensures StageOf(stages, id).Some? ==> exists s :: s in stages && s.gateAfter == id
    decreases |stages|
  {
    if stages != [] {
      StageExact(stages[1..], id);
      assert stages == [stages[0]] + stages[1..];
      if stages[0].gateAfter == id {
        assert stages[0] == Stage(stages[0].name, id);
      } else if StageOf(stages[1..], id).Some? {
        var name := StageOf(stages, id).value;
        var k :| 0 <= k < |stages| - 1 && stages[1..][k] == Stage(name, id)
          && forall j :: 0 <= j < k ==> stages[1..][j].gateAfter != id;
        assert stages[k + 1] == Stage(name, id);
        assert forall j :: 0 <= j < k + 1 ==> stages[j].gateAfter != id by {
          assert forall j :: 0 < j < k + 1 ==> stages[j] == stages[1..][j - 1];
        }
      }
    }
  }

  lemma OneFirstStage(stages: seq<Stage>, id: string, a: string, b: string)
    requires FirstStage(stages, id, a) && FirstStage(stages, id, b)
    ensures a == b
  {
  }

  lemma {:induction false} PassedExact(events: seq<Event>, id: string)
    ensures if FirstApproval(events, id).Some? then FirstPassed(events, id, FirstApproval(events, id).value)
            else !Passed(events, id)
    ensures FirstApproval(events, id).Some? ==> Passed(events, id)
    decreases |events|
  {
    if FirstApproval(events, id).Some? {
      var k := FirstApprovalIsFirst(events, id);
      assert events[k] in events;
    } else if events != [] {
      PassedExact(events[1..], id);
      assert events == [events[0]] + events[1..];
    }
  }

  lemma OneFirstPassed(events: seq<Event>, id: string, a: string, b: string)
    requires FirstPassed(events, id, a) && FirstPassed(events, id, b)
    ensures a == b
  {
  }

  /** The first definition offered for an id is that of the first gate that has it. */
  lemma {:induction false} DefinitionOffered(route: Route, gates: seq<Gate>, m: Manifest, now: string, g: Gate)
    requires FirstGate(gates, g)
    ensures FirstOffer(DefinitionOffers(route, gates, m, now), g.id)
         == Some(DefinitionOf(g, m.sessionId, StageOf(route.stages, g.id), m.createdAt, now))
    decreases |gates|
  {
    var k :| 0 <= k < |gates| && gates[k] == g && forall j :: 0 <= j < k ==> gates[j].id != g.id;
    var offers := DefinitionOffers(route, gates, m, now);
    assert offers[1..] == DefinitionOffers(route, gates[1..], m, now);
    if k > 0 {
      assert gates[1..][k - 1] == g && forall j :: 0 <= j < k - 1 ==> gates[1..][j] == gates[j + 1];
      DefinitionOffered(route, gates[1..], m, now, g);
    }
  }

  lemma {:induction false} NotOffered<V>(offers: seq<(string, V)>, id: string)
    ensures FirstOffer(offers, id).Some? <==> exists i :: 0 <= i < |offers| && offers[i].0 == id
    decreases |offers|
  {
    if offers != [] {
      NotOffered(offers[1..], id);
      assert forall i :: 0 < i < |offers| ==> offers[i] == offers[1..][i - 1];
    }
  }

  lemma PendingExact(route: Route, m: Manifest, now: string, g: Gate)
    requires g.id != ""
    ensures IsPending(DefinitionOf(g, m.sessionId, StageOf(route.stages, g.id), m.createdAt, now), route, m, now, g)
  {
    StageExact(route.stages, g.id);
    forall name | FirstStage(route.stages, g.id, name) ensures StageOf(route.stages, g.id) == Some(name) {
      var k :| 0 <= k < |route.stages| && route.stages[k] == Stage(name, g.id);
      assert route.stages[k] in route.stages;
      OneFirstStage(route.stages, g.id, name, StageOf(route.stages, g.id).value);
    }
  }

  lemma OffersDeclared(route: Route, m: Manifest, now: string, id: string)
    ensures FirstOffer(DefinitionOffers(route, route.gates, m, now), id).Some? <==> Declared(route.gates, id)
  {
    var offers := DefinitionOffers(route, route.gates, m, now);
    NotOffered(offers, id);
    if Declared(route.gates, id) {
      var g :| g in route.gates && g.id == id;
      var i :| 0 <= i < |route.gates| && route.gates[i] == g;
      assert offers[i].0 == id;
    }
    if i :| 0 <= i < |offers| && offers[i].0 == id {
      assert route.gates[i] in route.gates;
    }
  }

  lemma DefinitionsExact(route: Route, m: Manifest, now: string, before: map<string, Definition>)
    ensures DefinitionsFilled(route, m, now, before, Fill(before, DefinitionOffers(route, route.gates, m, now)))
  {
    var offers := DefinitionOffers(route, route.gates, m, now);
    var after := Fill(before, offers);
    forall id
      ensures id in after <==> id in before || (IsFileName(id) && Declared(route.gates, id))
      ensures id in before ==> after[id] == before[id]
    {
      FillExact(before, offers, id);
      FileNameExact(id);
      OffersDeclared(route, m, now, id);
    }
    forall g | FirstGate(route.gates, g) && g.id in after && g.id !in before
      ensures IsPending(after[g.id], route, m, now, g)
    {
      FillExact(before, offers, g.id);
      DefinitionOffered(route, route.gates, m, now, g);
      PendingExact(route, m, now, g);
    }
  }

  lemma DecisionsExact(route: Route, events: seq<Event>, now: string, before: map<string, Decision>)
    ensures DecisionsFilled(route, events, now, before, Fill(before, DecisionOffers(route.gates, events, now)))
  {
    var after := Fill(before, DecisionOffers(route.gates, events, now));
    forall id
      ensures id in after <==> id in before || (IsFileName(id) && Declared(route.gates, id) && Passed(events, id))
      ensures id in before ==> after[id] == before[id]
    {
      DecisionFilesExact(route.gates, events, now, before, id);
      FileNameExact(id);
      PassedExact(events, id);
    }
    forall id, at | id in after && id !in before && FirstPassed(events, id, at)
      ensures after[id] == Decision("approved", if at == "" then now else at, "human", "")
    {
      DecisionFilesExact(route.gates, events, now, before, id);
      PassedExact(events, id);
      OneFirstPassed(events, id, at, FirstApproval(events, id).value);
    }
  }

  /** An approved gate in front contributes one offer. */
  lemma OneDecision(gates: seq<Gate>, events: seq<Event>, now: string, files: map<string, Decision>)
    requires gates != [] && FirstApproval(events, gates[0].id).Some?
    ensures var offers := DecisionOffers(gates, events, now);
      var first := (gates[0].id, Decision("approved", Or(FirstApproval(events, gates[0].id).value, now), "human", ""));
      var rest := DecisionOffers(gates[1..], events, now);
      && offers != [] && offers[0] == first && offers[1..] == rest
  {
  }

  // ---- what a backfill does to a session ----

  /** Running it again, at any later time, writes nothing. */
  lemma BackfillIdempotent(route: Route, m: Manifest, events: seq<Event>, now: string, later: string,
                           definitions: map<string, Definition>, decisions: map<string, Decision>)
    ensures var defs := Fill(definitions, DefinitionOffers(route, route.gates, m, now));
      var again := DefinitionOffers(route, route.gates, m, later);
      Fill(defs, again) == defs && Written(defs, again) == 0
    ensures var decs := Fill(decisions, DecisionOffers(route.gates, events, now));
      var again := DecisionOffers(route.gates, events, later);
      Fill(decs, again) == decs && Written(decs, again) == 0
  {
    var defs, again := DefinitionOffers(route, route.gates, m, now), DefinitionOffers(route, route.gates, m, later);
    assert Names(defs) == Names(again);
    FillTwice(definitions, defs, again);
    DecisionNames(route.gates, events, now, later);
    FillTwice(decisions, DecisionOffers(route.gates, events, now), DecisionOffers(route.gates, events, later));
  }

  lemma {:induction false} DecisionNames(gates: seq<Gate>, events: seq<Event>, now: string, later: string)
    ensures Names(DecisionOffers(gates, events, now)) == Names(DecisionOffers(gates, events, later))
    decreases |gates|
  {
    if gates != [] {
      DecisionNames(gates[1..], events, now, later);
      var a, b := DecisionOffers(gates[1..], events, now), DecisionOffers(gates[1..], events, later);
      assert |Names(a)| == |a| && |Names(b)| == |b|;
      assert forall i :: 0 <= i < |a| ==> a[i].0 == Names(a)[i] == Names(b)[i] == b[i].0;
    }
  }

  lemma {:induction false} DecisionOffered(gates: seq<Gate>, events: seq<Event>, now: string, id: string)
    ensures var at := FirstApproval(events, id);
      FirstOffer(DecisionOffers(gates, events, now), id)
      == if at.Some? && exists g :: g in gates && g.id == id
         then Some(Decision("approved", Or(at.value, now), "human", "")) else None
    decreases |gates|
  {
    if gates != [] {
      DecisionOffered(gates[1..], events, now, id);
      assert gates == [gates[0]] + gates[1..];
      if FirstApproval(events, gates[0].id).Some? {
        OneDecision(gates, events, now, map[]);
      }
    }
  }

  /**
   * Every decision file after a backfill: an old one untouched, or a new one for a declared gate that
   * the timeline records as passed, dated by the first such event when that event has a date.
   */
  lemma DecisionFilesExact(gates: seq<Gate>, events: seq<Event>, now: string, decisions: map<string, Decision>,
      id: string)
    ensures var after := Fill(decisions, DecisionOffers(gates, events, now));
      var at := FirstApproval(events, id);
      if id in decisions then id in after && after[id] == decisions[id]
      else if IsValidGateId(id) && at.Some? && exists g :: g in gates && g.id == id
        then id in after && after[id] == Decision("approved", Or(at.value, now), "human", "")
      else id !in after
  {
    FillExact(decisions, DecisionOffers(gates, events, now), id);
    DecisionOffered(gates, events, now, id);
  }

  /** The approval found for a gate is that of a gate_passed event, and no earlier one names the gate. */
  lemma {:induction false} FirstApprovalIsFirst(events: seq<Event>, id: string) returns (k: nat)
    requires FirstApproval(events, id).Some?
    ensures k < |events| && events[k] == Event("gate_passed", Some(id), FirstApproval(events, id).value)
    ensures forall j :: 0 <= j < k ==> !(events[j].kind == "gate_passed" && events[j].gateId == Some(id))
    decreases |events|
  {
    if events[0].kind == "gate_passed" && events[0].gateId == Some(id) {
      k := 0;
    } else {
      var i := FirstApprovalIsFirst(events[1..], id);
      k := i + 1;
    }
  }
}
