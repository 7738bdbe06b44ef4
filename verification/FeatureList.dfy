/** scripts/lib/feature-commands.js: the commands that edit feature_list.json, and the commit gate over it. */
module FeatureList {
  import opened Wrappers
  import opened Text
  import opened Lists
  import opened CommaLists

  datatype Evidence = Evidence(command: string, result: string, date: string, notes: string, sessionId: string)

  /** `paths` is None while the feature has no such property; `rest` is every other property. */
  datatype Feature =
    Feature(id: string, status: string, evidence: seq<Evidence>, paths: Option<seq<string>>, rest: string)

  predicate IsComplete(status: string) {
    status == "passing" || status == "accepted" || status == "done"
  }

  /** The pre-commit check finds nothing: no feature claims completion without evidence. */
  predicate Clean(fs: seq<Feature>) {
    forall f :: f in fs ==> IsComplete(f.status) ==> f.evidence != []
  }

  predicate UniqueIds(fs: seq<Feature>) {
    forall i, j :: 0 <= i < j < |fs| ==> fs[i].id != fs[j].id
  }

  function Named(id: string): Feature -> bool {
    (f: Feature) => f.id == id
  }

  function Find(fs: seq<Feature>, id: string): (i: int)
    ensures -1 <= i < |fs|
    ensures i != -1 ==> fs[i].id == id
    ensures i == -1 ==> forall j :: 0 <= j < |fs| ==> fs[j].id != id
  {
    FirstIndexFacts(fs, Named(id));
    FirstIndex(fs, Named(id))
  }

  // ---- booking paths ----

  /** What booking does to a feature's paths: which are new, which were there. */
  datatype Booking = Booking(paths: seq<string>, added: seq<string>, duplicates: seq<string>)

  function Book(paths: seq<string>, requested: seq<string>): Booking {
    if requested == [] then Booking(paths, [], []) else
      var b := Book(paths, requested[..|requested| - 1]);
      var p := requested[|requested| - 1];
      if p in b.paths then b.(duplicates := b.duplicates + [p])
      else Booking(b.paths + [p], b.added + [p], b.duplicates)
  }

  lemma {:induction false} BookAppends(paths: seq<string>, requested: seq<string>)
    ensures Book(paths, requested).paths == paths + Book(paths, requested).added
    decreases |requested|
  {
    if requested != [] {
      BookAppends(paths, requested[..|requested| - 1]);
    }
  }

  lemma {:induction false} BookAnswers(paths: seq<string>, requested: seq<string>)
    ensures var b := Book(paths, requested);
      multiset(b.added) + multiset(b.duplicates) == multiset(requested)
    decreases |requested|
  {
    if requested != [] {
      var n := |requested| - 1;
      BookAnswers(paths, requested[..n]);
      assert requested == requested[..n] + [requested[n]];
    }
  }

  lemma {:induction false} BookMembers(paths: seq<string>, requested: seq<string>)
    ensures forall p :: p in Book(paths, requested).added <==> p in requested && p !in paths
    ensures NoRepeats(Book(paths, requested).added)
    decreases |requested|
  {
    if requested != [] {
      var n := |requested| - 1;
      var p := requested[n];
      BookMembers(paths, requested[..n]);
      BookAppends(paths, requested[..n]);
      var before := Book(paths, requested[..n]);
      assert p in before.paths <==> p in paths || p in before.added;
      assert forall q :: q in requested <==> q in requested[..n] || q == p;
    }
  }

  /** Exactly the new paths are appended, each once and in order of first request; every request is answered. */
  lemma BookExact(paths: seq<string>, requested: seq<string>)
    ensures var b := Book(paths, requested);
      && b.paths == paths + b.added
      && |b.added| + |b.duplicates| == |requested|
      && multiset(b.added) + multiset(b.duplicates) == multiset(requested)
      && NoRepeats(b.added)
      && (forall p :: p in b.added <==> p in requested && p !in paths)
  {
    var b := Book(paths, requested);
    BookAppends(paths, requested);
    BookAnswers(paths, requested);
    BookMembers(paths, requested);
    assert |multiset(b.added) + multiset(b.duplicates)| == |b.added| + |b.duplicates|;
  }

  /** The order of the appended paths: each stands before those first requested later. */
  lemma {:induction false} BookKeepsOrder(paths: seq<string>, requested: seq<string>, k: nat)
    requires k <= |requested|
    ensures Book(paths, requested[..k]).added <= Book(paths, requested).added
    decreases |requested|
  {
    if k == |requested| {
      assert requested[..k] == requested;
    } else {
      var n := |requested| - 1;
      BookKeepsOrder(paths, requested[..n], k);
      assert requested[..n][..k] == requested[..k];
    }
  }

  lemma HeadIn(xs: seq<string>)
    ensures xs == [] || xs[0] in xs
  {
  }

  /** Booking the same paths again adds nothing. */
  lemma BookAgain(paths: seq<string>, requested: seq<string>)
    ensures var b := Book(paths, requested);
      Book(b.paths, requested).paths == b.paths && Book(b.paths, requested).added == []
  {
    var b := Book(paths, requested);
    BookExact(paths, requested);
    BookExact(b.paths, requested);
    var again := Book(b.paths, requested);
    HeadIn(again.added);
    assert b.paths + [] == b.paths;
  }

  method BookPaths(paths: seq<string>, requested: seq<string>) returns (b: Booking)
    ensures b == Book(paths, requested)
  {
    b := Booking(paths, [], []);
    for i := 0 to |requested|
      invariant b == Book(paths, requested[..i])
    {
      var p := requested[i];
      assert requested[..i + 1][..i] == requested[..i];
      if p in b.paths {
        b := b.(duplicates := b.duplicates + [p]);
      } else {
        b := Booking(b.paths + [p], b.added + [p], b.duplicates);
      }
    }
    assert requested[..|requested|] == requested;
  }

  // ---- the commands ----

  datatype Op =
    | Add(id: string, title: string, values: seq<string>, rest: string)
    | Remove(id: string)
    | Verify(id: string, entry: Evidence)
    | Paths(id: string, values: seq<string>)

  function PathsOf(f: Feature): seq<string> {
    if f.paths.Some? then f.paths.value else []
  }

  function NewFeature(op: Op): Feature
    requires op.Add?
  {
    var paths := CommaList(op.values);
    Feature(op.id, "not_started", [], if paths == [] then None else Some(paths), op.rest)
  }

  function Verified(f: Feature, entry: Evidence): Feature {
    f.(evidence := f.evidence + [entry],
       status := if f.status == "not_started" || f.status == "" then "passing" else f.status)
  }

  /** The list on disk after a command; an error leaves it unchanged. */
  function Apply(fs: seq<Feature>, op: Op): seq<Feature> {
    ApplyAt(fs, op, Find(fs, op.id))
  }

  /** The same, for a feature found at `i`, or not found. */
  function ApplyAt(fs: seq<Feature>, op: Op, i: int): seq<Feature>
    requires -1 <= i < |fs|
  {
    match op
    case Add(id, title, _, _) =>
      if Trim(id) == "" || Trim(title) == "" || i != -1 then fs else fs + [NewFeature(op)]
    case Remove(id) =>
      if id == "" || i == -1 then fs else fs[..i] + fs[i + 1..]
    case Verify(id, entry) =>
      if id == "" || i == -1 then fs else fs[i := Verified(fs[i], entry)]
    case Paths(id, values) =>
      if id == "" || i == -1 then fs else
        var b := Book(PathsOf(fs[i]), CommaList(values));
        if b.added == [] then fs else fs[i := fs[i].(paths := Some(b.paths))]
  }

  class FeatureFile {
    var features: seq<Feature>

    constructor (features: seq<Feature>)
      ensures this.features == features
    {
      this.features := features;
    }

    /** `values` are the raw --paths or --path values of the command line. */
    method AddFeature(id: string, title: string, values: seq<string>, rest: string) returns (ok: bool)
      modifies this
      ensures features == Apply(old(features), Add(id, title, values, rest))
      ensures ok <==> |features| == |old(features)| + 1
    {
      if Trim(id) == "" || Trim(title) == "" {
        return false;
      }
      if Find(features, id) != -1 {
        return false;
      }
      var paths := SplitCommaList(values);
      features := features + [Feature(id, "not_started", [], if |paths| == 0 then None else Some(paths), rest)];
      return true;
    }

    method RemoveFeature(id: string) returns (removed: Option<Feature>)
      modifies this
      ensures features == Apply(old(features), Remove(id))
      ensures removed.Some? <==> id != "" && exists f :: f in old(features) && f.id == id
      ensures removed.Some? ==> removed.value in old(features) && removed.value.id == id
      ensures removed.None? ==> features == old(features)
    {
      if id == "" {
        return None;
      }
      var idx := Find(features, id);
      if idx == -1 {
        return None;
      }
      removed := Some(features[idx]);
      features := features[..idx] + features[idx + 1..];
    }

    method RecordFeatureEvidence(id: string, entry: Evidence) returns (ok: bool)
      modifies this
      ensures features == Apply(old(features), Verify(id, entry))
      ensures !ok ==> features == old(features)
    {
      if id == "" {
        return false;
      }
      var i := Find(features, id);
      if i == -1 {
        return false;
      }
      var feature := features[i];
      feature := feature.(evidence := feature.evidence + [entry]);
      if feature.status == "not_started" || feature.status == "" {
        feature := feature.(status := "passing");
      }
      features := features[i := feature];
      return true;
    }

    method RecordFeaturePaths(id: string, values: seq<string>) returns (r: Option<Booking>)
      modifies this
      ensures features == Apply(old(features), Paths(id, values))
      ensures r.Some? ==> var i := Find(old(features), id);
        i != -1 && r.value == Book(PathsOf(old(features)[i]), CommaList(values))
      ensures r.None? || r.value.added == [] ==> features == old(features)
    {
      if id == "" {
        return None;
      }
      var i := Find(features, id);
      if i == -1 {
        return None;
      }
      var feature := features[i];
      var requested := SplitCommaList(values);
      var b := BookPaths(PathsOf(feature), requested);
      if |b.added| > 0 {
        features := features[i := feature.(paths := Some(b.paths))];
      }
      return Some(b);
    }
  }

  // ---- runs ----

  predicate Has(fs: seq<Feature>, id: string): (has: bool)
    ensures has <==> exists f :: f in fs && f.id == id
  {
    Find(fs, id) != -1
  }

  function EvidenceOf(fs: seq<Feature>, id: string): seq<Evidence> {
    var i := Find(fs, id);
    if i == -1 then [] else fs[i].evidence
  }

  lemma FindIs(fs: seq<Feature>, i: nat)
    requires UniqueIds(fs) && i < |fs|
    ensures Find(fs, fs[i].id) == i
  {
  }

  lemma StepUnique(fs: seq<Feature>, op: Op)
    requires UniqueIds(fs)
    ensures UniqueIds(Apply(fs, op))
  {
  }

  lemma StepClean(fs: seq<Feature>, op: Op)
    requires Clean(fs)
    ensures Clean(Apply(fs, op))
  {
    var i := Find(fs, op.id);
    var after := Apply(fs, op);
    if i != -1 {
      assert fs[i] in fs;
      forall f | f in after ensures IsComplete(f.status) ==> f.evidence != [] {
        if f !in fs {
          assert f == after[i];
        }
      }
    }
  }

  lemma RemovedGone(fs: seq<Feature>, at: nat)
    requires UniqueIds(fs) && at < |fs|
    ensures !Has(fs[..at] + fs[at + 1..], fs[at].id)
  {
    var after := fs[..at] + fs[at + 1..];
    forall k | 0 <= k < |after| ensures after[k].id != fs[at].id {
      assert after[k] == fs[if k < at then k else k + 1];
    }
  }

  /** After a removal no feature has the id, and all the others are there as before. */
  lemma RemovedExact(fs: seq<Feature>, i: nat)
    requires UniqueIds(fs) && i < |fs| && fs[i].id != ""
    ensures var after := Apply(fs, Remove(fs[i].id));
      && (forall f :: f in after <==> f in fs && f.id != fs[i].id)
      && multiset(after) + multiset{fs[i]} == multiset(fs)
  {
    FindIs(fs, i);
    RemovedGone(fs, i);
    var after := fs[..i] + fs[i + 1..];
    assert fs == fs[..i] + [fs[i]] + fs[i + 1..];
    assert forall f :: f in fs ==> f == fs[i] || f in after;
  }

  /** After verifying, the feature has the entry as its last one, and is passing if it had no status of its own. */
  lemma VerifiedExact(fs: seq<Feature>, i: nat, entry: Evidence)
    requires UniqueIds(fs) && i < |fs| && fs[i].id != ""
    ensures var after, was := Apply(fs, Verify(fs[i].id, entry)), fs[i];
      && |after| == |fs| && (forall j :: 0 <= j < |fs| && j != i ==> after[j] == fs[j])
      && (was.status in ["", "not_started"] ==> after[i].status == "passing")
      && (was.status !in ["", "not_started"] ==> after[i].status == was.status)
      && |after[i].evidence| == |was.evidence| + 1 && after[i].evidence[|was.evidence|] == entry
      && (forall j :: 0 <= j < |was.evidence| ==> after[i].evidence[j] == was.evidence[j])
  {
    FindIs(fs, i);
  }

  /** The old paths and then the new ones of the request, each once; no such property while there are none. */
  ghost predicate PathsGrown(was: seq<string>, requested: seq<string>, paths: Option<seq<string>>) {
    match paths
    case None => was == [] && requested == []
    case Some(all) =>
      && was <= all && NoRepeats(all[|was|..])
      && forall p :: p in all[|was|..] <==> p in requested && p !in was
  }

  lemma BookGrows(was: seq<string>, requested: seq<string>)
    ensures var b := Book(was, requested);
      PathsGrown(was, requested, Some(b.paths)) && (b.added == [] ==> forall p :: p in requested ==> p in was)
  {
    BookExact(was, requested);
    var b := Book(was, requested);
    assert b.paths[|was|..] == b.added;
  }

  lemma NothingGrows(was: seq<string>, requested: seq<string>)
    requires forall p :: p in requested ==> p in was
    ensures PathsGrown(was, requested, Some(was)) && (was == [] ==> PathsGrown(was, requested, None))
  {
    assert was[|was|..] == [];
    HeadIn(requested);
  }

  /** After booking, the named feature has its own paths and the new ones; nothing else changes. */
  lemma BookedExact(fs: seq<Feature>, i: nat, values: seq<string>)
    requires UniqueIds(fs) && i < |fs| && fs[i].id != ""
    ensures var after := Apply(fs, Paths(fs[i].id, values));
      && |after| == |fs| && after == fs[i := fs[i].(paths := after[i].paths)]
      && PathsGrown(if fs[i].paths.Some? then fs[i].paths.value else [], CommaList(values), after[i].paths)
  {
    FindIs(fs, i);
    var was, requested := if fs[i].paths.Some? then fs[i].paths.value else [], CommaList(values);
    BookGrows(was, requested);
    if Book(was, requested).added == [] {
      NothingGrows(was, requested);
      assert fs[i].(paths := fs[i].paths) == fs[i];
    }
  }

  /** Where a feature is after a command that does not remove it, with what became of its evidence. */
  lemma MovedTo(fs: seq<Feature>, op: Op, at: int, i: nat) returns (j: nat)
    requires -1 <= at < |fs| && i < |fs|
    requires !(op.Remove? && op.id != "" && at == i)
    ensures var after := ApplyAt(fs, op, at);
      j < |after| && after[j].id == fs[i].id && fs[i].evidence <= after[j].evidence
  {
    j := if op.Remove? && op.id != "" && at != -1 && at < i then i - 1 else i;
  }

  lemma EvidenceAt(fs: seq<Feature>, i: nat)
    requires UniqueIds(fs) && i < |fs|
    ensures EvidenceOf(fs, fs[i].id) == fs[i].evidence
  {
    FindIs(fs, i);
  }

  lemma StepAppends(fs: seq<Feature>, op: Op, id: string)
    requires UniqueIds(fs) && UniqueIds(Apply(fs, op)) && Has(fs, id) && Has(Apply(fs, op), id)
    ensures EvidenceOf(fs, id) <= EvidenceOf(Apply(fs, op), id)
  {
    var i, at := Find(fs, id), Find(fs, op.id);
    if op.Remove? && op.id != "" && at == i {
      RemovedGone(fs, at);
      assert false;
    }
    var j := MovedTo(fs, op, at, i);
    EvidenceAt(Apply(fs, op), j);
  }

  /** The four ways a command can leave the list. */
  predicate OneChange(fs: seq<Feature>, after: seq<Feature>, i: int, id: string) {
    || after == fs
    || (0 <= i < |fs| && after == fs[..i] + fs[i + 1..])
    || (0 <= i < |fs| == |after| && after == fs[i := after[i]] && after[i].id == id)
    || (|after| == |fs| + 1 && after == fs + [after[|fs|]] && after[|fs|].id == id)
  }

  lemma ApplyChanges(fs: seq<Feature>, op: Op, i: int)
    requires -1 <= i < |fs| && (i != -1 ==> fs[i].id == op.id)
    ensures OneChange(fs, ApplyAt(fs, op, i), i, op.id)
  {
    match op
    case Add(_, _, _, _) => NewAtEnd(fs, NewFeature(op));
    case Remove(_) =>
    case Verify(_, entry) =>
    case Paths(_, values) =>
  }

  lemma NewAtEnd(fs: seq<Feature>, f: Feature)
    ensures var after := fs + [f]; |after| == |fs| + 1 && after[|fs|] == f
  {
  }

  lemma NamedMeans(id: string)
    ensures forall f: Feature :: Named(id)(f) <==> f.id == id
  {
  }

  /** A command touches the feature it names and no other, in content or in order. */
  lemma OthersUntouched(fs: seq<Feature>, op: Op)
    ensures Without(Apply(fs, op), Named(op.id)) == Without(fs, Named(op.id))
  {
    ApplyChanges(fs, op, Find(fs, op.id));
    NamedMeans(op.id);
    ChangeKeepsOthers(fs, Apply(fs, op), Find(fs, op.id), op.id, Named(op.id));
  }

  lemma ChangeKeepsOthers(fs: seq<Feature>, after: seq<Feature>, i: int, id: string, named: Feature -> bool)
    requires OneChange(fs, after, i, id) && (0 <= i < |fs| ==> named(fs[i]))
    requires forall f: Feature :: named(f) <==> f.id == id
    ensures Without(after, named) == Without(fs, named)
  {
    if |after| == |fs| + 1 {
      WithoutAppend(fs, [after[|fs|]], named);
      WithoutOne(after[|fs|], named);
    } else if 0 <= i < |fs| {
      WithoutRemoved(fs, i, named);
      if |after| == |fs| {
        WithoutReplaced(fs, i, after[i], named);
      }
    }
  }

  function After(fs: seq<Feature>, ops: seq<Op>): seq<Feature> {
    if ops == [] then fs else Apply(After(fs, ops[..|ops| - 1]), ops[|ops| - 1])
  }

  lemma {:induction false} RunUnique(fs: seq<Feature>, ops: seq<Op>)
    requires UniqueIds(fs)
    ensures UniqueIds(After(fs, ops))
    decreases |ops|
  {
    if ops != [] {
      var n := |ops| - 1;
      RunUnique(fs, ops[..n]);
      StepUnique(After(fs, ops[..n]), ops[n]);
    }
  }

  lemma {:induction false} RunClean(fs: seq<Feature>, ops: seq<Op>)
    requires Clean(fs)
    ensures Clean(After(fs, ops))
    decreases |ops|
  {
    if ops != [] {
      var n := |ops| - 1;
      RunClean(fs, ops[..n]);
      StepClean(After(fs, ops[..n]), ops[n]);
    }
  }

  /** Whatever a run does, it keeps unique ids unique, and a list that passes the commit check passing it. */
  lemma RunKeeps(fs: seq<Feature>, ops: seq<Op>)
    ensures UniqueIds(fs) ==> UniqueIds(After(fs, ops))
    ensures Clean(fs) ==> Clean(After(fs, ops))
  {
    if UniqueIds(fs) { RunUnique(fs, ops); }
    if Clean(fs) { RunClean(fs, ops); }
  }

  /** The feature exists after every command of the run. */
  ghost predicate AlwaysHas(fs: seq<Feature>, ops: seq<Op>, id: string) {
    forall k :: 0 <= k <= |ops| ==> Has(After(fs, ops[..k]), id)
  }

  lemma AlwaysHasStep(fs: seq<Feature>, ops: seq<Op>, id: string)
    requires ops != [] && AlwaysHas(fs, ops, id)
    ensures AlwaysHas(fs, ops[..|ops| - 1], id)
    ensures Has(After(fs, ops[..|ops| - 1]), id) && Has(After(fs, ops), id)
  {
    var before := ops[..|ops| - 1];
    assert forall k :: 0 <= k <= |before| ==> before[..k] == ops[..k];
    assert ops[..|ops|] == ops;
  }

  lemma LastAppends(fs: seq<Feature>, op: Op, id: string)
    requires UniqueIds(fs) && Has(fs, id) && Has(Apply(fs, op), id)
    ensures EvidenceOf(fs, id) <= EvidenceOf(Apply(fs, op), id)
  {
    StepUnique(fs, op);
    StepAppends(fs, op, id);
  }

  /** While a feature exists its evidence only grows at the end. */
  lemma {:induction false} EvidenceAppendOnly(fs: seq<Feature>, ops: seq<Op>, id: string)
    requires UniqueIds(fs) && AlwaysHas(fs, ops, id)
    ensures EvidenceOf(fs, id) <= EvidenceOf(After(fs, ops), id)
    decreases |ops|
  {
    if ops != [] {
      var before, op := ops[..|ops| - 1], ops[|ops| - 1];
      AlwaysHasStep(fs, ops, id);
      EvidenceAppendOnly(fs, before, id);
      RunUnique(fs, before);
      LastAppends(After(fs, before), op, id);
    }
  }
}
