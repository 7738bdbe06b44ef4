/** scripts/lib/mcp-action-runtime.js: what a server that only registers accepted Action Types can spawn. */
module ActionServer {
  import opened Wrappers
  import opened Lists
  import opened ActionContracts
  import opened ActionRuntime
  import opened ArgumentSlots
  import opened CliSeam
  import opened ParsedFlags
  import opened SpawnedLines

  /** The flags of the table that turn a read into a write. */
  function WriteFlags(specs: FlagTable, cap: Capability): set<string> {
    set w | w in cap.writeFlags && w in specs
  }

  /**
   * A registered direct read on whose line the CLI reads no write flag: safety is about what the argument
   * parser makes of the tokens, not about how they were put there.
   */
  ghost predicate SafeInvocation(reg: Registry, specs: FlagTable, inv: Invocation) {
    var key := KeyOf(inv.mapping);
    && key in reg && reg[key].effect.Read? && reg[key].directReadOnlyExec
    && inv.build.Built? && inv.argv == Argv(inv.mapping, inv.build)
    && forall target :: target !in specs ==>
         !ReadsStop(specs, SpawnedLine(inv.mapping, inv.build, target), WriteFlags(specs, reg[key]))
  }

  /** No variant of a directly executable action lets a write flag, or a text of the caller, stand as a flag. */
  ghost predicate WriteFree(reg: Registry, specs: FlagTable, a: Action)
    requires a.execution.Some?
  {
    IsReadOnlyExecutable(reg, a) ==>
      forall variant, m :: Selects(a.execution.value, variant, m) && KeyOf(m) in reg ==>
        Unreachable(specs, WriteFlags(specs, reg[KeyOf(m)]), a.execution.value, variant, m)
  }

  ghost predicate AllWriteFree(reg: Registry, specs: FlagTable, actions: seq<Action>) {
    forall a :: a in actions && a.execution.Some? ==> WriteFree(reg, specs, a)
  }

  lemma ResolvedEntry(ex: Execution, p: Parameters) returns (e: (string, Mapping))
    requires ResolveExecution(ex, p).Ok?
    ensures e in ex.Entries() && e.1 == ResolveExecution(ex, p).value
  {
    if ex.Plain? {
      e := ("", ex.mapping);
    } else {
      LookupListed(ex.table, p[ex.param].text);
      e := (p[ex.param].text, ResolveExecution(ex, p).value);
    }
  }

  /** What a write-free action spawns is safe, whatever the parameters. */
  lemma WriteFreeSpawns(reg: Registry, specs: FlagTable, a: Action, p: Parameters)
    requires TargetRow(specs) && a.execution.Some? && WriteFree(reg, specs, a)
      && ResolveExecution(a.execution.value, p).Ok?
    requires var m := ResolveExecution(a.execution.value, p).value;
      SelectedIsReadOnly(reg, a, m) && Emit(m.args, p).Built?
    ensures var m := ResolveExecution(a.execution.value, p).value;
      SafeInvocation(reg, specs, Invocation(m, Emit(m.args, p), Argv(m, Emit(m.args, p))))
  {
    var ex := a.execution.value;
    var m := ResolveExecution(ex, p).value;
    var stops := WriteFlags(specs, reg[KeyOf(m)]);
    ResolvedSelects(ex, p);
    assert Unreachable(specs, stops, ex, SelectedName(ex, p), m);
    forall target | target !in specs
      ensures !ReadsStop(specs, SpawnedLine(m, Emit(m.args, p), target), stops)
    {
      UnreachableCall(specs, stops, ex, m, p, target);
    }
  }

  class Server {
    const reg: Registry
    const actions: seq<Action>
    /** The flag table of the CLI, which the server never looks at. */
    ghost const specs: FlagTable
    var spawned: seq<Invocation>

    /** While only write-free actions are registered, no process ever started is given a write flag. */
    ghost predicate Valid()
      reads this
    {
      && AllAccepted(reg, actions) && TargetRow(specs)
      && (AllWriteFree(reg, specs, actions) ==> forall inv :: inv in spawned ==> SafeInvocation(reg, specs, inv))
    }

    constructor (reg: Registry, actions: seq<Action>, ghost specs: FlagTable)
      requires AllAccepted(reg, actions) && TargetRow(specs)
      ensures Valid() && spawned == [] && this.reg == reg && this.actions == actions && this.specs == specs
    {
      this.reg := reg;
      this.actions := actions;
      this.specs := specs;
      spawned := [];
    }

    method RunAction(a: Action, p: Parameters, active: seq<Session>, corrupt: seq<string>) returns (outcome: Outcome)
      requires Valid() && a in actions && a.execution.Some?
      modifies this
      ensures Valid()
      ensures outcome == Decide(reg, a, p, active, corrupt)
      ensures outcome.Spawned? ==>
        |spawned| == |old(spawned)| + 1 && old(spawned) < spawned && spawned[|old(spawned)|].argv == outcome.argv
      ensures !outcome.Spawned? ==> spawned == old(spawned)
    {
      var ex := a.execution.value;
      var built := BuildCommand(ex, p);
      if built.Error? {
        return Threw(built.error);
      }
      var m := ResolveExecution(ex, p).value;
      if KeyOf(m) !in reg {
        return Threw(UnmappedCommand(KeyOf(m)));
      }
      if SelectedIsReadOnly(reg, a, m) {
        var inv := Invocation(m, Emit(m.args, p), built.value);
        if AllWriteFree(reg, specs, actions) {
          WriteFreeSpawns(reg, specs, a, p);
        }
        spawned := spawned + [inv];
        return Spawned(built.value);
      }
      if corrupt != [] {
        return Threw(CorruptSessions(corrupt));
      }
      var others := Others(active, MySession(p));
      return if others != [] then Conflict(others) else ApprovalRequired(built.value);
    }
  }

  /** The server starts only when the whole whitelist is valid. */
  method Start(reg: Registry, actions: seq<Action>, ghost specs: FlagTable) returns (server: Server?)
    requires TargetRow(specs)
    ensures server != null <==> AllAccepted(reg, actions)
    ensures server != null ==> server.Valid() && fresh(server) && server.spawned == []
    ensures server != null ==> server.reg == reg && server.actions == actions && server.specs == specs
  {
    var valid, findings := ValidateWhitelist(reg, actions);
    server := null;
    if valid {
      server := new Server(reg, actions, specs);
    }
  }

  /** The command resolves, builds and is registered, but may not be run directly. */
  predicate NeedsHuman(reg: Registry, a: Action, p: Parameters)
    requires a.execution.Some?
  {
    var m := ResolveExecution(a.execution.value, p);
    m.Ok? && Emit(m.value.args, p).Built? && KeyOf(m.value) in reg && !SelectedIsReadOnly(reg, a, m.value)
  }

  /** The parameter is given, and no empty text, zero or false. */
  predicate Given(p: Parameters, key: string) {
    key in p && match p[key] { case Null => false case Str(text) => text != "" case Other(_, truthy) => truthy }
  }

  /** The caller names this session as its own: by `sessionId`, or by `id` when that is not given. */
  predicate IsMine(p: Parameters, id: string) {
    if Given(p, "sessionId") then p["sessionId"] == Str(id) else "id" in p && p["id"] == Str(id)
  }

  lemma MineExact(p: Parameters, id: string)
    ensures IsMine(p, id) <==> MySession(p) == Some(id)
  {
  }

  /** The others are the active sessions that are not the caller's, each as often as it is active. */
  lemma OthersMine(p: Parameters, active: seq<Session>)
    ensures var others := Others(active, MySession(p));
      && (others == [] <==> forall s :: s in active ==> IsMine(p, s.sessionId))
      && forall s :: multiset(others)[s] == if IsMine(p, s.sessionId) then 0 else multiset(active)[s]
  {
    var others := Others(active, MySession(p));
    OthersExact(active, MySession(p));
    assert others == [] || others[0] in others;
    forall s: Session ensures IsMine(p, s.sessionId) <==> MySession(p) == Some(s.sessionId) {
      MineExact(p, s.sessionId);
    }
    forall s ensures multiset(others)[s] == if IsMine(p, s.sessionId) then 0 else multiset(active)[s] {
      WithoutCounts(active, (x: Session) => MySession(p) == Some(x.sessionId), s);
    }
  }

  /** A call that may not be run directly ends in one of three ways; any other call ends in none of them. */
  predicate Unspawned(d: Outcome, human: bool, others: seq<Session>, corrupt: seq<string>) {
    && (d.ApprovalRequired? <==> human && corrupt == [] && others == [])
    && (d.Conflict? <==> human && corrupt == [] && others != [])
    && (d.Conflict? ==> d.others == others)
    && (d == Threw(CorruptSessions(corrupt)) <==> human && corrupt != [])
  }

  lemma DecideUnspawned(reg: Registry, a: Action, p: Parameters, active: seq<Session>, corrupt: seq<string>)
    requires a.execution.Some?
    ensures Unspawned(Decide(reg, a, p, active, corrupt), NeedsHuman(reg, a, p), Others(active, MySession(p)), corrupt)
  {
  }

  /** What a call comes to, told by whose sessions are active. */
  ghost predicate ByOwner(d: Outcome, human: bool, p: Parameters, active: seq<Session>, corrupt: seq<string>) {
    var alone := forall s :: s in active ==> IsMine(p, s.sessionId);
    && (d.ApprovalRequired? <==> human && corrupt == [] && alone)
    && (d.Conflict? <==> human && corrupt == [] && !alone)
    && (d.Conflict? ==>
          forall s :: multiset(d.others)[s] == if IsMine(p, s.sessionId) then 0 else multiset(active)[s])
    && (d == Threw(CorruptSessions(corrupt)) <==> human && corrupt != [])
  }

  lemma UnspawnedByOwner(d: Outcome, human: bool, p: Parameters, active: seq<Session>, corrupt: seq<string>)
    requires Unspawned(d, human, Others(active, MySession(p)), corrupt)
    ensures ByOwner(d, human, p, active, corrupt)
  {
    OthersMine(p, active);
  }

  /**
   * The three ways a call that is not run can end: approval is requested only with intact session state
   * and no active session but the caller's, a conflict names exactly the others, a corrupt manifest stops both.
   */
  lemma UnspawnedExact(reg: Registry, a: Action, p: Parameters, active: seq<Session>, corrupt: seq<string>)
    requires a.execution.Some?
    ensures ByOwner(Decide(reg, a, p, active, corrupt), NeedsHuman(reg, a, p), p, active, corrupt)
  {
    DecideUnspawned(reg, a, p, active, corrupt);
    UnspawnedByOwner(Decide(reg, a, p, active, corrupt), NeedsHuman(reg, a, p), p, active, corrupt);
  }

  /** A caller that names a session is held up by those of other ids, one that names it by no text by all. */
  lemma OwnSessionExact(reg: Registry, a: Action, p: Parameters, active: seq<Session>, key: string)
    requires a.execution.Some? && NeedsHuman(reg, a, p)
    requires key == (if Given(p, "sessionId") then "sessionId" else "id") && key in p
    ensures var d := Decide(reg, a, p, active, []);
      && (d.ApprovalRequired? || d.Conflict?)
      && (d.ApprovalRequired? <==>
            if p[key].Str? then forall s :: s in active ==> s.sessionId == p[key].text else active == [])
      && (d.Conflict? ==> forall s :: s in d.others <==> s in active && !(p[key].Str? && s.sessionId == p[key].text))
  {
    UnspawnedExact(reg, a, p, active, []);
    OthersExact(active, MySession(p));
    assert active == [] || active[0] in active;
  }

  /** The sessions in conflict are exactly the active ones of other callers. */
  lemma OthersExact(active: seq<Session>, mine: Option<string>)
    ensures forall s :: s in Others(active, mine) <==> s in active && Some(s.sessionId) != mine
  {
    WithoutMembers(active, (s: Session) => mine == Some(s.sessionId));
  }

  // ---- the exact condition ----

  /** If this call starts a process, the CLI reads none of its write flags on the line. */
  ghost predicate SpawnIsSafe(reg: Registry, specs: FlagTable, a: Action, p: Parameters, target: string)
    requires a.execution.Some?
  {
    Started(reg, a, p) && target !in specs ==>
      var m := ResolveExecution(a.execution.value, p).value;
      !ReadsStop(specs, SpawnedLine(m, Emit(m.args, p), target), WriteFlags(specs, reg[KeyOf(m)]))
  }

  /**
   * No parameters whatever make the CLI read a write flag on the line of a process that the server starts for
   * the action, exactly when the action is write-free.
   */
  lemma SpawnSafetyExact(reg: Registry, specs: FlagTable, a: Action)
    requires a.execution.Some? && TargetRow(specs)
    ensures (forall p, target :: SpawnIsSafe(reg, specs, a, p, target)) <==> WriteFree(reg, specs, a)
  {
    var ex := a.execution.value;
    if WriteFree(reg, specs, a) {
      forall p, target ensures SpawnIsSafe(reg, specs, a, p, target) {
        if Started(reg, a, p) && target !in specs {
          WriteFreeSpawns(reg, specs, a, p);
        }
      }
    } else {
      var variant, m :| Selects(ex, variant, m) && KeyOf(m) in reg
        && !Unreachable(specs, WriteFlags(specs, reg[KeyOf(m)]), ex, variant, m);
      var target := FreeText(specs);
      var p := ReachableCall(specs, WriteFlags(specs, reg[KeyOf(m)]), ex, variant, m, target);
      SelectedEntry(ex, variant, m);
      assert DirectRead(reg, m);
      assert !SpawnIsSafe(reg, specs, a, p, target);
    }
  }

  /** A process is started for an accepted action exactly when it declares dry-run and its command can be built. */
  lemma StartedExact(reg: Registry, a: Action, p: Parameters, active: seq<Session>, corrupt: seq<string>)
    requires Accepted(reg, a) && DirectReads(reg)
    ensures var r, d := ResolveExecution(a.execution.value, p), Decide(reg, a, p, active, corrupt);
      && (d.Spawned? <==> a.mode == "dry-run" && r.Ok? && Emit(r.value.args, p).Built?)
      && (Started(reg, a, p) <==> d.Spawned?)
  {
    var ex := a.execution.value;
    if ResolveExecution(ex, p).Ok? {
      var e := ResolvedEntry(ex, p);
      ReadOnlyIffDryRun(reg, a);
      AcceptedVariant(reg, a, e);
      assert ex.Entries() != [];
    }
  }
}
