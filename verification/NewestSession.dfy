/** scripts/lib/mcp-functions.js: the newest session in one pass, in place of sorting. */
module NewestSession {
  import opened StringSort

  /** A session directory: its name and modification time. */
  datatype Session = Session(id: string, mtime: int)

  /** The order a sort would use: newest first, equal times by id. */
  predicate Before(a: Session, b: Session) {
    a.mtime > b.mtime || (a.mtime == b.mtime && Leq(a.id, b.id))
  }

  lemma BeforeIsOrder(a: Session, b: Session, c: Session)
    ensures Before(a, b) || Before(b, a)
    ensures Before(a, b) && Before(b, a) ==> a == b
    ensures Before(a, b) && Before(b, c) ==> Before(a, c)
  {
    LeqTotal(a.id, b.id);
    if Leq(a.id, b.id) && Leq(b.id, c.id) {
      LeqTransitive(a.id, b.id, c.id);
    }
  }

  ghost predicate Ordered(ss: seq<Session>) {
    forall i, j :: 0 <= i <= j < |ss| ==> Before(ss[i], ss[j])
  }

  method Newest(sessions: seq<Session>) returns (newest: seq<Session>)
    ensures |newest| == if sessions == [] then 0 else 1
    ensures newest != [] ==> newest[0] in sessions && forall s :: s in sessions ==> Before(newest[0], s)
  {
    newest := [];
    for i := 0 to |sessions|
      invariant |newest| == if i == 0 then 0 else 1
      invariant newest != [] ==> newest[0] in sessions[..i]
      invariant newest != [] ==> forall j :: 0 <= j < i ==> Before(newest[0], sessions[j])
    {
      var s := sessions[i];
      assert sessions[..i + 1] == sessions[..i] + [s];
      if newest == [] || s.mtime > newest[0].mtime
        || (s.mtime == newest[0].mtime && s.id != newest[0].id && Leq(s.id, newest[0].id)) {
        ghost var was := newest;
        newest := [s];
        BeforeIsOrder(s, s, s);
        forall j | 0 <= j < i ensures Before(s, sessions[j]) {
          BeforeIsOrder(s, was[0], sessions[j]);
        }
      } else {
        BeforeIsOrder(newest[0], s, s);
      }
    }
    assert sessions[..|sessions|] == sessions;
  }

  /** The result is the head of the sorted listing, whatever order the directory was listed in. */
  lemma NewestIsHead(sessions: seq<Session>, sorted: seq<Session>, newest: Session)
    requires multiset(sessions) == multiset(sorted) && Ordered(sorted)
    requires newest in sessions && forall s :: s in sessions ==> Before(newest, s)
    ensures sorted != [] && sorted[0] == newest
  {
    assert newest in multiset(sorted);
    assert sorted[0] in multiset(sessions);
    var i :| 0 <= i < |sorted| && sorted[i] == newest;
    BeforeIsOrder(newest, sorted[0], newest);
  }
}
