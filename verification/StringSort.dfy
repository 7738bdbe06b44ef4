/** `Array.prototype.sort` on strings, and comparing two lists by their sorted, joined text. */
module StringSort {
  import opened Text

  predicate Leq(a: string, b: string) {
    a == "" || (b != "" && (a[0] < b[0] || (a[0] == b[0] && Leq(a[1..], b[1..]))))
  }

  lemma {:induction false} LeqTotal(a: string, b: string)
    ensures Leq(a, b) || Leq(b, a)
    ensures Leq(a, b) && Leq(b, a) ==> a == b
    decreases |a|
  {
    if a != "" && b != "" {
      LeqTotal(a[1..], b[1..]);
      assert a == [a[0]] + a[1..] && b == [b[0]] + b[1..];
    }
  }

  lemma {:induction false} LeqTransitive(a: string, b: string, c: string)
    requires Leq(a, b) && Leq(b, c)
    ensures Leq(a, c)
    decreases |a|
  {
    if a != "" && a[0] == b[0] == c[0] {
      LeqTransitive(a[1..], b[1..], c[1..]);
    }
  }

  ghost predicate Sorted(s: seq<string>) {
    forall i, j :: 0 <= i <= j < |s| ==> Leq(s[i], s[j])
  }

  function Insert(x: string, s: seq<string>): seq<string> {
    if s == [] || Leq(x, s[0]) then [x] + s else [s[0]] + Insert(x, s[1..])
  }

  function Sort(s: seq<string>): seq<string> {
    if s == [] then [] else Insert(s[0], Sort(s[1..]))
  }

  lemma {:induction false} InsertContents(x: string, s: seq<string>)
    ensures multiset(Insert(x, s)) == multiset(s) + multiset{x}
    decreases |s|
  {
    if s != [] && !Leq(x, s[0]) {
      InsertContents(x, s[1..]);
      assert s == [s[0]] + s[1..];
    }
  }

  lemma SortedCons(x: string, s: seq<string>)
    requires Sorted(s) && forall j :: 0 <= j < |s| ==> Leq(x, s[j])
    ensures Sorted([x] + s)
  {
    LeqTotal(x, x);
  }

  lemma {:induction false} InsertSorted(x: string, s: seq<string>)
    requires Sorted(s)
    ensures Sorted(Insert(x, s))
    decreases |s|
  {
    if s == [] || Leq(x, s[0]) {
      forall j | 0 <= j < |s| ensures Leq(x, s[j]) { LeqTransitive(x, s[0], s[j]); }
      SortedCons(x, s);
    } else {
      var r := Insert(x, s[1..]);
      InsertSorted(x, s[1..]);
      InsertContents(x, s[1..]);
      LeqTotal(x, s[0]);
      forall j | 0 <= j < |r| ensures Leq(s[0], r[j]) {
        assert r[j] in multiset(r);
        assert r[j] == x || r[j] in s[1..];
      }
      SortedCons(s[0], r);
    }
  }

  lemma {:induction false} SortSorts(s: seq<string>)
    ensures Sorted(Sort(s)) && multiset(Sort(s)) == multiset(s)
    decreases |s|
  {
    if s != [] {
      SortSorts(s[1..]);
      InsertSorted(s[0], Sort(s[1..]));
      InsertContents(s[0], Sort(s[1..]));
      assert s == [s[0]] + s[1..];
    }
  }

  lemma RestOf(a: seq<string>)
    requires a != [] && Sorted(a)
    ensures a == [a[0]] + a[1..] && multiset(a[1..]) == multiset(a) - multiset{a[0]}
    ensures Sorted(a[1..]) && forall x :: x in multiset(a) ==> Leq(a[0], x)
  {
    assert a == [a[0]] + a[1..];
  }

  lemma {:induction false} SortedUnique(a: seq<string>, b: seq<string>)
    requires Sorted(a) && Sorted(b) && multiset(a) == multiset(b)
    ensures a == b
    decreases |a|
  {
    assert |a| == |multiset(a)| == |b|;
    if a != [] {
      RestOf(a);
      RestOf(b);
      assert a[0] in multiset(b) && b[0] in multiset(a);
      LeqTotal(a[0], b[0]);
      SortedUnique(a[1..], b[1..]);
    }
  }

  lemma SortCanonical(a: seq<string>, b: seq<string>)
    ensures Sort(a) == Sort(b) <==> multiset(a) == multiset(b)
  {
    SortSorts(a);
    SortSorts(b);
    if multiset(a) == multiset(b) {
      SortedUnique(Sort(a), Sort(b));
    }
  }

  /** `[...a].sort().join("\n") === [...b].sort().join("\n")`. */
  predicate SameText(a: seq<string>, b: seq<string>) {
    Join(Sort(a), "\n") == Join(Sort(b), "\n")
  }

  /** A list that its newline-joined text determines. */
  ghost predicate Listable(a: seq<string>) {
    AllFree(a, '\n') && a != [""]
  }

  lemma SortKeeps(a: seq<string>)
    ensures AllFree(a, '\n') ==> AllFree(Sort(a), '\n')
    ensures |Sort(a)| == |a|
    ensures |a| == 1 ==> Sort(a) == a
    ensures forall x :: x in Sort(a) <==> x in a
  {
    SortSorts(a);
    assert |Sort(a)| == |multiset(Sort(a))| == |multiset(a)| == |a|;
    forall x ensures x in Sort(a) <==> x in a {
      assert x in a <==> x in multiset(a);
      assert x in Sort(a) <==> x in multiset(Sort(a));
    }
    forall i | 0 <= i < |a| && AllFree(a, '\n') ensures Free(Sort(a)[i], '\n') {
      var x := Sort(a)[i];
      assert x in a;
      var j :| 0 <= j < |a| && a[j] == x;
      assert Free(a[j], '\n');
    }
    if |a| == 1 {
      assert multiset(a) == multiset(Sort(a));
      assert Sort(a)[0] in a;
      assert Sort(a) == [a[0]] == a;
    }
  }

  lemma JoinDetermines(a: seq<string>, b: seq<string>)
    requires AllFree(a, '\n') && AllFree(b, '\n') && a != [""] && b != [""]
    requires Join(a, "\n") == Join(b, "\n")
    ensures a == b
  {
    if a != [] { SplitInvertsJoin(a, '\n'); }
    if b != [] { SplitInvertsJoin(b, '\n'); }
    assert SplitOn("", "\n") == [""];
  }

  /**
   * For expected entries that are non-empty lines, comparing texts decides multiset equality exactly
   * on the lists that a text determines.
   */
  lemma SameTextDecides(expected: seq<string>, actual: seq<string>)
    requires AllFree(expected, '\n') && "" !in expected
    ensures multiset(expected) == multiset(actual) <==> SameText(expected, actual) && Listable(actual)
  {
    SortCanonical(expected, actual);
    SortKeeps(expected);
    SortKeeps(actual);
    if multiset(expected) == multiset(actual) {
      forall i | 0 <= i < |actual| ensures Free(actual[i], '\n') {
        assert actual[i] in multiset(expected);
        var j :| 0 <= j < |expected| && expected[j] == actual[i];
        assert Free(expected[j], '\n');
      }
      assert actual == [""] ==> "" in multiset(expected);
    }
    if SameText(expected, actual) && Listable(actual) {
      assert Sort(actual) == [""] ==> |actual| == 1;
      JoinDetermines(Sort(expected), Sort(actual));
    }
  }
}
