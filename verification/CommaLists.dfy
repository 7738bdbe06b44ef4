/** scripts/lib/core/text-utils.js: comma-separated flag values. */
module CommaLists {
  import opened Lists
  import opened Text

  /** The parts that are not blank, trimmed, in order. */
  function Visible(parts: seq<string>): seq<string> {
    if parts == [] then [] else
      var last := Trim(parts[|parts| - 1]);
      Visible(parts[..|parts| - 1]) + if last == "" then [] else [last]
  }

  function CommaParts(value: string): seq<string> {
    Visible(SplitOn(value, ","))
  }

  function CommaList(values: seq<string>): seq<string> {
    Flatten(values, CommaParts)
  }

  method SplitCommaList(values: seq<string>) returns (out: seq<string>)
    ensures out == CommaList(values)
  {
    out := [];
    for i := 0 to |values|
      invariant out == CommaList(values[..i])
    {
      FlattenStep(values, i, CommaParts);
      var more := SplitOneValue(values[i]);
      out := out + more;
    }
    assert values[..|values|] == values;
  }

  /** The inner loop, over the parts of one value. */
  method SplitOneValue(value: string) returns (out: seq<string>)
    ensures out == CommaParts(value)
  {
    var parts := SplitOn(value, ",");
    out := [];
    for j := 0 to |parts|
      invariant out == Visible(parts[..j])
    {
      assert parts[..j + 1][..j] == parts[..j];
      var trimmed := Trim(parts[j]);
      if trimmed != "" {
        out := out + [trimmed];
      }
    }
    assert parts[..|parts|] == parts;
  }

  // ---- what comes out ----

  /** A path as the list holds it. */
  predicate Tidy(s: string) {
    s != "" && Trim(s) == s && Free(s, ',')
  }

  lemma TrimTidy(s: string)
    requires Free(s, ',')
    ensures Trim(s) != "" ==> Tidy(Trim(s))
  {
    var t := TrimStart(s);
    TrimStartFacts(s);
    TrimEndFacts(t);
    var u := Trim(s);
    if u != "" {
      assert u[0] == t[0];
      assert Trim(u) == u by {
        assert TrimStart(u) == u;
        TrimEndFixes(u, "");
        assert u + "" == u;
      }
      assert forall i :: 0 <= i < |u| ==> u[i] == t[i] && t[i] in s;
    }
  }

  lemma {:induction false} SplitFree(s: string)
    ensures AllFree(SplitOn(s, ","), ',')
    decreases |s|
  {
    var i := IndexFrom(s, ",", 0);
    IndexFacts(s, ",", 0);
    if i == -1 {
      FreeWithout(s);
    } else {
      SplitFree(s[i + 1..]);
      assert Free(s[..i], ',') by {
        forall j | 0 <= j < i ensures s[j] != ',' {
          assert s[j..j + 1] == [s[j]];
          assert !MatchesAt(s, ",", j);
        }
      }
    }
  }

  lemma FreeWithout(s: string)
    requires forall k :: 0 <= k ==> !MatchesAt(s, ",", k)
    ensures Free(s, ',')
  {
    forall j | 0 <= j < |s| ensures s[j] != ',' {
      assert s[j..j + 1] == [s[j]];
      assert !MatchesAt(s, ",", j);
    }
  }

  lemma {:induction false} VisibleTidy(parts: seq<string>)
    requires AllFree(parts, ',')
    ensures forall x :: x in Visible(parts) ==> Tidy(x)
    decreases |parts|
  {
    if parts != [] {
      VisibleTidy(parts[..|parts| - 1]);
      TrimTidy(parts[|parts| - 1]);
    }
  }

  /** Every path taken from a command line is visible, trimmed and free of commas. */
  lemma {:induction false} CommaListTidy(values: seq<string>)
    ensures forall x :: x in CommaList(values) ==> Tidy(x)
    decreases |values|
  {
    if values != [] {
      var n := |values| - 1;
      CommaListTidy(values[..n]);
      SplitFree(values[n]);
      VisibleTidy(SplitOn(values[n], ","));
    }
  }

  lemma {:induction false} VisibleKeeps(xs: seq<string>)
    requires forall x :: x in xs ==> Tidy(x)
    ensures Visible(xs) == xs
    decreases |xs|
  {
    if xs != [] {
      var n := |xs| - 1;
      VisibleKeeps(xs[..n]);
      assert xs[n] in xs && xs == xs[..n] + [xs[n]];
    }
  }

  /** Paths joined by commas into one value are read back, each and in order. */
  lemma CommaRoundTrip(xs: seq<string>)
    requires forall x :: x in xs ==> Tidy(x)
    ensures CommaList([Join(xs, ",")]) == xs
  {
    var value := Join(xs, ",");
    FlattenStep([value], 0, CommaParts);
    assert [value][..1] == [value] && [value][..0] == [];
    if xs == [] {
      EmptyValue();
    } else {
      forall i | 0 <= i < |xs| ensures Free(xs[i], ',') { assert xs[i] in xs; }
      SplitInvertsJoin(xs, ',');
      VisibleKeeps(xs);
    }
  }

  lemma EmptyValue()
    ensures CommaParts("") == []
  {
    assert SplitOn("", ",") == [""];
    assert [""][..0] == [];
  }
}
