/** `findIndex` and `filter` over an arbitrary test. */
module Lists {

  lemma Associative<T>(a: seq<T>, b: seq<T>, c: seq<T>)
    ensures a + (b + c) == (a + b) + c
  {
  }

  function FirstIndex<T>(xs: seq<T>, p: T -> bool): (i: int)
    ensures -1 <= i < |xs|
  {
    if xs == [] then -1
    else if p(xs[0]) then 0
    else
      var i := FirstIndex(xs[1..], p);
      if i == -1 then -1 else i + 1
  }

  lemma {:induction false} FirstIndexFacts<T>(xs: seq<T>, p: T -> bool)
    ensures var i := FirstIndex(xs, p);
      && (i != -1 ==> p(xs[i]))
      && forall j :: 0 <= j < (if i == -1 then |xs| else i) ==> !p(xs[j])
    decreases |xs|
  {
    if xs != [] {
      FirstIndexFacts(xs[1..], p);
      assert forall j :: 0 < j < |xs| ==> xs[j] == xs[1..][j - 1];
    }
  }

  lemma FirstIs<T>(xs: seq<T>, p: T -> bool, i: nat)
    requires i < |xs| && p(xs[i]) && forall j :: 0 <= j < i ==> !p(xs[j])
    ensures FirstIndex(xs, p) == i
  {
    FirstIndexFacts(xs, p);
  }

  /** The elements that fail the test, in order. */
  function Without<T>(xs: seq<T>, p: T -> bool): seq<T> {
    if xs == [] then [] else (if p(xs[0]) then [] else [xs[0]]) + Without(xs[1..], p)
  }

  lemma {:induction false} WithoutAppend<T>(xs: seq<T>, ys: seq<T>, p: T -> bool)
    ensures Without(xs + ys, p) == Without(xs, p) + Without(ys, p)
    decreases |xs|
  {
    if xs == [] {
      assert xs + ys == ys;
    } else {
      assert (xs + ys)[1..] == xs[1..] + ys;
      WithoutAppend(xs[1..], ys, p);
    }
  }

  lemma WithoutOne<T>(x: T, p: T -> bool)
    ensures Without([x], p) == if p(x) then [] else [x]
  {
    assert [x][1..] == [];
  }

  /** Replacing one removed element by another changes nothing. */
  lemma WithoutReplaced<T>(xs: seq<T>, i: nat, x: T, p: T -> bool)
    requires i < |xs| && p(xs[i]) && p(x)
    ensures Without(xs[i := x], p) == Without(xs, p)
  {
    var before, tail := xs[..i], xs[i + 1..];
    assert xs == before + [xs[i]] + tail;
    assert xs[i := x] == before + [x] + tail;
    WithoutAppend(before + [xs[i]], tail, p);
    WithoutAppend(before + [x], tail, p);
    WithoutAppend(before, [xs[i]], p);
    WithoutAppend(before, [x], p);
    WithoutOne(xs[i], p);
    WithoutOne(x, p);
  }

  /** Cutting out a removed element changes nothing. */
  lemma {:induction false} WithoutRemoved<T>(xs: seq<T>, i: nat, p: T -> bool)
    requires i < |xs| && p(xs[i])
    ensures Without(xs[..i] + xs[i + 1..], p) == Without(xs, p)
    decreases i
  {
    if i == 0 {
      assert xs[..0] + xs[1..] == xs[1..];
    } else {
      WithoutRemoved(xs[1..], i - 1, p);
      assert (xs[..i] + xs[i + 1..])[1..] == xs[1..][..i - 1] + xs[1..][i..];
    }
  }

  lemma {:induction false} WithoutNone<T>(xs: seq<T>, p: T -> bool)
    ensures FirstIndex(Without(xs, p), p) == -1
    ensures FirstIndex(xs, p) == -1 <==> Without(xs, p) == xs
    ensures |Without(xs, p)| <= |xs|
    decreases |xs|
  {
    if xs != [] {
      WithoutNone(xs[1..], p);
      assert xs == [xs[0]] + xs[1..];
      if !p(xs[0]) {
        assert Without(xs, p)[1..] == Without(xs[1..], p);
      } else {
        assert Without(xs, p) == Without(xs[1..], p);
      }
    }
  }

  lemma {:induction false} WithoutMembers<T>(xs: seq<T>, p: T -> bool)
    ensures forall x :: x in Without(xs, p) <==> x in xs && !p(x)
    decreases |xs|
  {
    if xs != [] {
      WithoutMembers(xs[1..], p);
      assert xs == [xs[0]] + xs[1..];
    }
  }

  lemma {:induction false} WithoutCounts<T>(xs: seq<T>, p: T -> bool, x: T)
    ensures multiset(Without(xs, p))[x] == if p(x) then 0 else multiset(xs)[x]
    decreases |xs|
  {
    if xs != [] {
      WithoutCounts(xs[1..], p, x);
      assert xs == [xs[0]] + xs[1..];
      assert Without(xs, p) == (if p(xs[0]) then [] else [xs[0]]) + Without(xs[1..], p);
    }
  }

  /** `flatMap`. */
  function Flatten<T, U>(xs: seq<T>, f: T -> seq<U>): seq<U> {
    if xs == [] then [] else Flatten(xs[..|xs| - 1], f) + f(xs[|xs| - 1])
  }

  lemma FlattenStep<T, U>(xs: seq<T>, i: nat, f: T -> seq<U>)
    requires i < |xs|
    ensures Flatten(xs[..i + 1], f) == Flatten(xs[..i], f) + f(xs[i])
  {
    assert xs[..i + 1][..i] == xs[..i];
  }

  lemma {:induction false} FlattenEmpty<T, U>(xs: seq<T>, f: T -> seq<U>)
    ensures Flatten(xs, f) == [] <==> forall x :: x in xs ==> f(x) == []
    decreases |xs|
  {
    if xs != [] {
      var n := |xs| - 1;
      FlattenEmpty(xs[..n], f);
      assert xs == xs[..n] + [xs[n]];
    }
  }

  lemma {:induction false} FlattenAppend<T, U>(xs: seq<T>, ys: seq<T>, f: T -> seq<U>)
    ensures Flatten(xs + ys, f) == Flatten(xs, f) + Flatten(ys, f)
    decreases |ys|
  {
    if ys == [] {
      assert xs + ys == xs;
    } else {
      var n := |ys| - 1;
      assert (xs + ys)[..|xs| + n] == xs + ys[..n];
      FlattenAppend(xs, ys[..n], f);
      Associative(Flatten(xs, f), Flatten(ys[..n], f), f(ys[n]));
    }
  }

  lemma FlattenOne<T, U>(x: T, f: T -> seq<U>)
    ensures Flatten([x], f) == f(x)
  {
    assert [x][..0] == [];
  }

  /** Removing elements loses nothing of a flattened list exactly when they contribute nothing. */
  lemma {:induction false} FlattenWithout<T, U>(xs: seq<T>, p: T -> bool, f: T -> seq<U>)
    ensures |Flatten(Without(xs, p), f)| <= |Flatten(xs, f)|
    ensures Flatten(Without(xs, p), f) == Flatten(xs, f) <==> forall x :: x in xs && p(x) ==> f(x) == []
    ensures |Flatten(Without(xs, p), f)| == |Flatten(xs, f)| ==> Flatten(Without(xs, p), f) == Flatten(xs, f)
    decreases |xs|
  {
    if xs != [] {
      var n := |xs| - 1;
      var front, x := xs[..n], xs[n];
      assert xs == front + [x];
      FlattenWithout(front, p, f);
      WithoutAppend(front, [x], p);
      WithoutOne(x, p);
      FlattenLast(Without(front, p), x, p(x), f);
    }
  }

  lemma FlattenLast<T, U>(kept: seq<T>, x: T, drop: bool, f: T -> seq<U>)
    ensures Flatten(kept + (if drop then [] else [x]), f) == Flatten(kept, f) + if drop then [] else f(x)
  {
    if drop {
      assert kept + [] == kept;
    } else {
      FlattenAppend(kept, [x], f);
      FlattenOne(x, f);
    }
  }

  /** Replacing one element changes its own contribution and no other. */
  lemma FlattenReplaced<T, U>(xs: seq<T>, i: nat, x: T, f: T -> seq<U>)
    requires i < |xs| && f(x) == []
    ensures Flatten(xs[i := x], f) == Flatten(xs, f) <==> f(xs[i]) == []
  {
    var a, b := xs[..i], xs[i + 1..];
    assert xs == a + ([xs[i]] + b) && xs[i := x] == a + ([x] + b);
    FlattenAppend(a, [xs[i]] + b, f);
    FlattenAppend(a, [x] + b, f);
    FlattenAppend([xs[i]], b, f);
    FlattenAppend([x], b, f);
    FlattenOne(xs[i], f);
    FlattenOne(x, f);
    SameOrLonger(Flatten(a, f), f(xs[i]), Flatten(b, f));
  }

  lemma SameOrLonger<U>(a: seq<U>, b: seq<U>, c: seq<U>)
    ensures a + ([] + c) == a + (b + c) <==> b == []
  {
    assert |a + (b + c)| == |a| + |b| + |c|;
  }

  /** `[...new Set(xs)]`: each element once, in order of first occurrence. */
  function Dedupe<T(==, !new)>(xs: seq<T>): (r: seq<T>)
    ensures forall x :: x in r <==> x in xs
  {
    if xs == [] then [] else
      var last := xs[|xs| - 1];
      var r := Dedupe(xs[..|xs| - 1]);
      assert xs == xs[..|xs| - 1] + [last];
      if last in r then r else r + [last]
  }

  predicate NoRepeats<T(==)>(xs: seq<T>) {
    forall i, j :: 0 <= i < j < |xs| ==> xs[i] != xs[j]
  }

  lemma {:induction false} DedupeOnce<T(!new)>(xs: seq<T>)
    ensures NoRepeats(Dedupe(xs))
    decreases |xs|
  {
    if xs != [] {
      DedupeOnce(xs[..|xs| - 1]);
    }
  }

  lemma DedupeOne<T(!new)>(x: T)
    ensures Dedupe([x]) == [x]
  {
    assert [x][..0] == [];
  }
}
