/** String operations of the JavaScript standard library, as far as the scripts use them. */
module Text {
  import opened Wrappers

  /** White space and line terminators: what `\s` matches and `trim` removes. */
  predicate IsSpace(c: char) {
    var n := c as int;
    || 9 <= n <= 13 || n == 0x20 || n == 0xA0 || n == 0x1680 || 0x2000 <= n <= 0x200A
    || n == 0x2028 || n == 0x2029 || n == 0x202F || n == 0x205F || n == 0x3000 || n == 0xFEFF
  }

  predicate IsDigit(c: char) {
    '0' <= c <= '9'
  }

  predicate AllDigits(s: string) {
    s != "" && forall i :: 0 <= i < |s| ==> IsDigit(s[i])
  }

  predicate IsLower(c: char) {
    'a' <= c <= 'z'
  }

  function TrimStart(s: string): (r: string) {
    if s != "" && IsSpace(s[0]) then TrimStart(s[1..]) else s
  }

  function TrimEnd(s: string): (r: string) {
    if s != "" && IsSpace(s[|s| - 1]) then TrimEnd(s[..|s| - 1]) else s
  }

  function Trim(s: string): string {
    TrimEnd(TrimStart(s))
  }

  lemma {:induction false} TrimStartFacts(s: string)
    ensures |TrimStart(s)| <= |s| && TrimStart(s) == s[|s| - |TrimStart(s)|..]
    ensures forall i :: 0 <= i < |s| - |TrimStart(s)| ==> IsSpace(s[i])
    ensures TrimStart(s) != "" ==> !IsSpace(TrimStart(s)[0])
    decreases |s|
  {
    if s != "" && IsSpace(s[0]) {
      var t := s[1..];
      TrimStartFacts(t);
      assert forall i :: 0 < i < |s| ==> s[i] == t[i - 1];
    }
  }

  lemma {:induction false} TrimEndFacts(s: string)
    ensures TrimEnd(s) <= s
    ensures forall i :: |TrimEnd(s)| <= i < |s| ==> IsSpace(s[i])
    ensures TrimEnd(s) != "" ==> !IsSpace(TrimEnd(s)[|TrimEnd(s)| - 1])
    decreases |s|
  {
    if s != "" && IsSpace(s[|s| - 1]) {
      TrimEndFacts(s[..|s| - 1]);
    }
  }

  predicate StartsWith(s: string, p: string) {
    p <= s
  }

  predicate EndsWith(s: string, c: char) {
    s != "" && s[|s| - 1] == c
  }

  predicate MatchesAt(s: string, p: string, i: int) {
    0 <= i && i + |p| <= |s| && s[i..i + |p|] == p
  }

  predicate Free(s: string, c: char) {
    c !in s
  }

  predicate AllFree(ss: seq<string>, c: char) {
    forall i :: 0 <= i < |ss| ==> Free(ss[i], c)
  }

  /** `s.indexOf(p, from)`. */
  function IndexFrom(s: string, p: string, from: nat): (i: int)
    ensures i == -1 || (from <= i && i + |p| <= |s|)
    decreases |s| - from
  {
    if from > |s| then -1
    else if MatchesAt(s, p, from) then from
    else IndexFrom(s, p, from + 1)
  }

  /** The result is the first occurrence, or there is none. */
  lemma IndexFacts(s: string, p: string, from: nat)
    ensures var i := IndexFrom(s, p, from);
      && (i == -1 || MatchesAt(s, p, i))
      && forall k :: from <= k && (i == -1 || k < i) ==> !MatchesAt(s, p, k)
    decreases |s| - from
  {
    if from <= |s| && !MatchesAt(s, p, from) {
      IndexFacts(s, p, from + 1);
    }
  }

  lemma MatchInPrefix(s: string, t: string, p: string, i: nat)
    requires s <= t && i + |p| <= |s|
    ensures MatchesAt(s, p, i) <==> MatchesAt(t, p, i)
  {
    assert s[i..i + |p|] == t[i..i + |p|];
  }

  lemma MatchInSuffix(a: string, b: string, p: string, i: nat)
    ensures MatchesAt(a + b, p, |a| + i) <==> MatchesAt(b, p, i)
  {
    if i + |p| <= |b| {
      assert (a + b)[|a| + i..|a| + i + |p|] == b[i..i + |p|];
    }
  }

  lemma MatchChar(s: string, p: string, i: nat, j: nat)
    requires j < |p|
    ensures MatchesAt(s, p, i) ==> s[i + j] == p[j]
  {
    assert MatchesAt(s, p, i) ==> s[i..i + |p|][j] == s[i + j];
  }

  lemma FoundAt(s: string, p: string, from: nat, i: nat)
    requires from <= i && MatchesAt(s, p, i)
    requires forall k :: from <= k < i ==> !MatchesAt(s, p, k)
    ensures IndexFrom(s, p, from) == i
  {
    IndexFacts(s, p, from);
  }

  predicate Contains(s: string, p: string) {
    IndexFrom(s, p, 0) != -1
  }

  function Join(ss: seq<string>, sep: string): string {
    if ss == [] then "" else if |ss| == 1 then ss[0] else ss[0] + sep + Join(ss[1..], sep)
  }

  /** `s.split(sep)` for a non-empty separator. */
  function SplitOn(s: string, sep: string): (r: seq<string>)
    requires sep != ""
    ensures r != []
    decreases |s|
  {
    var i := IndexFrom(s, sep, 0);
    if i == -1 then [s] else [s[..i]] + SplitOn(s[i + |sep|..], sep)
  }

  /** An occurrence is found by the search, and so is every occurrence inside a larger string. */
  lemma ContainsAt(s: string, p: string, i: int)
    requires MatchesAt(s, p, i)
    ensures Contains(s, p)
  {
    IndexFacts(s, p, 0);
  }

  lemma TrimEndFixes(s: string, w: string)
    requires s == "" || !IsSpace(s[|s| - 1])
    requires forall i :: 0 <= i < |w| ==> IsSpace(w[i])
    ensures TrimEnd(s + w) == s
  {
    if w != "" {
      assert (s + w)[..|s + w| - 1] == s + w[..|w| - 1];
      TrimEndFixes(s, w[..|w| - 1]);
    } else {
      assert s + w == s;
    }
  }

  lemma TrimFixes(s: string)
    requires s != "" && !IsSpace(s[0]) && !IsSpace(s[|s| - 1])
    ensures Trim(s) == s
  {
  }

  lemma TrimmedEnds(s: string)
    requires s != "" && Trim(s) == s
    ensures !IsSpace(s[0]) && !IsSpace(s[|s| - 1])
  {
    TrimStartFacts(s);
    TrimEndFacts(TrimStart(s));
    assert |TrimStart(s)| == |s|;
  }

  /** Splitting a joined list of separator-free strings gives the list back. */
  lemma {:induction false} SplitInvertsJoin(ss: seq<string>, c: char)
    requires ss != [] && AllFree(ss, c)
    ensures SplitOn(Join(ss, [c]), [c]) == ss
  {
    if |ss| == 1 {
      assert Free(ss[0], c);
      assert forall k :: MatchesAt(ss[0], [c], k) ==> ss[0][k] == c;
      IndexFacts(ss[0], [c], 0);
    } else {
      var j := Join(ss, [c]);
      var rest := Join(ss[1..], [c]);
      assert MatchesAt(j, [c], |ss[0]|);
      assert Free(ss[0], c);
      assert forall k :: 0 <= k < |ss[0]| ==> j[k] == ss[0][k];
      assert forall k :: MatchesAt(j, [c], k) ==> j[k] == c;
      FoundAt(j, [c], 0, |ss[0]|);
      assert j[|ss[0]| + 1..] == rest && j[..|ss[0]|] == ss[0];
      SplitInvertsJoin(ss[1..], c);
    }
  }

  // ---- splitting at a character ----

  function FirstOf(s: string, c: char): (i: int)
    ensures -1 <= i < |s|
    ensures i != -1 ==> s[i] == c
    ensures forall j :: 0 <= j < (if i == -1 then |s| else i) ==> s[j] != c
  {
    if s == "" then -1
    else if s[0] == c then 0
    else
      var i := FirstOf(s[1..], c);
      if i == -1 then -1 else i + 1
  }

  function LastOf(s: string, c: char): (i: int)
    ensures -1 <= i < |s|
    ensures i != -1 ==> s[i] == c
    ensures forall j :: i < j < |s| ==> s[j] != c
  {
    if s == "" then -1
    else if s[|s| - 1] == c then |s| - 1
    else LastOf(s[..|s| - 1], c)
  }

  /** `head` and `tail` around the first `c`, when both are non-empty. */
  function Cut(s: string, c: char): Option<(string, string)> {
    var i := FirstOf(s, c);
    if i <= 0 || i == |s| - 1 then None else Some((s[..i], s[i + 1..]))
  }

  lemma CutJoined(head: string, tail: string, c: char)
    requires head != "" && tail != "" && Free(head, c)
    ensures Cut(head + [c] + tail, c) == Some((head, tail))
  {
    var s := head + [c] + tail;
    assert s[|head|] == c;
    assert forall j :: 0 <= j < |head| ==> s[j] == head[j] && head[j] in head;
    assert FirstOf(s, c) == |head|;
    assert s[..|head|] == head && s[|head| + 1..] == tail;
  }

  lemma FreeUpTo(s: string, i: int, c: char)
    requires 0 <= i <= |s| && forall j :: 0 <= j < i ==> s[j] != c
    ensures Free(s[..i], c)
  {
  }
}
