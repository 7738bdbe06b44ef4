/** A changelog text cut at its release headings. */
module ReleasePieces {
  import opened Lists
  import opened Text
  import opened Changelog
  import opened ChangelogLaws

  /** The text up to the first heading, then one piece per release heading that follows a newline. */
  function Pieces(s: string): (ps: seq<string>)
    ensures ps != []
  {
    SplitOn(s, RELEASE)
  }

  /** The whole file, whose very first line may open a release too: the introduction, then the releases. */
  function Blocks(content: string): (bs: seq<string>)
    ensures bs != []
  {
    Pieces("\n" + content)
  }

  function Last(bs: seq<string>): string
    requires bs != []
  {
    bs[|bs| - 1]
  }

  /** A change of the last piece only. */
  function WithLast(bs: seq<string>, last: string): seq<string>
    requires bs != []
  {
    bs[..|bs| - 1] + [last]
  }

  function FinalNewline(bs: seq<string>): seq<string> {
    if bs == [] then [] else WithLast(bs, EnsureNewline(Last(bs)))
  }

  /** The pieces of what follows a release: nothing, or text that opens a release. */
  function After(rest: string): seq<string>
    requires rest == "" || OpensRelease(rest)
  {
    if rest == "" then [] else Pieces(rest[4..])
  }

  // ---- cutting at the first heading, and at any heading ----

  lemma FirstRelease(c: string, i: nat)
    requires ReleaseAt(c, i) && forall j :: j < i ==> !ReleaseAt(c, j)
    ensures Pieces(c) == [c[..i]] + Pieces(c[i + 5..])
  {
    ReleaseAtMatches(c, i);
    forall j | 0 <= j < i ensures !MatchesAt(c, RELEASE, j) { ReleaseAtMatches(c, j); }
    FoundAt(c, RELEASE, 0, i);
  }

  lemma OnePiece(c: string)
    requires NoRelease(c)
    ensures Pieces(c) == [c]
  {
    ReleaseIndex(c, 0);
  }

  lemma FirstOrNone(c: string) returns (i: int)
    ensures i == -1 ==> NoRelease(c)
    ensures i != -1 ==> ReleaseAt(c, i) && forall j :: j < i ==> !ReleaseAt(c, j)
  {
    i := IndexFrom(c, RELEASE, 0);
    ReleaseIndex(c, 0);
  }

  lemma ReleasesOfParts(c: string, p: nat)
    requires p <= |c|
    ensures forall j :: ReleaseAt(c[..p], j) <==> ReleaseAt(c, j) && j + 5 <= p
    ensures forall j :: ReleaseAt(c[p..], j) <==> 0 <= j && ReleaseAt(c, p + j)
  {
  }

  lemma {:induction false} SplitAtRelease(c: string, p: nat)
    requires ReleaseAt(c, p)
    ensures Pieces(c) == Pieces(c[..p]) + Pieces(c[p + 5..])
    decreases |c|
  {
    var i := FirstOrNone(c);
    FirstRelease(c, i);
    var left := c[..p];
    ReleasesOfParts(c, p);
    if i == p {
      OnePiece(left);
    } else {
      assert i + 5 <= p;
      var rest, q := c[i + 5..], p - i - 5;
      ReleasesOfParts(c, i + 5);
      assert ReleaseAt(rest, q);
      SplitAtRelease(rest, q);
      FirstRelease(left, i);
      assert rest[..q] == left[i + 5..];
      assert rest[q + 5..] == c[p + 5..];
      assert left[..i] == c[..i];
      Associative([c[..i]], Pieces(rest[..q]), Pieces(c[p + 5..]));
    }
  }

  /** Text in which no heading ends belongs to the last piece. */
  lemma {:induction false} AppendLast(x: string, y: string)
    requires forall j :: ReleaseAt(x + y, j) ==> j + 5 <= |x|
    ensures Pieces(x + y) == WithLast(Pieces(x), Last(Pieces(x)) + y)
    decreases |x|
  {
    var s := x + y;
    SameReleases(x, y);
    var i := FirstOrNone(x);
    if i == -1 {
      OnePiece(x);
      OnePiece(s);
    } else {
      FirstRelease(x, i);
      FirstRelease(s, i);
      var tail := x[i + 5..];
      assert s[i + 5..] == tail + y && s[..i] == x[..i];
      ReleasesOfParts(s, i + 5);
      AppendLast(tail, y);
    }
  }

  lemma SameReleases(x: string, y: string)
    requires forall j :: ReleaseAt(x + y, j) ==> j + 5 <= |x|
    ensures forall j :: ReleaseAt(x + y, j) <==> ReleaseAt(x, j)
  {
    assert (x + y)[..|x|] == x;
    ReleasesOfParts(x + y, |x|);
  }

  lemma TrailingNewline(c: string)
    ensures Pieces(c + "\n") == WithLast(Pieces(c), Last(Pieces(c)) + "\n")
  {
    assert forall j :: ReleaseAt(c + "\n", j) ==> (c + "\n")[j + 4] == '[';
    AppendLast(c, "\n");
  }

  // ---- lists that differ in the newlines of their last piece ----

  predicate SameUpToNewlines(a: seq<string>, b: seq<string>) {
    && |a| == |b| > 0
    && a[..|a| - 1] == b[..|b| - 1]
    && StripNewlines(Last(a)) == StripNewlines(Last(b))
  }

  lemma {:induction false} StrippedPieces(lead: string, q: string)
    ensures SameUpToNewlines(Pieces(lead + StripNewlines(q)), Pieces(lead + q))
    decreases |q|
  {
    if EndsWith(q, '\n') {
      var r := q[..|q| - 1];
      assert lead + q == (lead + r) + "\n";
      TrailingNewline(lead + r);
      StrippedPieces(lead, r);
      StripOne(Last(Pieces(lead + r)));
    }
  }

  /** Stripping newlines and ending the line again. */
  lemma RestoredLine(lead: string, q: string)
    ensures SameUpToNewlines(Pieces(lead + StripNewlines(q) + "\n"), Pieces(lead + q))
  {
    var p := lead + StripNewlines(q);
    StrippedPieces(lead, q);
    TrailingNewline(p);
    StripOne(Last(Pieces(p)));
  }

  // ---- the pieces around a placed section ----

  /** The section's own piece: all of it at the end of a file, without its last newline before a release. */
  function OwnPiece(placed: string, rest: string): string
    requires |placed| > 4
  {
    if rest == "" then placed[4..] else placed[4..|placed| - 1]
  }

  lemma PiecesAround(p: string, placed: string, rest: string)
    requires NoRelease(placed) && OpensRelease(placed) && EndsWith(placed, '\n')
    requires rest == "" || OpensRelease(rest)
    ensures |placed| > 4
    ensures Pieces(p + "\n" + (placed + rest)) == Pieces(p) + ([OwnPiece(placed, rest)] + After(rest))
  {
    var u := p + "\n" + (placed + rest);
    var at := |p|;
    assert placed[3] == '[';
    assert u[at] == '\n' && u[at + 1] == placed[0] && u[at + 2] == placed[1] && u[at + 3] == placed[2]
      && u[at + 4] == placed[3];
    SplitAtRelease(u, at);
    assert u[..at] == p;
    assert u[at + 5..] == placed[4..] + rest;
    PiecesInside(placed, rest);
  }

  lemma PiecesInside(placed: string, rest: string)
    requires NoRelease(placed) && OpensRelease(placed) && EndsWith(placed, '\n') && |placed| > 4
    requires rest == "" || OpensRelease(rest)
    ensures Pieces(placed[4..] + rest) == [OwnPiece(placed, rest)] + After(rest)
  {
    var tail := placed[4..] + rest;
    var end := |placed| - 1;
    ReleasesOfParts(placed, 4);
    if rest == "" {
      assert tail == placed[4..];
      OnePiece(tail);
    } else {
      assert tail[end - 4] == '\n' && tail[end - 3] == rest[0] && tail[end - 2] == rest[1] && tail[end - 1] == rest[2]
        && tail[end] == rest[3];
      SplitAtRelease(tail, end - 4);
      assert tail[..end - 4] == placed[4..end] && tail[end + 1..] == rest[4..];
      assert forall j :: ReleaseAt(placed[4..end], j) ==> ReleaseAt(placed, j + 4);
      OnePiece(placed[4..end]);
    }
  }

  lemma FinalNewlinePieces(rest: string)
    requires rest == "" || OpensRelease(rest)
    ensures var rest' := if rest == "" then "" else EnsureNewline(rest);
      (rest' == "" || OpensRelease(rest')) && After(rest') == FinalNewline(After(rest))
  {
    if rest != "" {
      var r := rest[4..];
      LastEnds(r);
      if !EndsWith(rest, '\n') {
        assert EnsureNewline(rest)[4..] == r + "\n";
        TrailingNewline(r);
      }
    }
  }

  lemma {:induction false} LastEnds(r: string)
    ensures EndsWith(r, '\n') <==> EndsWith(Last(Pieces(r)), '\n')
    decreases |r|
  {
    var i := FirstOrNone(r);
    if i == -1 {
      OnePiece(r);
    } else {
      FirstRelease(r, i);
      LastEnds(r[i + 5..]);
      assert r[i + 4] == '[';
    }
  }

  /** What update writes around a section that starts a line. */
  lemma PiecesOfPlaced(p: string, placed: string, rest: string)
    requires NoRelease(placed) && OpensRelease(placed) && EndsWith(placed, '\n')
    requires rest == "" || OpensRelease(rest)
    ensures |placed| > 4
    ensures Pieces(EnsureNewline(p + "\n" + placed + rest))
         == Pieces(p) + ([OwnPiece(placed, rest)] + FinalNewline(After(rest)))
  {
    var rest' := if rest == "" then "" else EnsureNewline(rest);
    assert placed[3] == '[';
    FinalNewlinePieces(rest);
    EnsureNewlineAppend(p + "\n", placed, rest);
    PiecesAround(p, placed, rest');
  }
}
