/** scripts/changelog.js: reading the commits that `git log` prints as NUL-delimited records. */
module GitLog {
  import opened Text

  const NUL := '\0'

  datatype Commit = Commit(hash: string, subject: string, body: string)

  // ---- the printer: --pretty=format:%H%x00%s%x00%b%x00%x00 ----

  function Record(c: Commit): string {
    c.hash + [NUL] + c.subject + [NUL] + c.body + [NUL] + [NUL]
  }

  function Log(commits: seq<Commit>): string {
    if commits == [] then ""
    else if |commits| == 1 then Record(commits[0])
    else Record(commits[0]) + "\n" + Log(commits[1..])
  }

  // ---- the token loop ----

  function TokenAt(tokens: seq<string>, i: nat): string {
    if i < |tokens| then tokens[i] else ""
  }

  /** The first token from `i` on that is not blank. */
  function SkipBlank(tokens: seq<string>, i: nat): (j: nat)
    ensures j >= i
    decreases |tokens| - i
  {
    if i < |tokens| && Trim(tokens[i]) == "" then SkipBlank(tokens, i + 1) else i
  }

  function ParseFrom(tokens: seq<string>, i: nat): seq<Commit>
    decreases |tokens| - i
  {
    if i >= |tokens| then [] else
      var hash := TrimStart(tokens[i]);
      if |hash| < 10 then ParseFrom(tokens, i + 1) else
        var subject := Trim(TokenAt(tokens, i + 1));
        var body := Trim(TokenAt(tokens, i + 2));
        var rest := ParseFrom(tokens, SkipBlank(tokens, i + 3));
        if subject == "" then rest else [Commit(hash[..7], subject, body)] + rest
  }

  function Parse(out: string): seq<Commit> {
    var text := Trim(out);
    if text == "" then [] else ParseFrom(SplitOn(text, [NUL]), 0)
  }

  /** The inner loop, over the blank tokens between two records. */
  method SkipBlankTokens(tokens: seq<string>, from: nat) returns (i: nat)
    ensures i == SkipBlank(tokens, from)
  {
    i := from;
    while i < |tokens| && (tokens[i] == "" || Trim(tokens[i]) == "")
      invariant SkipBlank(tokens, i) == SkipBlank(tokens, from)
    {
      i := i + 1;
    }
  }

  method GetCommits(out: string) returns (commits: seq<Commit>)
    ensures commits == Parse(out)
  {
    var text := Trim(out);
    commits := [];
    if text != "" {
      commits := ParseTokenList(SplitOn(text, [NUL]));
    }
  }

  /** The loop over the tokens. */
  method ParseTokenList(tokens: seq<string>) returns (commits: seq<Commit>)
    ensures commits == ParseFrom(tokens, 0)
  {
    commits := [];
    var i := 0;
    while i < |tokens|
      invariant commits + ParseFrom(tokens, i) == ParseFrom(tokens, 0)
      decreases |tokens| - i
    {
      var hash := TrimStart(tokens[i]);
      i := i + 1;
      if hash == "" || |hash| < 10 {
        continue;
      }
      var subject := Trim(if i < |tokens| then tokens[i] else "");
      i := i + 1;
      var body := Trim(if i < |tokens| then tokens[i] else "");
      i := i + 1;
      i := SkipBlankTokens(tokens, i);
      if subject != "" {
        commits := commits + [Commit(hash[..7], subject, body)];
      }
    }
  }

  // ---- the loop inverts the printer ----

  /** What git guarantees of a record: a full hash, no NUL in any field. */
  ghost predicate Printable(c: Commit) {
    && |c.hash| >= 10 && !IsSpace(c.hash[0])
    && Free(c.hash, NUL) && Free(c.subject, NUL) && Free(c.body, NUL)
  }

  ghost predicate AllPrintable(cs: seq<Commit>)
    ensures AllPrintable(cs) ==> forall i :: 0 <= i < |cs| ==> |cs[i].hash| >= 7
  {
    forall i :: 0 <= i < |cs| ==> Printable(cs[i])
  }

  /** What the reader keeps of one commit: its first 7 hash digits and trimmed texts, unless the subject is blank. */
  function Kept(c: Commit): seq<Commit>
    requires |c.hash| >= 7
  {
    if Trim(c.subject) == "" then [] else [Commit(c.hash[..7], Trim(c.subject), Trim(c.body))]
  }

  /** The commits with a non-blank subject, in order. */
  function Shown(cs: seq<Commit>): seq<Commit>
    requires forall i :: 0 <= i < |cs| ==> |cs[i].hash| >= 7
  {
    if cs == [] then [] else Kept(cs[0]) + Shown(cs[1..])
  }

  /** The tokens of a log whose first hash is preceded by `lead`. */
  function Tokens(lead: string, cs: seq<Commit>): (ts: seq<string>)
    ensures ts != []
    decreases |cs|
  {
    if cs == [] then [lead]
    else [lead + cs[0].hash, cs[0].subject, cs[0].body, ""] + Tokens(if |cs| == 1 then "" else "\n", cs[1..])
  }

  lemma {:induction false} JoinTokens(lead: string, cs: seq<Commit>)
    requires cs != []
    ensures Join(Tokens(lead, cs), [NUL]) == lead + Log(cs)
    decreases |cs|
  {
    var c := cs[0];
    var lead' := if |cs| == 1 then "" else "\n";
    var rest := Tokens(lead', cs[1..]);
    var ts := Tokens(lead, cs);
    var tail := Join(rest, [NUL]);
    assert ts == [lead + c.hash] + ([c.subject] + ([c.body] + ([""] + rest)));
    JoinCons("", rest, [NUL]);
    JoinCons(c.body, [""] + rest, [NUL]);
    JoinCons(c.subject, [c.body] + ([""] + rest), [NUL]);
    JoinCons(lead + c.hash, [c.subject] + ([c.body] + ([""] + rest)), [NUL]);
    Flatten(lead, c, tail);
    if |cs| == 1 {
      assert cs[1..] == [] && rest == [""] && Record(c) + tail == Record(c);
    } else {
      JoinTokens(lead', cs[1..]);
      assert Record(c) + tail == Log(cs);
    }
  }

  lemma JoinCons(t: string, ts: seq<string>, sep: string)
    requires ts != []
    ensures Join([t] + ts, sep) == t + sep + Join(ts, sep)
  {
    assert ([t] + ts)[1..] == ts;
  }

  lemma Flatten(lead: string, c: Commit, tail: string)
    ensures lead + c.hash + [NUL] + (c.subject + [NUL] + (c.body + [NUL] + ("" + [NUL] + tail)))
         == lead + (Record(c) + tail)
  {
  }

  lemma {:induction false} TokensFree(lead: string, cs: seq<Commit>)
    requires AllPrintable(cs) && Free(lead, NUL)
    ensures AllFree(Tokens(lead, cs), NUL)
    decreases |cs|
  {
    if cs != [] {
      assert Printable(cs[0]);
      TokensFree(if |cs| == 1 then "" else "\n", cs[1..]);
    }
  }

  lemma SkipLead(lead: string, hash: string)
    requires lead == "" || lead == "\n"
    requires hash != "" && !IsSpace(hash[0])
    ensures TrimStart(lead + hash) == hash
  {
    if lead == "\n" {
      assert (lead + hash)[1..] == hash;
    } else {
      assert lead + hash == hash;
    }
  }

  /** From any record on, whatever came before it. */
  lemma {:induction false} ParseTokens(before: seq<string>, lead: string, cs: seq<Commit>)
    requires AllPrintable(cs) && (lead == "" || lead == "\n")
    ensures ParseFrom(before + Tokens(lead, cs), SkipBlank(before + Tokens(lead, cs), |before|)) == Shown(cs)
    decreases |cs|
  {
    var ts := before + Tokens(lead, cs);
    var i := |before|;
    if cs == [] {
      assert ts[i] == lead && |ts| == i + 1;
      assert "\n"[1..] == "";
      assert Trim(lead) == "";
    } else {
      var c := cs[0];
      var lead' := if |cs| == 1 then "" else "\n";
      var four := [lead + c.hash, c.subject, c.body, ""];
      assert Printable(c);
      ParseRecord(ts, i, lead, c);
      assert ts == (before + four) + Tokens(lead', cs[1..]);
      ParseTokens(before + four, lead', cs[1..]);
    }
  }

  lemma ParseRecord(ts: seq<string>, i: nat, lead: string, c: Commit)
    requires Printable(c) && (lead == "" || lead == "\n")
    requires i + 3 < |ts|
    requires ts[i] == lead + c.hash && ts[i + 1] == c.subject && ts[i + 2] == c.body && ts[i + 3] == ""
    ensures ParseFrom(ts, SkipBlank(ts, i)) == Kept(c) + ParseFrom(ts, SkipBlank(ts, i + 4))
  {
    SkipLead(lead, c.hash);
    NotBlank(c.hash);
    assert SkipBlank(ts, i) == i;
    assert SkipBlank(ts, i + 3) == SkipBlank(ts, i + 4);
  }

  lemma NotBlank(s: string)
    requires s != "" && !IsSpace(s[0])
    ensures TrimEnd(s) != ""
  {
    TrimEndFacts(s);
  }

  /** A printed log starts with a hash and ends with NUL, so trimming it changes nothing. */
  lemma {:induction false} LogEnds(cs: seq<Commit>)
    requires cs != [] && AllPrintable(cs)
    ensures |Log(cs)| > 1 && !IsSpace(Log(cs)[0]) && Log(cs)[|Log(cs)| - 1] == NUL
  {
    assert Printable(cs[0]);
    if |cs| > 1 {
      LogEnds(cs[1..]);
    }
  }

  /** Reading a printed log gives back its commits: none lost, none merged, none misaligned. */
  lemma ParseInvertsLog(cs: seq<Commit>)
    requires AllPrintable(cs)
    ensures Parse(Log(cs)) == Shown(cs)
  {
    if cs != [] {
      LogEnds(cs);
      TrimFixes(Log(cs));
      JoinTokens("", cs);
      assert "" + Log(cs) == Log(cs);
      TokensFree("", cs);
      SplitInvertsJoin(Tokens("", cs), NUL);
      ParseTokens([], "", cs);
      assert [] + Tokens("", cs) == Tokens("", cs);
      FirstNotBlank(cs);
    }
  }

  lemma FirstNotBlank(cs: seq<Commit>)
    requires cs != [] && AllPrintable(cs)
    ensures SkipBlank(Tokens("", cs), 0) == 0
  {
    assert Printable(cs[0]);
    SkipLead("", cs[0].hash);
    NotBlank(cs[0].hash);
  }
}
