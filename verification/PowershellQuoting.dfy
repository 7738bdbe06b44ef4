/** scripts/lib/mcp-action-runtime.js: the command line printed for PowerShell, and when it reads back. */
module PowershellQuoting {
  import opened Wrappers
  import opened Text
  import opened ShellQuoting

  /** PowerShell takes the typographic single quotes U+2018 to U+201B for the apostrophe. */
  predicate IsTypographic(c: char) {
    0x2018 <= c as int <= 0x201B
  }

  predicate IsQuote(c: char) {
    c == '\'' || IsTypographic(c)
  }

  datatype PsMode = Between | Plain | Quoted | QuoteSeen | PsRefused

  datatype PsState = PsState(mode: PsMode, word: string, words: seq<string>)

  /**
   * A reader for blank-separated words, each a run of safe characters or one single-quoted text in
   * which two quotes in a row stand for the second. Everything else is refused.
   */
  function PsNext(st: PsState, c: char): PsState {
    match st.mode
    case Between =>
      if c == ' ' then st
      else if IsQuote(c) then PsState(Quoted, "", st.words)
      else if PowershellSafe(c) then PsState(Plain, [c], st.words)
      else st.(mode := PsRefused)
    case Plain =>
      if c == ' ' then PsState(Between, "", st.words + [st.word])
      else if PowershellSafe(c) then st.(word := st.word + [c])
      else st.(mode := PsRefused)
    case Quoted =>
      if IsQuote(c) then st.(mode := QuoteSeen) else st.(word := st.word + [c])
    case QuoteSeen =>
      if IsQuote(c) then PsState(Quoted, st.word + [c], st.words)
      else if c == ' ' then PsState(Between, "", st.words + [st.word])
      else st.(mode := PsRefused)
    case PsRefused => st
  }

  function PsRun(s: string, st: PsState): PsState {
    if s == "" then st else PsRun(s[1..], PsNext(st, s[0]))
  }

  function Result(st: PsState): Option<seq<string>> {
    match st.mode
    case Between => Some(st.words)
    case Plain => Some(st.words + [st.word])
    case QuoteSeen => Some(st.words + [st.word])
    case _ => None
  }

  function ReadPowershell(line: string): Option<seq<string>> {
    Result(PsRun(line, PsState(Between, "", [])))
  }

  predicate Plainly(text: string) {
    forall i :: 0 <= i < |text| ==> text[i] !in ['\U{2018}', '\U{2019}', '\U{201A}', '\U{201B}']
  }

  predicate AllPlainly(argv: seq<string>) {
    forall i :: 0 <= i < |argv| ==> Plainly(argv[i])
  }

  lemma {:induction false} PsRunAppend(a: string, b: string, st: PsState)
    ensures PsRun(a + b, st) == PsRun(b, PsRun(a, st))
    decreases |a|
  {
    if a == "" {
      assert a + b == b;
    } else {
      assert (a + b)[1..] == a[1..] + b;
      PsRunAppend(a[1..], b, PsNext(st, a[0]));
    }
  }

  lemma PsRunOne(c: char, st: PsState)
    ensures PsRun([c], st) == PsNext(st, c)
  {
    assert [c][1..] == "";
  }

  // ---- without typographic quotes the line reads back ----

  lemma {:induction false} PsRunSafe(text: string, st: PsState)
    requires text != "" ==> SafeToken(text, PowershellSafe)
    requires st.mode.Plain?
    ensures PsRun(text, st) == st.(word := st.word + text)
    decreases |text|
  {
    if text == "" {
      assert st.word + "" == st.word;
    } else {
      var c, t := text[0], text[1..];
      assert PowershellSafe(c);
      PsRunSafe(t, st.(word := st.word + [c]));
      assert st.word + [c] + t == st.word + text;
    }
  }

  lemma {:induction false} PsRunQuoted(text: string, st: PsState)
    requires Plainly(text) && st.mode.Quoted?
    ensures PsRun(ReplaceChar(text, '\'', "''"), st) == st.(word := st.word + text)
    decreases |text|
  {
    if text == "" {
      assert st.word + "" == st.word;
    } else {
      var c, t := text[0], text[1..];
      var one := if c == '\'' then "''" else [c];
      assert !IsTypographic(c);
      PsRunAppend(one, ReplaceChar(t, '\'', "''"), st);
      PsRunOne(c, st);
      PsRunOne('\'', st.(mode := QuoteSeen));
      assert "''"[1..] == "'";
      PsRunQuoted(t, st.(word := st.word + [c]));
      assert st.word + [c] + t == st.word + text;
    }
  }

  /** After a printed token the reader holds its text, in a state that a blank or the end completes. */
  lemma PsRunToken(text: string, words: seq<string>)
    requires Plainly(text)
    ensures var st := PsRun(QuotePowershell(text), PsState(Between, "", words));
      (st.mode.Plain? || st.mode.QuoteSeen?) && st.word == text && st.words == words
  {
    var st := PsState(Between, "", words);
    if SafeToken(text, PowershellSafe) {
      assert PowershellSafe(text[0]);
      PsRunSafe(text[1..], PsState(Plain, [text[0]], words));
      assert [text[0]] + text[1..] == text;
    } else {
      var inner := ReplaceChar(text, '\'', "''");
      assert QuotePowershell(text) == "'" + (inner + "'");
      PsRunAppend("'", inner + "'", st);
      PsRunAppend(inner, "'", PsState(Quoted, "", words));
      PsRunOne('\'', st);
      PsRunQuoted(text, PsState(Quoted, "", words));
      assert "" + text == text;
      PsRunOne('\'', PsState(Quoted, text, words));
    }
  }

  lemma {:induction false} PsRunTokens(argv: seq<string>, words: seq<string>)
    requires argv != [] && AllPlainly(argv)
    ensures var st := PsRun(CommandLine(argv, QuotePowershell), PsState(Between, "", words));
      (st.mode.Plain? || st.mode.QuoteSeen?) && st.words + [st.word] == words + argv
    decreases |argv|
  {
    var head, start := argv[0], PsState(Between, "", words);
    PsRunToken(head, words);
    if |argv| > 1 {
      var rest := CommandLine(argv[1..], QuotePowershell);
      var st := PsRun(QuotePowershell(head), start);
      assert QuoteAll(argv, QuotePowershell)[1..] == QuoteAll(argv[1..], QuotePowershell);
      assert CommandLine(argv, QuotePowershell) == QuotePowershell(head) + (" " + rest);
      PsRunAppend(QuotePowershell(head), " " + rest, start);
      PsRunAppend(" ", rest, st);
      PsRunOne(' ', st);
      PsRunTokens(argv[1..], words + [head]);
      assert words + [head] + argv[1..] == words + argv;
    }
  }

  // ---- with one it cannot: counting quotes ----

  function Count(s: string, p: char -> bool): nat {
    if s == "" then 0 else (if p(s[0]) then 1 else 0) + Count(s[1..], p)
  }

  lemma {:induction false} CountAppend(a: string, b: string, p: char -> bool)
    ensures Count(a + b, p) == Count(a, p) + Count(b, p)
    decreases |a|
  {
    if a == "" {
      assert a + b == b;
    } else {
      assert (a + b)[1..] == a[1..] + b;
      CountAppend(a[1..], b, p);
    }
  }

  /** The fewest quote characters a line must hold for the reader to return these words. */
  function Cost(words: seq<string>): nat {
    if words == [] then 0 else
      var w := words[|words| - 1];
      Cost(words[..|words| - 1]) + if SafeToken(w, PowershellSafe) then 0 else 2 + 2 * Count(w, IsQuote)
  }

  function Spent(st: PsState): nat {
    Cost(st.words) +
    match st.mode
    case Quoted => 1 + 2 * Count(st.word, IsQuote)
    case QuoteSeen => 2 + 2 * Count(st.word, IsQuote)
    case _ => 0
  }

  predicate Sound(st: PsState) {
    st.mode.Plain? ==> SafeToken(st.word, PowershellSafe)
  }

  lemma StepCost(st: PsState, c: char)
    requires Sound(st)
    ensures Sound(PsNext(st, c))
    ensures PsNext(st, c).mode.PsRefused? || Spent(PsNext(st, c)) <= Spent(st) + if IsQuote(c) then 1 else 0
  {
    CountAppend(st.word, [c], IsQuote);
    assert [c][1..] == "";
    assert (st.words + [st.word])[..|st.words|] == st.words;
  }

  lemma {:induction false} RunCost(s: string, st: PsState)
    requires Sound(st)
    ensures Sound(PsRun(s, st))
    ensures PsRun(s, st).mode.PsRefused? || Spent(PsRun(s, st)) <= Spent(st) + Count(s, IsQuote)
    decreases |s|
  {
    if s != "" {
      StepCost(st, s[0]);
      RunCost(s[1..], PsNext(st, s[0]));
      if PsNext(st, s[0]).mode.PsRefused? {
        StaysRefused(s[1..], PsNext(st, s[0]));
      }
    }
  }

  lemma {:induction false} StaysRefused(s: string, st: PsState)
    requires st.mode.PsRefused?
    ensures PsRun(s, st).mode.PsRefused?
    decreases |s|
  {
    if s != "" {
      StaysRefused(s[1..], st);
    }
  }

  lemma {:induction false} DoubledQuotes(text: string)
    ensures Count(ReplaceChar(text, '\'', "''"), IsQuote)
         == 2 * Count(text, IsQuote) - Count(text, IsTypographic)
    ensures Count(text, IsTypographic) <= Count(text, IsQuote)
    decreases |text|
  {
    if text != "" {
      var c := text[0];
      var one := if c == '\'' then "''" else [c];
      CountAppend(one, ReplaceChar(text[1..], '\'', "''"), IsQuote);
      assert "''"[1..] == "'" && "'"[1..] == "" && [c][1..] == "";
      DoubledQuotes(text[1..]);
    }
  }

  lemma {:induction false} NoneCounted(text: string, p: char -> bool)
    ensures Count(text, p) == 0 <==> forall i :: 0 <= i < |text| ==> !p(text[i])
    decreases |text|
  {
    if text != "" {
      NoneCounted(text[1..], p);
      assert forall i :: 0 < i < |text| ==> text[i] == text[1..][i - 1];
    }
  }

  lemma TokenQuotes(text: string)
    ensures Count(QuotePowershell(text), IsQuote) + Count(text, IsTypographic)
         == if SafeToken(text, PowershellSafe) then 0 else 2 + 2 * Count(text, IsQuote)
  {
    if SafeToken(text, PowershellSafe) {
      NoneCounted(text, IsQuote);
      NoneCounted(text, IsTypographic);
    } else {
      var inner := ReplaceChar(text, '\'', "''");
      DoubledQuotes(text);
      CountAppend("'", inner, IsQuote);
      CountAppend("'" + inner, "'", IsQuote);
      assert "'"[1..] == "";
    }
  }

  function Typographics(argv: seq<string>): nat {
    if argv == [] then 0 else Typographics(argv[..|argv| - 1]) + Count(argv[|argv| - 1], IsTypographic)
  }

  lemma {:induction false} CountJoin(ss: seq<string>)
    requires ss != []
    ensures Count(Join(ss, " "), IsQuote)
         == (if |ss| == 1 then 0 else Count(Join(ss[..|ss| - 1], " "), IsQuote)) + Count(ss[|ss| - 1], IsQuote)
    decreases |ss|
  {
    if |ss| > 1 {
      var n := |ss| - 1;
      CountJoin(ss[1..]);
      assert ss[1..][..n - 1] == ss[..n][1..];
      assert " "[1..] == "";
      CountAppend(ss[0] + " ", Join(ss[1..], " "), IsQuote);
      CountAppend(ss[0], " ", IsQuote);
      if n > 1 {
        CountAppend(ss[0] + " ", Join(ss[..n][1..], " "), IsQuote);
      }
    }
  }

  lemma {:induction false} LineQuotes(argv: seq<string>)
    ensures Count(CommandLine(argv, QuotePowershell), IsQuote) + Typographics(argv) == Cost(argv)
    decreases |argv|
  {
    if argv != [] {
      var n := |argv| - 1;
      LineQuotes(argv[..n]);
      TokenQuotes(argv[n]);
      CountJoin(QuoteAll(argv, QuotePowershell));
      assert QuoteAll(argv, QuotePowershell)[..n] == QuoteAll(argv[..n], QuotePowershell);
    }
  }

  lemma {:induction false} NoTypographics(argv: seq<string>)
    ensures Typographics(argv) == 0 <==> AllPlainly(argv)
    decreases |argv|
  {
    if argv != [] {
      NoTypographics(argv[..|argv| - 1]);
      NoneCounted(argv[|argv| - 1], IsTypographic);
    }
  }

  lemma ResultCost(st: PsState, words: seq<string>)
    requires Sound(st) && Result(st) == Some(words)
    ensures Cost(words) <= Spent(st)
  {
    assert (st.words + [st.word])[..|st.words|] == st.words;
  }

  /** Whatever the line, it holds the quotes its words need. */
  lemma ReadCost(line: string, words: seq<string>)
    requires ReadPowershell(line) == Some(words)
    ensures Cost(words) <= Count(line, IsQuote)
  {
    var start := PsState(Between, "", []);
    RunCost(line, start);
    ResultCost(PsRun(line, start), words);
  }

  lemma ReadsPlainArguments(argv: seq<string>)
    requires AllPlainly(argv)
    ensures ReadPowershell(CommandLine(argv, QuotePowershell)) == Some(argv)
  {
    if argv != [] {
      PsRunTokens(argv, []);
      assert [] + argv == argv;
    }
  }

  /** The line means the argument vector exactly when no argument holds a typographic single quote. */
  lemma PowershellRoundTrip(argv: seq<string>)
    ensures ReadPowershell(CommandLine(argv, QuotePowershell)) == Some(argv) <==> AllPlainly(argv)
  {
    if AllPlainly(argv) {
      ReadsPlainArguments(argv);
    } else if ReadPowershell(CommandLine(argv, QuotePowershell)) == Some(argv) {
      ReadCost(CommandLine(argv, QuotePowershell), argv);
      LineQuotes(argv);
      NoTypographics(argv);
      assert false;
    }
  }
}
