/**
 * scripts/lib/mcp-action-runtime.js and scripts/lib/hooks-command.js: printing command lines,
 * against readers that split them the way the shells do.
 */
module ShellQuoting {
  import opened Wrappers
  import opened Text

  predicate IsAlnum(c: char) {
    'A' <= c <= 'Z' || 'a' <= c <= 'z' || '0' <= c <= '9'
  }

  // ---- the printers ----

  predicate PosixSafe(c: char) {
    || IsAlnum(c) || c == '_' || c == '@' || c == '%' || c == '+' || c == '=' || c == ':' || c == ','
    || c == '.' || c == '/' || c == '-'
  }

  predicate PowershellSafe(c: char) {
    || IsAlnum(c) || c == '_' || c == '+' || c == '=' || c == ':' || c == '.' || c == '/' || c == '\\' || c == '-'
  }

  /** `^[...]+$` over one of the two safe sets. */
  predicate SafeToken(text: string, safe: char -> bool) {
    text != "" && forall i :: 0 <= i < |text| ==> safe(text[i])
  }

  function ReplaceChar(text: string, c: char, other: string): string {
    if text == "" then "" else (if text[0] == c then other else [text[0]]) + ReplaceChar(text[1..], c, other)
  }

  const QUOTED_QUOTE := "'\"'\"'"

  function QuotePosix(text: string): string {
    if SafeToken(text, PosixSafe) then text else "'" + ReplaceChar(text, '\'', QUOTED_QUOTE) + "'"
  }

  function QuotePowershell(text: string): string {
    if SafeToken(text, PowershellSafe) then text else "'" + ReplaceChar(text, '\'', "''") + "'"
  }

  lemma {:induction false} ReplaceGrows(text: string, c: char, other: string)
    requires other != ""
    ensures |ReplaceChar(text, c, other)| >= |text|
    decreases |text|
  {
    if text != "" {
      ReplaceGrows(text[1..], c, other);
    }
  }

  /** ASCII letters and digits, and `% + , - . / : = @ _`. */
  predicate PlainPosix(c: char) {
    var n := c as int;
    n == 37 || 43 <= n <= 58 || n == 61 || 64 <= n <= 90 || n == 95 || 97 <= n <= 122
  }

  /** A token is printed as it is exactly when it is not empty and made of these characters. */
  lemma BarePosix(text: string)
    ensures QuotePosix(text) == text <==> text != "" && forall c :: c in text ==> PlainPosix(c)
  {
    ReplaceGrows(text, '\'', QUOTED_QUOTE);
    assert forall i :: 0 <= i < |text| ==> text[i] in text;
    assert forall c :: PosixSafe(c) <==> PlainPosix(c);
  }

  /** ASCII letters and digits, and `+ - . / : = _` and the backslash. */
  predicate PlainPowershell(c: char) {
    var n := c as int;
    n == 43 || 45 <= n <= 58 || n == 61 || 65 <= n <= 90 || n == 92 || n == 95 || 97 <= n <= 122
  }

  lemma BarePowershell(text: string)
    ensures QuotePowershell(text) == text <==> text != "" && forall c :: c in text ==> PlainPowershell(c)
  {
    ReplaceGrows(text, '\'', "''");
    assert forall i :: 0 <= i < |text| ==> text[i] in text;
    assert forall c :: PowershellSafe(c) <==> PlainPowershell(c);
  }

  function QuoteAll(argv: seq<string>, quote: string -> string): seq<string> {
    seq(|argv|, i requires 0 <= i < |argv| => quote(argv[i]))
  }

  /** The `command` text of a command contract. */
  function CommandLine(argv: seq<string>, quote: string -> string): string {
    Join(QuoteAll(argv, quote), " ")
  }

  /** The characters a backslash escapes between double quotes. */
  predicate Escapable(c: char) {
    c == '"' || c == '$' || c == '`' || c == '\\'
  }

  /** Escaping for text that goes between double quotes in sh. */
  function ShDquote(s: string): string {
    if s == "" then "" else (if Escapable(s[0]) then ['\\', s[0]] else [s[0]]) + ShDquote(s[1..])
  }

  // ---- reading a line as sh does: IEEE Std 1003.1, Shell Command Language 2.2 and 2.3 ----

  datatype Mode = Bare | BareEscape | Single | Double | DoubleEscape | Comment | Refused

  /** The reader's state: where it is, the word begun, the words finished. */
  datatype State = State(mode: Mode, word: Option<string>, words: seq<string>) {
    function Begun(): string {
      if word.Some? then word.value else ""
    }

    function In(m: Mode): State {
      State(m, Some(Begun()), words)
    }

    function Put(m: Mode, text: string): State {
      State(m, Some(Begun() + text), words)
    }

    function Words(): seq<string> {
      if word.Some? then words + [word.value] else words
    }
  }

  /** Characters that stand for themselves outside quotes; any other unquoted one is refused. */
  predicate Literal(c: char) {
    PosixSafe(c) || c == '^' || c == ']'
  }

  function Next(st: State, c: char): State {
    match st.mode
    case Bare =>
      if c == ' ' || c == '\t' then State(Bare, None, st.Words())
      else if c == '\'' then st.In(Single)
      else if c == '"' then st.In(Double)
      else if c == '\\' then st.(mode := BareEscape)
      else if c == '#' && st.word.None? then st.(mode := Comment)
      else if Literal(c) || c == '#' then st.Put(Bare, [c])
      else st.(mode := Refused)
    case BareEscape =>
      if c == '\n' then st.(mode := Bare) else st.Put(Bare, [c])
    case Single =>
      if c == '\'' then st.(mode := Bare) else st.Put(Single, [c])
    case Double =>
      if c == '"' then st.(mode := Bare)
      else if c == '\\' then st.(mode := DoubleEscape)
      else if c == '$' || c == '`' then st.(mode := Refused)
      else st.Put(Double, [c])
    case DoubleEscape =>
      if c == '\n' then st.(mode := Double)
      else if Escapable(c) then st.Put(Double, [c])
      else st.Put(Double, ['\\', c])
    case Comment =>
      if c == '\n' then st.(mode := Refused) else st
    case Refused => st
  }

  function Run(s: string, st: State): State {
    if s == "" then st else Run(s[1..], Next(st, s[0]))
  }

  /** The words of a line; None when it needs an expansion, an operator or a missing quote. */
  function ReadPosix(line: string): Option<seq<string>> {
    var st := Run(line, State(Bare, None, []));
    if st.mode.Bare? || st.mode.Comment? then Some(st.Words()) else None
  }

  lemma {:induction false} RunAppend(a: string, b: string, st: State)
    ensures Run(a + b, st) == Run(b, Run(a, st))
    decreases |a|
  {
    if a == "" {
      assert a + b == b;
    } else {
      assert (a + b)[1..] == a[1..] + b;
      RunAppend(a[1..], b, Next(st, a[0]));
    }
  }

  lemma RunOne(c: char, st: State)
    ensures Run([c], st) == Next(st, c)
  {
    assert [c][1..] == "";
  }

  lemma {:induction false} RunSafe(text: string, st: State)
    requires SafeToken(text, PosixSafe) && st.mode.Bare?
    ensures Run(text, st) == st.Put(Bare, text)
    decreases |text|
  {
    var c, t := text[0], text[1..];
    assert PosixSafe(c);
    if t != "" {
      RunSafe(t, st.Put(Bare, [c]));
      assert st.Begun() + [c] + t == st.Begun() + text;
    } else {
      assert text == [c];
    }
  }

  /** Inside single quotes, the printed form of every character reads back as the character. */
  lemma {:induction false} RunQuoted(text: string, st: State)
    requires st.mode.Single? && st.word.Some?
    ensures Run(ReplaceChar(text, '\'', QUOTED_QUOTE), st) == st.Put(Single, text)
    decreases |text|
  {
    if text == "" {
      assert st.Begun() + "" == st.Begun();
    } else {
      var c, t := text[0], text[1..];
      var inner := ReplaceChar(t, '\'', QUOTED_QUOTE);
      var one := if c == '\'' then QUOTED_QUOTE else [c];
      RunAppend(one, inner, st);
      RunQuotedQuote(st);
      RunOne(c, st);
      RunQuoted(t, st.Put(Single, [c]));
      assert st.Begun() + [c] + t == st.Begun() + text;
    }
  }

  /** Close, a double-quoted quote, open again. */
  lemma RunQuotedQuote(st: State)
    requires st.mode.Single? && st.word.Some?
    ensures Run(QUOTED_QUOTE, st) == st.Put(Single, "'")
  {
    var s0, s1, s2 := QUOTED_QUOTE, QUOTED_QUOTE[1..], QUOTED_QUOTE[2..];
    var s3, s4 := QUOTED_QUOTE[3..], QUOTED_QUOTE[4..];
    assert s0[1..] == s1 && s1[1..] == s2 && s2[1..] == s3 && s3[1..] == s4 && s4[1..] == "";
    var t1 := st.(mode := Bare);
    var t2 := st.(mode := Double);
    var t3 := st.Put(Double, "'");
    assert Run(s0, st) == Run(s1, t1);
    assert Run(s1, t1) == Run(s2, t2);
    assert Run(s2, t2) == Run(s3, t3);
    assert Run(s3, t3) == Run(s4, t3.(mode := Bare));
  }

  /** The text is one shell word, and the word means `value`. */
  ghost predicate Means(text: string, value: string) {
    forall words :: Run(text, State(Bare, None, words)) == State(Bare, Some(value), words)
  }

  /** One printed token reads back as the token. */
  lemma RunToken(text: string)
    ensures Means(QuotePosix(text), text)
  {
    forall words ensures Run(QuotePosix(text), State(Bare, None, words)) == State(Bare, Some(text), words) {
      var st := State(Bare, None, words);
      assert "" + text == text;
      if SafeToken(text, PosixSafe) {
        RunSafe(text, st);
      } else {
        var inner := ReplaceChar(text, '\'', QUOTED_QUOTE);
        RunAppend("'", inner + "'", st);
        RunAppend(inner, "'", State(Single, Some(""), words));
        assert QuotePosix(text) == "'" + (inner + "'");
        RunOne('\'', st);
        RunQuoted(text, State(Single, Some(""), words));
        RunOne('\'', State(Single, Some(text), words));
      }
    }
  }

  /** Words joined by blanks are read one by one. */
  lemma {:induction false} RunJoined(texts: seq<string>, values: seq<string>, words: seq<string>)
    requires |texts| == |values| > 0
    requires forall i :: 0 <= i < |texts| ==> Means(texts[i], values[i])
    ensures Run(Join(texts, " "), State(Bare, None, words))
         == State(Bare, Some(values[|values| - 1]), words + values[..|values| - 1])
    decreases |texts|
  {
    var st := State(Bare, None, words);
    assert Means(texts[0], values[0]);
    assert Run(texts[0], st) == State(Bare, Some(values[0]), words);
    if |texts| == 1 {
      assert words + values[..0] == words;
    } else {
      var rest := Join(texts[1..], " ");
      assert Join(texts, " ") == texts[0] + (" " + rest);
      RunAppend(texts[0], " " + rest, st);
      RunAppend(" ", rest, State(Bare, Some(values[0]), words));
      RunOne(' ', State(Bare, Some(values[0]), words));
      RunJoined(texts[1..], values[1..], words + [values[0]]);
      assert words + [values[0]] + values[1..][..|values| - 2] == words + values[..|values| - 1];
    }
  }

  /** The printed command line means exactly the argument vector it was printed from. */
  lemma PosixRoundTrip(argv: seq<string>)
    ensures ReadPosix(CommandLine(argv, QuotePosix)) == Some(argv)
  {
    if argv != [] {
      var texts := QuoteAll(argv, QuotePosix);
      forall i | 0 <= i < |argv| ensures Means(texts[i], argv[i]) { RunToken(argv[i]); }
      RunJoined(texts, argv, []);
      assert [] + argv[..|argv| - 1] + [argv[|argv| - 1]] == argv;
    }
  }

  // ---- text between double quotes ----

  lemma {:induction false} RunDquoted(s: string, st: State)
    requires st.mode.Double? && st.word.Some?
    ensures Run(ShDquote(s), st) == st.Put(Double, s)
    decreases |s|
  {
    if s == "" {
      assert st.Begun() + "" == st.Begun();
    } else {
      var c, t := s[0], s[1..];
      var one := if Escapable(c) then ['\\', c] else [c];
      RunAppend(one, ShDquote(t), st);
      RunOne(c, st);
      RunOne(c, st.(mode := DoubleEscape));
      assert ['\\', c][1..] == [c];
      RunDquoted(t, st.Put(Double, [c]));
      assert st.Begun() + [c] + t == st.Begun() + s;
    }
  }

  function Dquoted(s: string): string {
    "\"" + ShDquote(s) + "\""
  }

  /** A double-quoted word reads back as the text that was escaped into it. */
  lemma DquoteRoundTrip(s: string)
    ensures Means(Dquoted(s), s)
  {
    forall words ensures Run(Dquoted(s), State(Bare, None, words)) == State(Bare, Some(s), words) {
      var st := State(Double, Some(""), words);
      assert Dquoted(s) == "\"" + (ShDquote(s) + "\"");
      RunAppend("\"", ShDquote(s) + "\"", State(Bare, None, words));
      RunAppend(ShDquote(s), "\"", st);
      RunOne('"', State(Bare, None, words));
      RunDquoted(s, st);
      RunOne('"', st.Put(Double, s));
      assert "" + s == s;
    }
  }
}
