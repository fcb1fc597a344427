/** Quoting for the shell (terminal/executor.go, guis/connection_context_menu.go)
    against token recognition and quote removal of the shell command language,
    sections 2.2.1 to 2.2.3 and 2.3 of XCU, IEEE Std 1003.1-2017.

    Expansions are not carried out: a word with an unquoted character that would
    start one is marked, so that an unmarked word stands for exactly its text.
    A char may also be read as one byte: only ASCII characters matter here. */
module ShellWords {
  import opened Outcomes
  import opened Text
  import opened Profiles

  // ---------------------------------------------------------------------------
  // The shell's side
  // ---------------------------------------------------------------------------

  datatype Token =
    | Word(text: string, expands: bool)
    | Operator(symbol: string)

  datatype Mode = Plain | Escaped | Single | Double | DoubleEscaped | Comment

  /** symbol is an operator that may still grow. */
  datatype Lexer = Lexer(tokens: seq<Token>, word: Option<Token>, symbol: string, mode: Mode)

  const BEGIN := Lexer([], None, "", Plain)

  predicate OperatorChar(c: char) { c in {'&', '|', ';', '<', '>', '(', ')', '\n'} }

  predicate ExpansionChar(c: char) { c in {'$', '`', '*', '?', '[', '~'} }

  /** Does appending c to the operator give an operator? */
  predicate Grows(symbol: string, c: char) {
    if |symbol| == 1 then
      match symbol[0]
      case '&' => c == '&'
      case '|' => c == '|'
      case ';' => c == ';'
      case '<' => c in {'<', '&', '>'}
      case '>' => c in {'>', '&', '|'}
      case _ => false
    else symbol == "<<" && c == '-'
  }

  function Add(l: Lexer, c: char): Lexer {
    match l.word
    case Some(Word(text, expands)) => l.(word := Some(Word(text + [c], expands)))
    case _ => l.(word := Some(Word([c], false)))
  }

  /** The word has begun, though it may stay empty. */
  function Begin(l: Lexer): Lexer {
    if l.word.None? then l.(word := Some(Word("", false))) else l
  }

  function Mark(l: Lexer): Lexer {
    match l.word
    case Some(Word(text, _)) => l.(word := Some(Word(text, true)))
    case _ => l
  }

  function EndWord(l: Lexer): Lexer {
    if l.word.Some? then l.(tokens := l.tokens + [l.word.value], word := None) else l
  }

  function EndSymbol(l: Lexer): Lexer {
    if l.symbol != "" then l.(tokens := l.tokens + [Operator(l.symbol)], symbol := "") else l
  }

  function PlainStep(l: Lexer, c: char): Lexer {
    if c == '\\' then l.(mode := Escaped)
    else if c == '\'' then Begin(l).(mode := Single)
    else if c == '"' then Begin(l).(mode := Double)
    else if OperatorChar(c) then EndWord(l).(symbol := [c])
    else if c == ' ' || c == '\t' then EndWord(l)
    else if c == '#' && l.word.None? then l.(mode := Comment)
    else if ExpansionChar(c) then Mark(Add(l, c))
    else Add(l, c)
  }

  function Step(l: Lexer, c: char): Lexer {
    match l.mode
    case Plain =>
      if l.symbol != "" && Grows(l.symbol, c) then l.(symbol := l.symbol + [c])
      else PlainStep(EndSymbol(l), c)
    case Escaped => (if c == '\n' then l else Add(l, c)).(mode := Plain)
    case Single => if c == '\'' then l.(mode := Plain) else Add(l, c)
    case Double =>
      if c == '"' then l.(mode := Plain)
      else if c == '\\' then l.(mode := DoubleEscaped)
      else if c == '$' || c == '`' then Mark(Add(l, c))
      else Add(l, c)
    case DoubleEscaped =>
      (if c in {'$', '`', '"', '\\'} then Add(l, c) else if c == '\n' then l else Add(Add(l, '\\'), c)).(mode := Double)
    case Comment => if c == '\n' then PlainStep(l.(mode := Plain), c) else l
  }

  function Run(l: Lexer, s: string): Lexer
    decreases |s|
  {
    if s == "" then l else Run(Step(l, s[0]), s[1..])
  }

  function Finish(l: Lexer): Option<seq<Token>> {
    if l.mode.Plain? || l.mode.Comment? then Some(EndWord(EndSymbol(l)).tokens) else None
  }

  /** The tokens of a complete command line; None inside an open quote. */
  function Tokens(s: string): Option<seq<Token>> { Finish(Run(BEGIN, s)) }

  lemma {:induction false} RunConcat(l: Lexer, s: string, t: string)
    ensures Run(l, s + t) == Run(Run(l, s), t)
    decreases |s|
  {
    if s == "" {
      assert s + t == t;
    } else {
      assert (s + t)[1..] == s[1..] + t;
      RunConcat(Step(l, s[0]), s[1..], t);
    }
  }

  /** l with done recognised before it. */
  function After(done: seq<Token>, l: Lexer): Lexer { l.(tokens := done + l.tokens) }

  lemma EndAfter(done: seq<Token>, l: Lexer)
    ensures EndSymbol(After(done, l)) == After(done, EndSymbol(l))
    ensures EndWord(After(done, l)) == After(done, EndWord(l))
  {
    assert l.word.Some? ==> (done + l.tokens) + [l.word.value] == done + (l.tokens + [l.word.value]);
    assert (done + l.tokens) + [Operator(l.symbol)] == done + (l.tokens + [Operator(l.symbol)]);
  }

  lemma PlainStepAfter(done: seq<Token>, l: Lexer, c: char)
    ensures PlainStep(After(done, l), c) == After(done, PlainStep(l, c))
  {
    EndAfter(done, l);
  }

  lemma AddAfter(done: seq<Token>, l: Lexer, c: char)
    ensures Add(After(done, l), c) == After(done, Add(l, c))
    ensures Mark(After(done, l)) == After(done, Mark(l))
  {
  }

  lemma StepAfter(done: seq<Token>, l: Lexer, c: char)
    ensures Step(After(done, l), c) == After(done, Step(l, c))
  {
    match l.mode {
      case Plain =>
        EndAfter(done, l);
        PlainStepAfter(done, EndSymbol(l), c);
      case Escaped => AddAfter(done, l, c);
      case Single => AddAfter(done, l, c);
      case Double =>
        AddAfter(done, l, c);
        AddAfter(done, Add(l, c), c);
      case DoubleEscaped =>
        AddAfter(done, l, c);
        AddAfter(done, l, '\\');
        AddAfter(done, Add(l, '\\'), c);
      case Comment => PlainStepAfter(done, l.(mode := Plain), c);
    }
  }

  /** Tokens already recognised do not influence the rest. */
  lemma {:induction false} RunAfter(done: seq<Token>, l: Lexer, s: string)
    ensures Run(After(done, l), s) == After(done, Run(l, s))
    decreases |s|
  {
    if s == "" {
    } else {
      StepAfter(done, l, s[0]);
      RunAfter(done, Step(l, s[0]), s[1..]);
    }
  }

  // ---------------------------------------------------------------------------
  // The program's side
  // ---------------------------------------------------------------------------

  /** strings.ReplaceAll for a one-character pattern. */
  function ReplaceAll(s: string, c: char, sub: string): string {
    if s == "" then "" else (if s[0] == c then sub else [s[0]]) + ReplaceAll(s[1..], c, sub)
  }

  function ShellQuote(s: string): string {
    if s == "" then "''" else "'" + ReplaceAll(s, '\'', "'\\''") + "'"
  }

  function CommandForRemoteShell(workingDir: string, command: string): string {
    if TrimSpace(workingDir) == "" then command
    else "cd " + ShellQuote(workingDir) + " && " + command
  }

  predicate SafeChar(c: char) {
    'a' <= c <= 'z' || 'A' <= c <= 'Z' || '0' <= c <= '9' || c in {'@', '%', '_', '+', '=', ',', '.', '/', '-'}
  }

  function ClipboardWord(value: string): string {
    if value != "" && forall i :: 0 <= i < |value| ==> SafeChar(value[i]) then value
    else "'" + ReplaceAll(value, '\'', "'\"'\"'") + "'"
  }

  method ShellClipboardWord(value: string) returns (word: string)
    ensures word == ClipboardWord(value)
  {
    var safe := value != "";
    var i := 0;
    while i < |value|
      invariant 0 <= i <= |value|
      invariant safe <==> value != "" && forall j :: 0 <= j < i ==> SafeChar(value[j])
    {
      if !SafeChar(value[i]) {
        safe := false;
        break;
      }
      i := i + 1;
    }
    if safe {
      return value;
    }
    return "'" + ReplaceAll(value, '\'', "'\"'\"'") + "'";
  }

  /** The SSH command line for a profile, if it has one. */
  function ClipboardSshCommand(p: Profile): Option<string> {
    var host := TrimSpace(p.host);
    var port := if p.port == 0 then 22 else p.port;
    if p.kind != SSH || host == "" || port < 1 || port > 65535 then None
    else Some("ssh -p " + Decimal(port) + " -- " + ClipboardWord(SshTarget(p)))
  }

  function SshTarget(p: Profile): string {
    var host, username := TrimSpace(p.host), TrimSpace(p.username);
    if username == "" then host else username + "@" + host
  }

  // ---------------------------------------------------------------------------
  // Quoting means what it should
  // ---------------------------------------------------------------------------

  function TextOf(l: Lexer): string {
    match l.word case Some(Word(text, _)) => text case _ => ""
  }

  function ExpandsOf(l: Lexer): bool {
    match l.word case Some(Word(_, expands)) => expands case _ => false
  }

  /** l with text appended to its word. */
  function Extend(l: Lexer, text: string): Lexer {
    l.(word := Some(Word(TextOf(l) + text, ExpandsOf(l))))
  }

  predicate InQuotes(l: Lexer) {
    l.mode.Single? && l.symbol == "" && l.word.Some? && l.word.value.Word?
  }

  /** Is sub a way to leave single quotes, add one quote and enter them again? */
  ghost predicate EscapesQuote(sub: string) {
    forall l: Lexer :: InQuotes(l) ==> Run(l, sub) == Extend(l, "'")
  }

  lemma BackslashEscapesQuote()
    ensures EscapesQuote("'\\''")
  {
    forall l: Lexer | InQuotes(l) ensures Run(l, "'\\''") == Extend(l, "'") {
      var s := "'\\''";
      assert s[1..] == "\\''" && s[1..][1..] == "''" && s[1..][1..][1..] == "'";
      var l1 := Step(l, '\'');
      var l2 := Step(l1, '\\');
      var l3 := Step(l2, '\'');
      var l4 := Step(l3, '\'');
      assert Run(l, s) == Run(l1, s[1..]) == Run(l2, "''") == Run(l3, "'") == l4;
    }
  }

  lemma DoubleQuotesEscapeQuote()
    ensures EscapesQuote("'\"'\"'")
  {
    forall l: Lexer | InQuotes(l) ensures Run(l, "'\"'\"'") == Extend(l, "'") {
      var s := "'\"'\"'";
      assert s[1..] == "\"'\"'" && s[1..][1..] == "'\"'" && "'\"'"[1..] == "\"'" && "\"'"[1..] == "'";
      var l1 := Step(l, '\'');
      var l2 := Step(l1, '"');
      var l3 := Step(l2, '\'');
      var l4 := Step(l3, '"');
      var l5 := Step(l4, '\'');
      assert Run(l, s) == Run(l1, s[1..]) == Run(l2, "'\"'") == Run(l3, "\"'") == Run(l4, "'") == l5;
    }
  }

  /** Inside single quotes the escaped text is read back as the text. */
  lemma {:induction false} QuotedTextReadsBack(l: Lexer, s: string, sub: string)
    requires InQuotes(l) && EscapesQuote(sub)
    ensures Run(l, ReplaceAll(s, '\'', sub)) == Extend(l, s)
    decreases |s|
  {
    if s == "" {
      assert TextOf(l) + "" == TextOf(l);
    } else {
      var head := if s[0] == '\'' then sub else [s[0]];
      RunConcat(l, head, ReplaceAll(s[1..], '\'', sub));
      var next := Run(l, head);
      assert next == Extend(l, [s[0]]);
      QuotedTextReadsBack(next, s[1..], sub);
      assert (TextOf(l) + [s[0]]) + s[1..] == TextOf(l) + s;
    }
  }

  /** A quoted string, wherever a word may go on, extends that word by exactly
      the string. */
  lemma QuotedExtends(l: Lexer, s: string, sub: string)
    requires l.mode.Plain? && l.symbol == "" && EscapesQuote(sub)
    requires l.word.Some? ==> l.word.value.Word?
    ensures Run(l, "'" + ReplaceAll(s, '\'', sub) + "'") == Extend(l, s)
  {
    var body := ReplaceAll(s, '\'', sub);
    var inside := Step(l, '\'');
    RunConcat(l, "'" + body, "'");
    RunConcat(l, "'", body);
    assert "'"[1..] == "";
    assert Run(l, "'") == inside;
    QuotedTextReadsBack(inside, s, sub);
  }

  /** shellQuote round-trips for every string: one word, no expansion. */
  lemma ShellQuoteRoundTrip(s: string)
    ensures Tokens(ShellQuote(s)) == Some([Word(s, false)])
  {
    ShellQuoteExtends(BEGIN, s);
    assert "" + s == s;
    assert [] + [Word(s, false)] == [Word(s, false)];
  }

  lemma ShellQuoteExtends(l: Lexer, s: string)
    requires l.mode.Plain? && l.symbol == "" && (l.word.Some? ==> l.word.value.Word?)
    ensures Run(l, ShellQuote(s)) == Extend(l, s)
  {
    BackslashEscapesQuote();
    QuotedExtends(l, s, "'\\''");
    assert "'" + "" + "'" == "''";
  }

  lemma SafeStep(l: Lexer, c: char)
    requires l.mode.Plain? && l.symbol == "" && (l.word.Some? ==> l.word.value.Word?) && SafeChar(c)
    ensures Step(l, c) == Extend(l, [c])
  {
    assert !OperatorChar(c) && !ExpansionChar(c);
    assert "" + [c] == [c];
  }

  lemma {:induction false} SafeTextReadsBack(l: Lexer, s: string)
    requires l.mode.Plain? && l.symbol == "" && (l.word.Some? ==> l.word.value.Word?)
    requires forall i :: 0 <= i < |s| ==> SafeChar(s[i])
    ensures s != "" ==> Run(l, s) == Extend(l, s)
    decreases |s|
  {
    if s == "" {
    } else {
      var c := s[0];
      var next := Step(l, c);
      SafeStep(l, c);
      SafeTextReadsBack(next, s[1..]);
      assert (TextOf(l) + [c]) + s[1..] == TextOf(l) + s;
      if s[1..] == "" { assert [c] == s; }
    }
  }

  lemma ClipboardWordExtends(l: Lexer, s: string)
    requires l.mode.Plain? && l.symbol == "" && (l.word.Some? ==> l.word.value.Word?)
    ensures Run(l, ClipboardWord(s)) == Extend(l, s)
  {
    if s != "" && forall i :: 0 <= i < |s| ==> SafeChar(s[i]) {
      SafeTextReadsBack(l, s);
    } else {
      DoubleQuotesEscapeQuote();
      QuotedExtends(l, s, "'\"'\"'");
    }
  }

  /** shellClipboardWord round-trips for every string as well. */
  lemma ClipboardWordRoundTrip(s: string)
    ensures Tokens(ClipboardWord(s)) == Some([Word(s, false)])
  {
    ClipboardWordExtends(BEGIN, s);
    assert "" + s == s;
    assert [] + [Word(s, false)] == [Word(s, false)];
  }

  /** A blank ends the word just read. */
  lemma BlankEndsWord(l: Lexer)
    requires l.mode.Plain? && l.symbol == "" && l.word.Some?
    ensures Run(l, " ") == l.(tokens := l.tokens + [l.word.value], word := None)
  {
    assert " "[1..] == "";
  }

  /** The remote command is: cd, the working directory as one argument, and then,
      only if that succeeds, the command, read as it would be on its own. */
  lemma RemoteCommandTokens(workingDir: string, command: string)
    ensures Tokens(CommandForRemoteShell(workingDir, command)) ==
      if TrimSpace(workingDir) == "" || Tokens(command).None? then Tokens(command)
      else Some([Word("cd", false), Word(workingDir, false), Operator("&&")] + Tokens(command).value)
  {
    if TrimSpace(workingDir) != "" {
      var head := ("cd ") + ShellQuote(workingDir) + " ";
      assert CommandForRemoteShell(workingDir, command) == head + ("&& " + command);
      RunConcat(BEGIN, head, "&& " + command);
      CdTokens(workingDir);
      AndThen(Run(BEGIN, head), command);
      var done := [Word("cd", false), Word(workingDir, false), Operator("&&")];
      assert Run(BEGIN, head).tokens + [Operator("&&")] == done;
      assert done + BEGIN.tokens == done;
      RunAfter(done, BEGIN, command);
      FinishAfter(done, Run(BEGIN, command));
    }
  }

  lemma CdTokens(workingDir: string)
    ensures Run(BEGIN, "cd " + ShellQuote(workingDir) + " ")
         == BEGIN.(tokens := [Word("cd", false), Word(workingDir, false)])
  {
    var q := ShellQuote(workingDir);
    SafeWordThenBlank(BEGIN, "cd");
    assert "cd" + " " == "cd ";
    var l1 := BEGIN.(tokens := [Word("cd", false)]);
    assert Run(BEGIN, "cd ") == l1;
    RunConcat(BEGIN, "cd ", q);
    ShellQuoteExtends(l1, workingDir);
    RunConcat(BEGIN, "cd " + q, " ");
    BlankEndsWord(Extend(l1, workingDir));
    assert "" + workingDir == workingDir;
  }

  lemma AndThen(l: Lexer, command: string)
    requires l.mode.Plain? && l.symbol == "" && l.word.None?
    ensures Run(l, "&& " + command) == Run(BEGIN.(tokens := l.tokens + [Operator("&&")]), command)
  {
    RunConcat(l, "&& ", command);
    var s := "&& ";
    assert s[1..] == "& " && "& "[1..] == " " && " "[1..] == "";
    var l1 := Step(l, '&');
    var l2 := Step(l1, '&');
    assert "&" + "&" == "&&";
    var l3 := Step(l2, ' ');
    assert !Grows("&&", ' ');
    assert Run(l, s) == Run(l1, "& ") == Run(l2, " ") == l3;
  }

  lemma FinishAfter(done: seq<Token>, l: Lexer)
    ensures Finish(After(done, l)) == if Finish(l).None? then None else Some(done + Finish(l).value)
  {
    EndAfter(done, l);
    EndAfter(done, EndSymbol(l));
  }

  lemma SafeWordThenBlank(l: Lexer, s: string)
    requires l.mode.Plain? && l.symbol == "" && l.word.None?
    requires SafeWord(s)
    ensures Run(l, s + " ") == l.(tokens := l.tokens + [Word(s, false)])
  {
    SafeTextReadsBack(l, s);
    RunConcat(l, s, " ");
    BlankEndsWord(Run(l, s));
    assert "" + s == s;
    assert [] + [Word(s, false)] == [Word(s, false)];
  }

  /** The copied SSH command is five words, and the target is the last of them
      whatever characters it has, so it is never taken for an option. */
  lemma SshCommandWords(p: Profile)
    requires ClipboardSshCommand(p).Some?
    ensures var port := if p.port == 0 then 22 else p.port;
      var host, user := TrimSpace(p.host), TrimSpace(p.username);
      Tokens(ClipboardSshCommand(p).value) == Some([
        Word("ssh", false), Word("-p", false), Word(Decimal(port), false),
        Word("--", false), Word(if user == "" then host else user + "@" + host, false)])
  {
    var port := if p.port == 0 then 22 else p.port;
    var target := SshTarget(p);
    DecimalRoundTrip(port);
    forall i | 0 <= i < |Decimal(port)| ensures SafeChar(Decimal(port)[i]) {
      assert Decimal(port)[i] in Decimal(port);
    }
    var words := ["ssh", "-p", Decimal(port), "--"];
    assert forall w :: w in words ==> SafeWord(w);
    SafeWords(BEGIN, words);
    SpacedSshWords(Decimal(port));
    RunConcat(BEGIN, Spaced(words), ClipboardWord(target));
    ClipboardWordExtends(Run(BEGIN, Spaced(words)), target);
    assert "" + target == target;
    assert ClipboardSshCommand(p).value == Spaced(words) + ClipboardWord(target);
    assert [] + Plainly(words) == Plainly(words);
    FinishWord(BEGIN.(tokens := Plainly(words)), target);
    assert Plainly(words) + [Word(target, false)] == [
      Word("ssh", false), Word("-p", false), Word(Decimal(port), false),
      Word("--", false), Word(target, false)];
  }

  lemma FinishWord(l: Lexer, text: string)
    requires l.mode.Plain? && l.symbol == "" && l.word.None?
    ensures Finish(Extend(l, text)) == Some(l.tokens + [Word(text, false)])
  {
    assert "" + text == text;
  }

  predicate SafeWord(w: string) {
    w != "" && forall i :: 0 <= i < |w| ==> SafeChar(w[i])
  }

  function Spaced(words: seq<string>): string {
    if words == [] then "" else words[0] + " " + Spaced(words[1..])
  }

  function Plainly(words: seq<string>): seq<Token> {
    seq(|words|, i requires 0 <= i < |words| => Word(words[i], false))
  }

  lemma {:induction false} SafeWords(l: Lexer, words: seq<string>)
    requires l.mode.Plain? && l.symbol == "" && l.word.None?
    requires forall w :: w in words ==> SafeWord(w)
    ensures Run(l, Spaced(words)) == l.(tokens := l.tokens + Plainly(words))
    decreases |words|
  {
    if words == [] {
      assert l.tokens + Plainly(words) == l.tokens;
    } else {
      assert words[0] in words;
      SafeWordThenBlank(l, words[0]);
      RunConcat(l, words[0] + " ", Spaced(words[1..]));
      SafeWords(l.(tokens := l.tokens + [Word(words[0], false)]), words[1..]);
      assert l.tokens + Plainly(words) == (l.tokens + [Word(words[0], false)]) + Plainly(words[1..]);
    }
  }

  lemma SpacedSshWords(port: string)
    ensures Spaced(["ssh", "-p", port, "--"]) == "ssh -p " + port + " -- "
    ensures Plainly(["ssh", "-p", port, "--"])
         == [Word("ssh", false), Word("-p", false), Word(port, false), Word("--", false)]
  {
    var words := ["ssh", "-p", port, "--"];
    assert words[1..] == ["-p", port, "--"] && words[1..][1..] == [port, "--"];
    assert [port, "--"][1..] == ["--"] && ["--"][1..] == [];
    assert Spaced(["--"]) == "-- ";
    assert Spaced([port, "--"]) == port + " -- ";
  }

  /** There is a command for exactly the SSH profiles with a host and a port in
      range, where 0 stands for 22. */
  lemma SshCommandIff(p: Profile)
    ensures ClipboardSshCommand(p).Some? <==> p.kind == "ssh" && TrimSpace(p.host) != "" && 0 <= p.port <= 65535
  {
  }

  const SMALL := "abcdefghijklmnopqrstuvwxyz"
  const CAPITAL := "ABCDEFGHIJKLMNOPQRSTUVWXYZ"
  const BARE := SMALL + CAPITAL + "0123456789" + "@%_+=,./-"

  lemma SafeIsBare(c: char)
    ensures SafeChar(c) <==> c in BARE
  {
    SmallIff(c);
    CapitalIff(c);
    DigitIff(c);
    assert c in "@%_+=,./-" <==> c in {'@', '%', '_', '+', '=', ',', '.', '/', '-'};
    hide BARE, SMALL, CAPITAL;
    InBare(c);
  }

  lemma InBare(c: char)
    ensures c in BARE <==> c in SMALL || c in CAPITAL || c in "0123456789" || c in "@%_+=,./-"
  {
  }

  lemma SmallIff(c: char)
    ensures c in SMALL <==> 'a' <= c <= 'z'
  {
    if 'a' <= c <= 'z' { assert SMALL[c as int - 'a' as int] == c; }
  }

  lemma CapitalIff(c: char)
    ensures c in CAPITAL <==> 'A' <= c <= 'Z'
  {
    if 'A' <= c <= 'Z' { assert CAPITAL[c as int - 'A' as int] == c; }
  }

  lemma DigitIff(c: char)
    ensures c in "0123456789" <==> '0' <= c <= '9'
  {
    if '0' <= c <= '9' { assert "0123456789"[c as int - '0' as int] == c; }
  }

  /** A word is copied without quotes exactly when it is not empty and all its
      characters are harmless. */
  lemma BareIff(s: string)
    ensures ClipboardWord(s) == s <==> s != "" && forall c :: c in s ==> c in BARE
  {
    forall c ensures SafeChar(c) <==> c in BARE { SafeIsBare(c); }
    if s != "" && !(forall c :: c in s ==> c in BARE) {
      QuotedIsLonger(s, "'\"'\"'");
    }
  }

  lemma {:induction false} QuotedIsLonger(s: string, sub: string)
    requires sub != ""
    ensures |ReplaceAll(s, '\'', sub)| >= |s|
  {
    if s != "" { QuotedIsLonger(s[1..], sub); }
  }
}
