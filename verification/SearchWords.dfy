/** What a connection search without quotes is read as, and what quotes and
    backslashes do (guis/guis.go, connectionSearchClauses and
    connectionSearchTerms). */
module SearchWords {
  import opened Text
  import opened SearchLexer

  // ---------------------------------------------------------------------------
  // Words without quotes
  // ---------------------------------------------------------------------------

  /** Without quotes, pipes and blanks; a backslash is a character like others. */
  predicate PlainText(s: string) {
    forall i :: 0 <= i < |s| ==> s[i] !in {'"', '|', ' ', '\t', '\n', '\r'}
  }

  predicate PlainWord(w: string) { w != "" && Trimmed(w) && PlainText(w) }

  predicate Gap(s: string) { forall i :: 0 <= i < |s| ==> s[i] in {' ', '\t', '\n', '\r'} }

  /** Plain words with gaps around them, nonempty ones between them. */
  predicate Apart(words: seq<string>, gaps: seq<string>) {
    && |gaps| == |words| + 1
    && (forall i :: 0 <= i < |words| ==> PlainWord(words[i]))
    && (forall i :: 0 <= i < |gaps| ==> Gap(gaps[i]))
    && (forall i :: 0 < i < |words| ==> gaps[i] != "")
  }

  /** The words as they are typed. */
  function Typed(words: seq<string>, gaps: seq<string>): string
    requires |gaps| == |words| + 1
  {
    if words == [] then gaps[0]
    else
      var n := |words| - 1;
      Typed(words[..n], gaps[..n + 1]) + (words[n] + gaps[n + 1])
  }

  predicate Unquoted(l: Lexer) { !l.term.quoted && !l.term.escaped }

  lemma {:induction false} LexWord(l: Lexer, s: string)
    requires Unquoted(l) && PlainText(s)
    ensures LexRun(l, s) == l.(term := l.term.(current := l.term.current + s))
  {
    if s == "" {
      assert l.term.current + "" == l.term.current;
    } else {
      var n := |s| - 1;
      LexWord(l, s[..n]);
      assert (l.term.current + s[..n]) + [s[n]] == l.term.current + s;
    }
  }

  lemma {:induction false} LexGap(l: Lexer, s: string)
    requires Unquoted(l) && Gap(s)
    ensures LexRun(l, s) ==
      if s == "" then l else l.(term := l.term.(current := "", terms := WithTerm(l.term.terms, l.term.current)))
  {
    if s != "" {
      LexGap(l, s[..|s| - 1]);
      assert TrimSpace("") == "";
    }
  }

  /** The words read so far; the last one is open unless a gap follows. */
  function Reading(words: seq<string>, gap: string): TermState {
    if words == [] || gap != "" then START.(terms := words) else Holding(words)
  }

  lemma ReadWord(l: Lexer, words: seq<string>, w: string, gap: string)
    requires l.term == START.(terms := words) && PlainWord(w) && Gap(gap)
    ensures LexRun(l, w + gap) == l.(term := Reading(words + [w], gap))
  {
    hide LexRun, PlainText, Gap;
    LexRunConcat(l, w, gap);
    LexWord(l, w);
    LexGap(LexRun(l, w), gap);
    TrimSpaceShape(w);
    assert "" + w == w && (words + [w])[..|words|] == words;
  }

  lemma {:induction false} ReadWords(l: Lexer, words: seq<string>, gaps: seq<string>)
    requires l.term == START && Apart(words, gaps)
    ensures LexRun(l, Typed(words, gaps)) == l.(term := Reading(words, gaps[|words|]))
    decreases |words|
  {
    hide LexRun, PlainWord, Gap;
    if words == [] {
      LexGap(l, gaps[0]);
      assert TrimSpace("") == "";
    } else {
      var n := |words| - 1;
      ReadWords(l, words[..n], gaps[..n + 1]);
      LexRunConcat(l, Typed(words[..n], gaps[..n + 1]), words[n] + gaps[n + 1]);
      assert n > 0 ==> gaps[n] != "";
      ReadWord(l.(term := Reading(words[..n], gaps[n])), words[..n], words[n], gaps[n + 1]);
      assert words[..n] + [words[n]] == words;
    }
  }

  lemma FinishReading(words: seq<string>, gap: string)
    requires forall i :: 0 <= i < |words| ==> PlainWord(words[i])
    ensures Finish(Reading(words, gap)) == words
    ensures !Reading(words, gap).quoted && !Reading(words, gap).escaped
  {
    assert TrimSpace("") == "";
    if words != [] {
      var n := |words| - 1;
      TrimSpaceShape(words[n]);
      assert words[..n] + [words[n]] == words;
    }
  }

  /** Some alternatives and how each is typed. */
  predicate AllApart(clauses: seq<seq<string>>, gaps: seq<seq<string>>) {
    |gaps| == |clauses| && forall i :: 0 <= i < |clauses| ==> Apart(clauses[i], gaps[i])
  }

  function TypedAll(clauses: seq<seq<string>>, gaps: seq<seq<string>>): (texts: seq<string>)
    requires AllApart(clauses, gaps)
    ensures |texts| == |clauses| && forall i :: 0 <= i < |texts| ==> texts[i] == Typed(clauses[i], gaps[i])
  {
    seq(|clauses|, i requires 0 <= i < |clauses| => Typed(clauses[i], gaps[i]))
  }

  predicate NoneEmpty(clauses: seq<seq<string>>) {
    forall i :: 0 <= i < |clauses| ==> clauses[i] != []
  }

  lemma {:induction false} ReadClauses(l: Lexer, clauses: seq<seq<string>>, gaps: seq<seq<string>>)
    requires l.term == START && clauses != [] && AllApart(clauses, gaps)
    ensures LexFinish(LexRun(l, Join(TypedAll(clauses, gaps), '|'))) ==
      if !l.broken && NoneEmpty(clauses) then Clauses(l.clauses + clauses) else Malformed
    decreases |clauses|
  {
    hide LexRun, Apart, Typed, TermStep, TrimSpace, Reading;
    var texts, words := TypedAll(clauses, gaps), clauses[0];
    ApartShape(words, gaps[0]);
    var after := l.(term := Reading(words, gaps[0][|words|]));
    ReadWords(l, words, gaps[0]);
    FinishReading(words, gaps[0][|words|]);
    if |clauses| == 1 {
      assert clauses == [words];
    } else {
      var later := Join(texts[1..], '|');
      assert texts[1..] == TypedAll(clauses[1..], gaps[1..]);
      assert Join(texts, '|') == texts[0] + (['|'] + later);
      LexRunConcat(l, texts[0], ['|'] + later);
      LexRunConcat(after, ['|'], later);
      LexOne(after, '|');
      var next := LexStep(after, '|');
      ReadClauses(next, clauses[1..], gaps[1..]);
      assert next.clauses + clauses[1..] == l.clauses + clauses;
      assert NoneEmpty(clauses) <==> words != [] && NoneEmpty(clauses[1..]) by {
        assert forall i :: 0 < i < |clauses| ==> clauses[i] == clauses[1..][i - 1];
      }
    }
  }

  lemma ApartShape(words: seq<string>, gaps: seq<string>)
    requires Apart(words, gaps)
    ensures |gaps| == |words| + 1 && forall i :: 0 <= i < |words| ==> PlainWord(words[i])
  {
  }

  /** Unquoted words between blanks are the terms, alternatives stand between
      pipes, and every alternative needs a word. */
  lemma PlainSearchReadsAs(clauses: seq<seq<string>>, gaps: seq<seq<string>>)
    requires clauses != [] && AllApart(clauses, gaps)
    ensures Lexed(Join(TypedAll(clauses, gaps), '|')) == if NoneEmpty(clauses) then Clauses(clauses) else Malformed
  {
    ReadClauses(LEXER, clauses, gaps);
    assert [] + clauses == clauses;
  }

  // ---------------------------------------------------------------------------
  // Inside quotes
  // ---------------------------------------------------------------------------

  /** Inside quotes everything but a quote and a backslash stands for itself. */
  predicate Literal(s: string) {
    forall i :: 0 <= i < |s| ==> s[i] != '"' && s[i] != '\\'
  }

  lemma {:induction false} LexLiteral(l: Lexer, s: string)
    requires l.term.quoted && !l.term.escaped && Literal(s)
    ensures LexRun(l, s) == l.(term := l.term.(current := l.term.current + s))
  {
    if s == "" {
      assert l.term.current + "" == l.term.current;
    } else {
      var n := |s| - 1;
      LexLiteral(l, s[..n]);
      assert (l.term.current + s[..n]) + [s[n]] == l.term.current + s;
    }
  }

  /** Reading s from the state l comes to the state next. */
  lemma LexThen(l: Lexer, s: string, next: Lexer, t: string)
    requires LexRun(l, s) == next
    ensures LexRun(l, s + t) == LexRun(next, t)
  {
    LexRunConcat(l, s, t);
  }

  const INSIDE := Lexer(TermState(true, false, "", []), [], false)

  function Open(current: string): Lexer { INSIDE.(term := INSIDE.term.(current := current)) }

  lemma OpenQuote(s: string)
    ensures LexRun(LEXER, ['"'] + s) == LexRun(INSIDE, s)
  {
    LexOne(LEXER, '"');
    LexThen(LEXER, ['"'], INSIDE, s);
  }

  lemma OneTerm(l: Lexer, t: string)
    requires WellFormedTerm(t) && l.clauses == [] && !l.broken
    requires l.term.terms == [] && !l.term.escaped && l.term.current == t
    ensures LexFinish(l) == Clauses([[t]])
  {
    TrimSpaceShape(t);
    assert [] + [t] == [t] && [] + [[t]] == [[t]];
  }

  /** A quote that is not closed reaches to the end, and a backslash at the very
      end stands for itself. */
  lemma OpenQuoteReachesEnd(t: string)
    requires Literal(t)
    ensures WellFormedTerm(t) ==> Lexed(['"'] + t) == Clauses([[t]])
    ensures WellFormedTerm(t + ['\\']) ==> Lexed(['"'] + t + ['\\']) == Clauses([[t + ['\\']]])
  {
    OpenQuote(t);
    LexLiteral(INSIDE, t);
    assert "" + t == t;
    if WellFormedTerm(t) { OneTerm(LexRun(LEXER, ['"'] + t), t); }
    var l := Open(t);
    LexThen(LEXER, ['"'] + t, l, ['\\']);
    LexOne(l, '\\');
    if WellFormedTerm(t + ['\\']) {
      TrimSpaceShape(t + ['\\']);
      assert [] + [t + ['\\']] == [t + ['\\']] && [] + [[t + ['\\']]] == [[t + ['\\']]];
    }
  }

  /** Inside quotes a backslash takes away the meaning of a quote or a backslash
      behind it; in front of any other character it stays. */
  lemma BackslashInside(a: string, c: char, b: string)
    requires Literal(a) && Literal(b)
    ensures var t := a + (if c == '"' || c == '\\' then [c] else ['\\', c]) + b;
      WellFormedTerm(t) ==> Lexed(['"'] + a + ['\\', c] + b + ['"']) == Clauses([[t]])
  {
    hide LexRun, Lexed;
    var kept := if c == '"' || c == '\\' then [c] else ['\\', c];
    var t := a + kept + b;
    OpenQuote(a);
    LexLiteral(INSIDE, a);
    assert "" + a == a;
    EscapedPair(a, c);
    LexThen(LEXER, ['"'] + a, Open(a), ['\\', c]);
    LexLiteral(Open(a + kept), b);
    LexThen(LEXER, ['"'] + a + ['\\', c], Open(a + kept), b);
    LexOne(Open(t), '"');
    LexThen(LEXER, ['"'] + a + ['\\', c] + b, Open(t), ['"']);
    if WellFormedTerm(t) {
      var l := LexStep(Open(t), '"');
      OneTerm(l, t);
      LexedIs(['"'] + a + ['\\', c] + b + ['"'], l);
    }
  }

  lemma LexedIs(s: string, l: Lexer)
    requires LexRun(LEXER, s) == l
    ensures Lexed(s) == LexFinish(l)
  {
  }

  lemma EscapedPair(a: string, c: char)
    ensures LexRun(Open(a), ['\\', c]) == Open(a + if c == '"' || c == '\\' then [c] else ['\\', c])
  {
    LexOne(Open(a), '\\');
    LexThen(Open(a), ['\\'], LexStep(Open(a), '\\'), [c]);
    LexOne(LexStep(Open(a), '\\'), c);
    assert ['\\'] + [c] == ['\\', c];
  }
}
