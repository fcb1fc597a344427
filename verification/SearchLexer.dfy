/** Splitting a connection search into alternatives and terms (guis/guis.go,
    connectionSearchClauses and connectionSearchTerms).  The program makes two
    passes over the text; the lexer here makes one. */
module SearchLexer {
  import opened Text

  datatype Parsed = Clauses(value: seq<seq<string>>) | Malformed

  predicate Separator(c: char) { c in {' ', '\t', '\n', '\r'} }

  // ---------------------------------------------------------------------------
  // Terms of one clause
  // ---------------------------------------------------------------------------

  datatype TermState = TermState(quoted: bool, escaped: bool, current: string, terms: seq<string>)

  const START := TermState(false, false, "", [])

  function WithTerm(terms: seq<string>, current: string): seq<string> {
    if TrimSpace(current) == "" then terms else terms + [TrimSpace(current)]
  }

  function TermStep(st: TermState, c: char): TermState {
    if st.escaped then
      st.(current := st.current + (if c in {'"', '\\'} then [c] else ['\\', c]), escaped := false)
    else if st.quoted && c == '\\' then st.(escaped := true)
    else if c == '"' then st.(quoted := !st.quoted)
    else if !st.quoted && Separator(c) then st.(current := "", terms := WithTerm(st.terms, st.current))
    else st.(current := st.current + [c])
  }

  function TermRun(st: TermState, s: string): TermState {
    if s == "" then st else TermStep(TermRun(st, s[..|s| - 1]), s[|s| - 1])
  }

  function Finish(st: TermState): seq<string> {
    WithTerm(st.terms, if st.escaped then st.current + ['\\'] else st.current)
  }

  function TermsOf(s: string): seq<string> { Finish(TermRun(START, s)) }

  method ConnectionSearchTerms(query: string) returns (terms: seq<string>)
    ensures terms == TermsOf(query)
  {
    terms := [];
    var current, quoted, escaped := "", false, false;
    for i := 0 to |query|
      invariant TermRun(START, query[..i]) == TermState(quoted, escaped, current, terms)
    {
      var r := query[i];
      assert query[..i + 1][..i] == query[..i];
      if escaped {
        if r != '"' && r != '\\' {
          current := current + ['\\'];
        }
        current := current + [r];
        escaped := false;
        continue;
      }
      if quoted && r == '\\' {
        escaped := true;
        continue;
      }
      if r == '"' {
        quoted := !quoted;
        continue;
      }
      if !quoted && Separator(r) {
        var term := TrimSpace(current);
        if term != "" {
          terms := terms + [term];
        }
        current := "";
        continue;
      }
      current := current + [r];
    }
    assert query[..|query|] == query;
    if escaped {
      current := current + ['\\'];
    }
    var term := TrimSpace(current);
    if term != "" {
      terms := terms + [term];
    }
  }

  // ---------------------------------------------------------------------------
  // Trimming a clause before splitting it changes nothing
  // ---------------------------------------------------------------------------

  lemma {:induction false} TrimRightSpace(x: string, c: char)
    requires IsSpace(c)
    ensures TrimSpace(x + [c]) == TrimSpace(x)
  {
    TrimLeftSnoc(x, c);
    var y := TrimLeft(x);
    assert (y + [c])[..|y|] == y;
  }

  lemma {:induction false} TrimLeftSnoc(x: string, c: char)
    requires IsSpace(c)
    ensures TrimLeft(x + [c]) == if TrimLeft(x) == "" then "" else TrimLeft(x) + [c]
  {
    if x == "" {
      assert ([c])[1..] == "";
    } else if IsSpace(x[0]) {
      assert (x + [c])[1..] == x[1..] + [c];
      TrimLeftSnoc(x[1..], c);
    }
  }

  lemma TrimLeftSpace(x: string, c: char)
    requires IsSpace(c)
    ensures TrimSpace([c] + x) == TrimSpace(x)
  {
    assert ([c] + x)[1..] == x;
  }

  /** a is b, but for a space in front of its unfinished term. */
  predicate Padded(a: TermState, b: TermState, c: char) {
    a == b || a == b.(current := [c] + b.current)
  }

  lemma {:induction false} PaddedRun(s: string, c: char)
    requires IsSpace(c)
    ensures Padded(TermRun(START, [c] + s), TermRun(START, s), c)
  {
    if s == "" {
      assert ([c] + s)[..0] == "";
    } else {
      var n := |s| - 1;
      assert ([c] + s)[..n + 1] == [c] + s[..n];
      PaddedRun(s[..n], c);
      TrimLeftSpace(TermRun(START, s[..n]).current, c);
      PaddedStep(TermRun(START, [c] + s[..n]), TermRun(START, s[..n]), c, s[n]);
    }
  }

  lemma PaddedStep(a: TermState, b: TermState, c: char, next: char)
    requires IsSpace(c) && Padded(a, b, c)
    ensures Padded(TermStep(a, next), TermStep(b, next), c)
  {
    TrimLeftSpace(b.current, c);
    assert forall x: string :: ([c] + b.current) + x == [c] + (b.current + x);
  }

  lemma SpaceInFront(s: string, c: char)
    requires IsSpace(c)
    ensures TermsOf([c] + s) == TermsOf(s)
  {
    PaddedRun(s, c);
    var b := TermRun(START, s);
    TrimLeftSpace(b.current, c);
    TrimLeftSpace(b.current + ['\\'], c);
    assert ([c] + b.current) + ['\\'] == [c] + (b.current + ['\\']);
  }

  lemma SpaceBehind(s: string, c: char)
    requires IsSpace(c)
    ensures TermsOf(s + [c]) == TermsOf(s)
  {
    assert (s + [c])[..|s|] == s;
    var st := TermRun(START, s);
    TrimRightSpace(st.current, c);
    TrimRightSpace(st.current + ['\\'], c);
    assert st.current + ['\\', c] == (st.current + ['\\']) + [c];
  }

  lemma {:induction false} TrimLeftSameTerms(s: string)
    ensures TermsOf(TrimLeft(s)) == TermsOf(s)
  {
    if s != "" && IsSpace(s[0]) {
      TrimLeftSameTerms(s[1..]);
      SpaceInFront(s[1..], s[0]);
      assert [s[0]] + s[1..] == s;
    }
  }

  lemma {:induction false} TrimRightSameTerms(s: string)
    ensures TermsOf(TrimRight(s)) == TermsOf(s)
  {
    if s != "" && IsSpace(s[|s| - 1]) {
      var n := |s| - 1;
      TrimRightSameTerms(s[..n]);
      SpaceBehind(s[..n], s[n]);
      assert s[..n] + [s[n]] == s;
    }
  }

  lemma TrimSameTerms(s: string)
    ensures TermsOf(TrimSpace(s)) == TermsOf(s)
  {
    TrimLeftSameTerms(s);
    TrimRightSameTerms(TrimLeft(s));
  }

  // ---------------------------------------------------------------------------
  // The one-pass lexer
  // ---------------------------------------------------------------------------

  datatype Lexer = Lexer(term: TermState, clauses: seq<seq<string>>, broken: bool)

  /** A pipe outside quotes ends an alternative, which must hold a term. */
  function LexStep(l: Lexer, c: char): Lexer {
    if c == '|' && !l.term.quoted && !l.term.escaped
    then
      var terms := Finish(l.term);
      Lexer(START, l.clauses + [terms], l.broken || terms == [])
    else l.(term := TermStep(l.term, c))
  }

  function LexRun(l: Lexer, s: string): Lexer {
    if s == "" then l else LexStep(LexRun(l, s[..|s| - 1]), s[|s| - 1])
  }

  const LEXER := Lexer(START, [], false)

  function LexFinish(l: Lexer): Parsed {
    var terms := Finish(l.term);
    if l.broken || terms == [] then Malformed else Clauses(l.clauses + [terms])
  }

  function Lexed(query: string): Parsed { LexFinish(LexRun(LEXER, query)) }

  lemma {:induction false} LexRunConcat(l: Lexer, a: string, b: string)
    ensures LexRun(l, a + b) == LexRun(LexRun(l, a), b)
    decreases |b|
  {
    if b == "" {
      assert a + b == a;
    } else {
      assert (a + b)[..|a + b| - 1] == a + b[..|b| - 1];
      LexRunConcat(l, a, b[..|b| - 1]);
    }
  }

  lemma {:induction false} BrokenStays(l: Lexer, s: string)
    requires l.broken
    ensures LexRun(l, s).broken
  {
    if s != "" { BrokenStays(l, s[..|s| - 1]); }
  }

  lemma LexSnoc(l: Lexer, s: string, c: char)
    ensures LexRun(l, s + [c]) == LexStep(LexRun(l, s), c)
  {
    assert (s + [c])[..|s|] == s;
  }

  /** The modes after one more character, and the run over a longer string. */
  lemma TermSnoc(s: string, c: char)
    ensures var st := TermRun(START, s); var next := TermRun(START, s + [c]);
      && next == TermStep(st, c)
      && next.escaped == (!st.escaped && st.quoted && c == '\\')
      && next.quoted == if !st.escaped && c == '"' then !st.quoted else st.quoted
  {
    assert (s + [c])[..|s|] == s;
  }

  lemma NothingLexed()
    ensures LexRun(LEXER, "") == Lexer(TermRun(START, ""), [], false)
    ensures TermRun(START, "") == START
  {
  }

  /** A broken alternative is not mended by what follows. */
  lemma BrokenIsMalformed(query: string, i: nat)
    requires i <= |query| && LexRun(LEXER, query[..i]).broken
    ensures Lexed(query) == Malformed
  {
    LexRunConcat(LEXER, query[..i], query[i..]);
    assert query[..i] + query[i..] == query;
    BrokenStays(LexRun(LEXER, query[..i]), query[i..]);
  }

  /** The two passes of the program, on every string, do what the one-pass lexer
      does. */
  method ConnectionSearchClauses(query: string) returns (clauses: seq<seq<string>>, valid: bool)
    ensures Lexed(query) == if valid then Clauses(clauses) else Malformed
  {
    hide LexRun, TermRun, TermStep, Finish, TrimSpace;
    NothingLexed();
    clauses, valid := [], true;
    var current, quoted, escaped := "", false, false;
    for i := 0 to |query|
      invariant valid
      invariant LexRun(LEXER, query[..i]) == Lexer(TermRun(START, current), clauses, false)
      invariant quoted == TermRun(START, current).quoted && escaped == TermRun(START, current).escaped
    {
      var r := query[i];
      assert query[..i + 1] == query[..i] + [r];
      LexSnoc(LEXER, query[..i], r);
      if r == '|' && !quoted && !escaped {
        TrimSameTerms(current);
        clauses, valid := Flush(clauses, current);
        if !valid {
          BrokenIsMalformed(query, i + 1);
          return;
        }
        current := "";
        continue;
      }
      TermSnoc(current, r);
      if escaped {
        escaped := false;
      } else if quoted && r == '\\' {
        escaped := true;
      } else if r == '"' {
        quoted := !quoted;
      }
      current := current + [r];
    }
    assert query[..|query|] == query;
    TrimSameTerms(current);
    clauses, valid := Flush(clauses, current);
  }

  method Flush(clauses: seq<seq<string>>, current: string) returns (more: seq<seq<string>>, ok: bool)
    ensures var terms := TermsOf(TrimSpace(current));
      if terms == [] then !ok && more == [] else ok && more == clauses + [terms]
  {
    var clause := TrimSpace(current);
    if clause == "" {
      return [], false;
    }
    var terms := ConnectionSearchTerms(clause);
    if |terms| == 0 {
      return [], false;
    }
    return clauses + [terms], true;
  }

  // ---------------------------------------------------------------------------
  // Printing and reading back
  // ---------------------------------------------------------------------------

  predicate WellFormedTerm(t: string) { t != "" && Trimmed(t) }

  predicate WellFormedClause(terms: seq<string>) {
    terms != [] && forall t :: t in terms ==> WellFormedTerm(t)
  }

  predicate WellFormed(clauses: seq<seq<string>>) {
    clauses != [] && forall terms :: terms in clauses ==> WellFormedClause(terms)
  }

  function EscapeText(t: string): string {
    if t == "" then ""
    else
      var n := |t| - 1;
      EscapeText(t[..n]) + if t[n] in {'"', '\\'} then ['\\', t[n]] else [t[n]]
  }

  function RenderTerm(t: string): string { ['"'] + (EscapeText(t) + ['"']) }

  function RenderClause(terms: seq<string>): string {
    if terms == [] then ""
    else
      var n := |terms| - 1;
      (if n == 0 then "" else RenderClause(terms[..n]) + [' ']) + RenderTerm(terms[n])
  }

  function Render(clauses: seq<seq<string>>): string {
    if clauses == [] then ""
    else
      var n := |clauses| - 1;
      (if n == 0 then "" else Render(clauses[..n]) + ['|']) + RenderClause(clauses[n])
  }

  lemma LexOne(l: Lexer, c: char)
    ensures LexRun(l, [c]) == LexStep(l, c)
  {
    assert [c][..0] == "";
  }

  lemma {:induction false} LexEscaped(l: Lexer, t: string)
    requires l.term.quoted && !l.term.escaped
    ensures LexRun(l, EscapeText(t)) == l.(term := l.term.(current := l.term.current + t))
  {
    if t != "" {
      var n := |t| - 1;
      LexEscaped(l, t[..n]);
      var so := LexRun(l, EscapeText(t[..n]));
      if t[n] in {'"', '\\'} {
        LexRunConcat(l, EscapeText(t[..n]), ['\\', t[n]]);
        assert ['\\', t[n]] == ['\\'] + [t[n]];
        LexRunConcat(so, ['\\'], [t[n]]);
        LexOne(so, '\\');
        LexOne(LexStep(so, '\\'), t[n]);
      } else {
        LexRunConcat(l, EscapeText(t[..n]), [t[n]]);
        LexOne(so, t[n]);
      }
      assert (l.term.current + t[..n]) + [t[n]] == l.term.current + t;
    } else {
      assert l.term.current + t == l.term.current;
    }
  }

  lemma LexTerm(l: Lexer, t: string)
    requires !l.term.quoted && !l.term.escaped && l.term.current == ""
    ensures LexRun(l, RenderTerm(t)) == l.(term := l.term.(current := t))
  {
    var inside := LexStep(l, '"');
    LexRunConcat(l, ['"'], EscapeText(t) + ['"']);
    LexOne(l, '"');
    LexRunConcat(inside, EscapeText(t), ['"']);
    LexEscaped(inside, t);
    assert "" + t == t;
    LexOne(LexRun(inside, EscapeText(t)), '"');
  }

  /** The state after reading some terms, the last one still open. */
  function Holding(terms: seq<string>): TermState
    requires terms != []
  {
    TermState(false, false, terms[|terms| - 1], terms[..|terms| - 1])
  }

  lemma FinishHolding(terms: seq<string>)
    requires WellFormedClause(terms)
    ensures Finish(Holding(terms)) == terms
    ensures TermStep(Holding(terms), ' ') == START.(terms := terms)
  {
    var last := terms[|terms| - 1];
    assert last in terms;
    TrimSpaceShape(last);
    assert terms[..|terms| - 1] + [last] == terms;
  }

  lemma LexNextTerm(l: Lexer, terms: seq<string>, t: string)
    requires WellFormedClause(terms) && l.term == Holding(terms)
    ensures LexRun(l, [' '] + RenderTerm(t)) == l.(term := Holding(terms + [t]))
  {
    FinishHolding(terms);
    LexRunConcat(l, [' '], RenderTerm(t));
    LexOne(l, ' ');
    LexTerm(LexStep(l, ' '), t);
    assert (terms + [t])[..|terms|] == terms;
  }

  lemma RenderClauseSnoc(terms: seq<string>, t: string)
    ensures RenderClause(terms + [t]) ==
      if terms == [] then RenderTerm(t) else RenderClause(terms) + ([' '] + RenderTerm(t))
  {
    assert (terms + [t])[..|terms|] == terms;
    assert "" + RenderTerm(t) == RenderTerm(t);
  }

  lemma {:induction false} LexClause(l: Lexer, init: seq<string>, t: string)
    requires l.term == START && WellFormedClause(init + [t])
    ensures LexRun(l, RenderClause(init + [t])) == l.(term := Holding(init + [t]))
    decreases |init|
  {
    RenderClauseSnoc(init, t);
    if init == [] {
      LexTerm(l, t);
      assert ([] + [t])[..0] == [];
    } else {
      var n := |init| - 1;
      assert init[..n] + [init[n]] == init;
      assert forall u :: u in init ==> u in init + [t];
      LexClause(l, init[..n], init[n]);
      LexRunConcat(l, RenderClause(init), [' '] + RenderTerm(t));
      LexNextTerm(l.(term := Holding(init)), init, t);
    }
  }

  lemma LexWholeClause(l: Lexer, terms: seq<string>)
    requires l.term == START && WellFormedClause(terms)
    ensures LexRun(l, RenderClause(terms)) == l.(term := Holding(terms))
  {
    var n := |terms| - 1;
    assert terms[..n] + [terms[n]] == terms;
    LexClause(l, terms[..n], terms[n]);
  }

  lemma LexNextClause(clauses: seq<seq<string>>, open: seq<string>, next: seq<string>)
    requires WellFormedClause(open) && WellFormedClause(next)
    ensures LexRun(Lexer(Holding(open), clauses, false), ['|'] + RenderClause(next))
         == Lexer(Holding(next), clauses + [open], false)
  {
    var l := Lexer(Holding(open), clauses, false);
    FinishHolding(open);
    LexRunConcat(l, ['|'], RenderClause(next));
    LexOne(l, '|');
    LexWholeClause(LexStep(l, '|'), next);
  }

  lemma RenderSnoc(clauses: seq<seq<string>>, terms: seq<string>)
    ensures Render(clauses + [terms]) ==
      if clauses == [] then RenderClause(terms) else Render(clauses) + (['|'] + RenderClause(terms))
  {
    assert (clauses + [terms])[..|clauses|] == clauses;
    assert "" + RenderClause(terms) == RenderClause(terms);
  }

  lemma LexAllStep(done: seq<seq<string>>, before: seq<seq<string>>, open: seq<string>, last: seq<string>)
    requires done == before + [open] && WellFormedClause(open) && WellFormedClause(last)
    requires LexRun(LEXER, Render(done)) == Lexer(Holding(open), before, false)
    ensures LexRun(LEXER, Render(done + [last])) == Lexer(Holding(last), done, false)
  {
    RenderSnoc(done, last);
    LexRunConcat(LEXER, Render(done), ['|'] + RenderClause(last));
    LexNextClause(before, open, last);
  }

  lemma {:induction false} LexAll(init: seq<seq<string>>, last: seq<string>)
    requires (forall terms :: terms in init ==> WellFormedClause(terms)) && WellFormedClause(last)
    ensures LexRun(LEXER, Render(init + [last])) == Lexer(Holding(last), init, false)
    decreases |init|
  {
    if init == [] {
      RenderSnoc(init, last);
      LexWholeClause(LEXER, last);
    } else {
      var n := |init| - 1;
      assert init[..n] + [init[n]] == init;
      LexAll(init[..n], init[n]);
      LexAllStep(init, init[..n], init[n], last);
    }
  }

  /** Quoted and escaped terms read back as they were written. */
  lemma RenderReadsBack(clauses: seq<seq<string>>)
    requires WellFormed(clauses)
    ensures Lexed(Render(clauses)) == Clauses(clauses)
  {
    var n := |clauses| - 1;
    assert clauses[..n] + [clauses[n]] == clauses && clauses[n] in clauses;
    LexAll(clauses[..n], clauses[n]);
    FinishHolding(clauses[n]);
  }

  predicate TermsKept(st: TermState) {
    forall t :: t in st.terms ==> WellFormedTerm(t)
  }

  lemma WithTermKeeps(terms: seq<string>, current: string)
    requires forall t :: t in terms ==> WellFormedTerm(t)
    ensures forall t :: t in WithTerm(terms, current) ==> WellFormedTerm(t)
  {
    TrimSpaceShape(current);
  }

  lemma {:induction false} LexerShape(s: string)
    ensures var l := LexRun(LEXER, s);
      TermsKept(l.term) && (!l.broken ==> forall terms :: terms in l.clauses ==> WellFormedClause(terms))
  {
    if s != "" {
      var n := |s| - 1;
      LexerShape(s[..n]);
      var l := LexRun(LEXER, s[..n]);
      WithTermKeeps(l.term.terms, l.term.current);
      WithTermKeeps(l.term.terms, if l.term.escaped then l.term.current + ['\\'] else l.term.current);
    }
  }

  /** What is read is always well formed, so reading, printing and reading again
      gives the same alternatives. */
  lemma ReadIsWellFormed(query: string)
    requires Lexed(query).Clauses?
    ensures WellFormed(Lexed(query).value)
    ensures Lexed(Render(Lexed(query).value)) == Lexed(query)
  {
    LexerShape(query);
    var st := LexRun(LEXER, query).term;
    WithTermKeeps(st.terms, if st.escaped then st.current + ['\\'] else st.current);
    RenderReadsBack(Lexed(query).value);
  }
}
