/** What a whole connection search finds (guis/guis.go), from the text that is
    typed to the profiles that match. */
module SearchQueries {
  import opened Outcomes
  import opened Text
  import opened Profiles
  import opened SearchLexer
  import opened SearchWords
  import opened SearchTerms
  import opened SearchRank
  import opened SearchMeaning

  /** Every word is found. */
  predicate AllFound(env: Env, p: Profile, words: seq<string>) {
    forall k :: 0 <= k < |words| ==> Found(env, p, words[k])
  }

  predicate NoErrors(clauses: seq<seq<string>>) {
    forall i, k :: 0 <= i < |clauses| && 0 <= k < |clauses[i]| ==> TermError(clauses[i][k]).None?
  }

  lemma NothingIsMalformed()
    ensures Lexed("") == Malformed
  {
  }

  lemma NoErrorsIff(clauses: seq<seq<string>>)
    ensures FirstClauseError(CHECK, clauses).None? <==> NoErrors(clauses)
  {
    FirstClauseErrorFinds(CHECK, clauses);
    hide TermError, FirstClauseError;
    if NoErrors(clauses) {
      forall terms, t | terms in clauses && t in terms ensures CHECK(t).None? {
        var i :| 0 <= i < |clauses| && clauses[i] == terms;
        var k :| 0 <= k < |terms| && terms[k] == t;
        assert TermError(clauses[i][k]).None?;
      }
    } else {
      var i, k :| 0 <= i < |clauses| && 0 <= k < |clauses[i]| && TermError(clauses[i][k]).Some?;
      assert clauses[i] in clauses && clauses[i][k] in clauses[i] && CHECK(clauses[i][k]).Some?;
    }
  }

  /** The parsed alternative matches exactly if all its words are found. */
  lemma ParsedMatches(env: Env, p: Profile, words: seq<string>)
    requires words != [] && forall k :: 0 <= k < |words| ==> !ParseTerm(env.lower, words[k]).invalid
    ensures ClauseMatches(env, p, ParseAll(Parser(env.lower), words)) <==> AllFound(env, p, words)
  {
    hide ParseTerm, Fits;
    var terms := ParseAll(Parser(env.lower), words);
    assert forall k :: 0 <= k < |words| ==> terms[k] == ParseTerm(env.lower, words[k]);
    if AllFound(env, p, words) {
      forall k | 0 <= k < |terms| ensures Fits(env, p, terms[k]) {
        assert Found(env, p, words[k]);
      }
    }
  }

  lemma AcceptedParses(lower: char -> char, q: string, clauses: seq<seq<string>>, i: nat)
    requires Lowering(lower) && Canonical(lower, q) == q && q != "" && Lexed(q) == Clauses(clauses) && i < |clauses|
    requires ValidationError(lower, q).None?
    ensures forall k :: 0 <= k < |clauses[i]| ==> !ParseTerm(lower, clauses[i][k]).invalid
  {
    forall k | 0 <= k < |clauses[i]| ensures !ParseTerm(lower, clauses[i][k]).invalid {
      AcceptedHasNoInvalidTerm(lower, q, clauses[i], clauses[i][k]);
    }
  }

  /** A search that reads as some alternatives matches a profile exactly if no
      word of it has an error and all words of some alternative are found. */
  lemma ReadSearchFinds(env: Env, p: Profile, q: string, clauses: seq<seq<string>>)
    requires Lowering(env.lower) && Canonical(env.lower, q) == q && q != "" && Lexed(q) == Clauses(clauses)
    ensures Matches(env, p, q) <==>
      NoErrors(clauses) && exists i :: 0 <= i < |clauses| && AllFound(env, p, clauses[i])
  {
    MatchMeaning(env, p, q);
    NoErrorsIff(clauses);
    assert ValidationError(env.lower, q) == FirstClauseError(CHECK, clauses);
    hide ValidationError, FirstClauseError, Matches, Lexed, Canonical, Lowering, NoErrors, ClauseMatches;
    if NoErrors(clauses) {
      var parsed := ParsedClauses(Parser(env.lower), clauses);
      ReadIsWellFormedAt(q, clauses);
      forall i | 0 <= i < |clauses|
        ensures ClauseMatches(env, p, parsed[i]) <==> AllFound(env, p, clauses[i])
      {
        AcceptedParses(env.lower, q, clauses, i);
        ParsedMatches(env, p, clauses[i]);
      }
      hide AllFound;
    }
  }

  lemma ReadIsWellFormedAt(q: string, clauses: seq<seq<string>>)
    requires Lexed(q) == Clauses(clauses)
    ensures forall i :: 0 <= i < |clauses| ==> clauses[i] != []
  {
    ReadIsWellFormed(q);
    forall i | 0 <= i < |clauses| ensures clauses[i] != [] {
      assert clauses[i] in clauses;
    }
  }

  /** The same from the text: unquoted words between blanks and pipes. */
  lemma PlainSearchFinds(env: Env, p: Profile, clauses: seq<seq<string>>, gaps: seq<seq<string>>)
    requires Lowering(env.lower) && clauses != [] && AllApart(clauses, gaps)
    requires var q := Join(TypedAll(clauses, gaps), '|'); Canonical(env.lower, q) == q && q != ""
    ensures Matches(env, p, Join(TypedAll(clauses, gaps), '|')) <==>
      NoneEmpty(clauses) && NoErrors(clauses) && exists i :: 0 <= i < |clauses| && AllFound(env, p, clauses[i])
  {
    var q := Join(TypedAll(clauses, gaps), '|');
    PlainSearchReadsAs(clauses, gaps);
    if NoneEmpty(clauses) {
      ReadSearchFinds(env, p, q, clauses);
    } else {
      MatchMeaning(env, p, q);
    }
  }

  /** And for words in quotes, whatever they contain. */
  lemma QuotedSearchFinds(env: Env, p: Profile, clauses: seq<seq<string>>)
    requires Lowering(env.lower) && WellFormed(clauses) && Canonical(env.lower, Render(clauses)) == Render(clauses)
    ensures Matches(env, p, Render(clauses)) <==>
      NoErrors(clauses) && exists i :: 0 <= i < |clauses| && AllFound(env, p, clauses[i])
  {
    RenderReadsBack(clauses);
    NothingIsMalformed();
    ReadSearchFinds(env, p, Render(clauses), clauses);
  }
}
