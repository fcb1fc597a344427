/** Matching and ranking profiles against a connection search (guis/guis.go,
    filterConnections and the functions below it). */
module SearchRank {
  import opened Outcomes
  import opened Text
  import opened Profiles
  import opened SearchLexer
  import opened SearchTerms

  /** The surroundings of a search: letter case, the clock, RFC 3339 times in
      nanoseconds, and the two localized texts of an endpoint. */
  datatype Env = Env(
    lower: char -> char,
    now: int,
    usedAt: string -> Option<int>,
    localEndpoint: string,
    newHost: string)

  const DAY: int := 24 * 3600 * 1000000000

  /** strings.Contains */
  predicate Contains(s: string, part: string) {
    exists i :: 0 <= i <= |s| && part <= s[i..]
  }

  function EffectivePort(p: Profile): int { if p.port == 0 then 22 else p.port }

  function TableEndpoint(env: Env, p: Profile): string {
    if p.kind == LOCAL then env.localEndpoint
    else
      var host := TrimSpace(p.host);
      (if host == "" then env.newHost else host) + [':'] + IntText(EffectivePort(p))
  }

  function NameKey(env: Env, p: Profile): string { Canonical(env.lower, p.name) }

  // ---------------------------------------------------------------------------
  // What a term means
  // ---------------------------------------------------------------------------

  /** strings.TrimSuffix(value, "d") */
  function DropD(value: string): string {
    if value != "" && value[|value| - 1] == 'd' then value[..|value| - 1] else value
  }

  function Days(value: string): int {
    if value == "today" then 1
    else if ValidDays(DropD(value)) then Atoi(DropD(value)).value
    else 0
  }

  predicate UsedMatches(env: Env, p: Profile, value: string) {
    var lastUsed := TrimSpace(p.lastUsed);
    if value == "true" then lastUsed != ""
    else if value == "false" then lastUsed == ""
    else
      match env.usedAt(lastUsed)
      case None => false
      case Some(at) => at <= env.now && Days(value) > 0 && at >= env.now - Days(value) * DAY
  }

  function FieldText(env: Env, p: Profile, field: Field): string {
    Canonical(env.lower,
      match field
      case Name => p.name
      case Group => p.group
      case Type => p.kind
      case Host => p.host
      case Endpoint => TableEndpoint(env, p)
      case Description => p.description
      case _ => "")
  }

  function Metadata(env: Env, p: Profile): seq<string> {
    [p.group, p.kind, p.host, TableEndpoint(env, p), p.description]
  }

  /** The profile has what the term names, its minus sign aside. */
  predicate Holds(env: Env, p: Profile, term: Term) {
    && term.value != ""
    && match term.field
       case Favorite => term.value == if p.favorite then "true" else "false"
       case Used => UsedMatches(env, p, term.value)
       case Port => p.kind == SSH && term.value == IntText(EffectivePort(p))
       case Type => term.value == FieldText(env, p, Type)
       case Text =>
         || Contains(NameKey(env, p), term.value)
         || exists v :: v in Metadata(env, p) && Contains(Lower(env.lower, v), term.value)
       case field => Contains(FieldText(env, p, field), term.value)
  }

  lemma NegativeIsNoPort(n: int)
    requires n < 0
    ensures !ValidPort(IntText(n))
  {
    DecimalRoundTrip(-n);
    assert IntText(n)[1..] == Decimal(-n);
  }

  /** An accepted port filter matches the port it denotes, but only when it is
      written as the port is printed: port:022 and port:+22 match nothing. */
  lemma PortMatchesIff(env: Env, p: Profile, value: string, exclude: bool)
    requires ValidPort(value) && p.kind == SSH
    ensures Holds(env, p, Term(Port, value, exclude, false)) <==>
      Atoi(value).value == EffectivePort(p) && value == Decimal(Atoi(value).value)
  {
    var port := EffectivePort(p);
    if port < 0 {
      NegativeIsNoPort(port);
    } else if value == Decimal(port) {
      DecimalRoundTrip(port);
      assert value[0] in value;
    }
  }

  lemma PaddedPort()
    ensures Atoi("022") == Some(22) && Decimal(22) == "22"
  {
    assert "022"[..2] == "02" && "02"[..1] == "0" && "0"[..0] == "";
    assert Value("0") == 0 && Value("02") == 2 && Value("022") == 22;
    assert Decimal(2) == "2" && Decimal(22) == Decimal(2) + ['2'];
  }

  /** port:022 is accepted and matches no profile. */
  lemma PaddedPortMatchesNothing(env: Env, p: Profile)
    ensures ValidPort("022") && !Holds(env, p, Term(Port, "022", false, false))
  {
    PaddedPort();
    if p.kind == SSH {
      PortMatchesIff(env, p, "022", false);
    }
  }

  // ---------------------------------------------------------------------------
  // The rank of a term
  // ---------------------------------------------------------------------------

  function NameRank(name: string, value: string): nat {
    if name == value then 0 else if value <= name then 1 else 2
  }

  /** The rank that connectionSearchTermRank gives to a term that holds. */
  function TermRank(env: Env, p: Profile, term: Term): nat {
    if term.field == Name then NameRank(FieldText(env, p, Name), term.value)
    else if term.field == Text && Contains(NameKey(env, p), term.value) then 2
    else 3
  }

  method ConnectionUsedMatches(env: Env, p: Profile, value: string) returns (matched: bool)
    ensures matched == UsedMatches(env, p, value)
  {
    var lastUsed := TrimSpace(p.lastUsed);
    if value == "true" {
      return lastUsed != "";
    }
    if value == "false" {
      return lastUsed == "";
    }
    var usedAt := env.usedAt(lastUsed);
    if usedAt.None? || usedAt.value > env.now {
      return false;
    }
    var days := 1;
    if value != "today" {
      if !ValidDays(DropD(value)) {
        return false;
      }
      days := Atoi(DropD(value)).value;
    }
    return usedAt.value >= env.now - days * DAY;
  }

  method ConnectionSearchTermRank(env: Env, p: Profile, term: Term) returns (rank: int, matched: bool)
    ensures matched == Holds(env, p, term)
    ensures matched ==> rank == TermRank(env, p, term)
  {
    if term.value == "" {
      return 0, false;
    }
    if term.field == Used {
      matched := ConnectionUsedMatches(env, p, term.value);
      return 3, matched;
    }
    if term.field == Favorite {
      if term.value == "true" {
        return 3, p.favorite;
      }
      if term.value == "false" {
        return 3, !p.favorite;
      }
      return 0, false;
    }
    if term.field == Port {
      if p.kind != SSH {
        return 0, false;
      }
      return 3, IntText(EffectivePort(p)) == term.value;
    }
    if term.field != Text {
      var value := FieldText(env, p, term.field);
      if term.field == Type {
        return 3, value == term.value;
      }
      if !Contains(value, term.value) {
        return 0, false;
      }
      if term.field == Name {
        return NameRank(value, term.value), true;
      }
      return 3, true;
    }
    rank, matched := FreeTextRank(env, NameKey(env, p), Metadata(env, p), term.value);
  }

  method FreeTextRank(env: Env, name: string, metadata: seq<string>, value: string) returns (rank: int, matched: bool)
    ensures matched <==> Contains(name, value) || exists v :: v in metadata && Contains(Lower(env.lower, v), value)
    ensures matched ==> rank == if Contains(name, value) then 2 else 3
  {
    rank := -1;
    if Contains(name, value) {
      rank := 2;
    }
    for i := 0 to |metadata|
      invariant Contains(name, value) ==> rank == 2
      invariant !Contains(name, value) ==> rank == -1 || rank == 3
      invariant !Contains(name, value) ==>
        (rank == 3 <==> exists k :: 0 <= k < i && Contains(Lower(env.lower, metadata[k]), value))
    {
      if Contains(Lower(env.lower, metadata[i]), value) && (rank < 0 || rank > 3) {
        rank := 3;
      }
    }
    return rank, rank >= 0;
  }

  // ---------------------------------------------------------------------------
  // Clauses and queries
  // ---------------------------------------------------------------------------

  /** A positive term must hold and an excluded one must not. */
  predicate Fits(env: Env, p: Profile, term: Term) { Holds(env, p, term) != term.exclude }

  predicate AllFit(env: Env, p: Profile, terms: seq<Term>) {
    forall i :: 0 <= i < |terms| ==> Fits(env, p, terms[i])
  }

  predicate ClauseMatches(env: Env, p: Profile, terms: seq<Term>) { terms != [] && AllFit(env, p, terms) }

  function RankSum(env: Env, p: Profile, terms: seq<Term>): nat {
    if terms == [] then 0
    else
      var last := terms[|terms| - 1];
      RankSum(env, p, terms[..|terms| - 1]) + if last.exclude then 0 else TermRank(env, p, last)
  }

  /** The shortcut for one plain word is tried against the name alone. */
  predicate ByName(env: Env, p: Profile, terms: seq<Term>) {
    && |terms| == 1 && terms[0].field == Text && !terms[0].exclude && terms[0].value != ""
    && Contains(NameKey(env, p), terms[0].value)
  }

  function ClauseRank(env: Env, p: Profile, terms: seq<Term>): nat {
    if ByName(env, p, terms) then NameRank(NameKey(env, p), terms[0].value) else RankSum(env, p, terms)
  }

  lemma PrefixIsContained(name: string, value: string)
    requires value <= name
    ensures Contains(name, value)
  {
    assert name[0..] == name;
  }

  method ConnectionSearchClauseRank(env: Env, p: Profile, terms: seq<Term>) returns (rank: int, matched: bool)
    ensures matched == ClauseMatches(env, p, terms)
    ensures matched ==> rank == ClauseRank(env, p, terms)
  {
    if |terms| == 0 {
      return 0, false;
    }
    var name := NameKey(env, p);
    var nameQuery := "";
    if |terms| == 1 && terms[0].field == Text && !terms[0].exclude {
      nameQuery := terms[0].value;
    }
    if nameQuery <= name { PrefixIsContained(name, nameQuery); }
    if nameQuery != "" && name == nameQuery {
      return 0, true;
    }
    if nameQuery != "" && nameQuery <= name {
      return 1, true;
    }
    if nameQuery != "" && Contains(name, nameQuery) {
      return 2, true;
    }
    rank, matched := SumRanks(env, p, terms);
  }

  method SumRanks(env: Env, p: Profile, terms: seq<Term>) returns (rank: int, matched: bool)
    ensures matched == AllFit(env, p, terms)
    ensures matched ==> rank == RankSum(env, p, terms)
  {
    rank := 0;
    for i := 0 to |terms|
      invariant rank == RankSum(env, p, terms[..i])
      invariant forall k :: 0 <= k < i ==> Fits(env, p, terms[k])
    {
      var term := terms[i];
      var termRank, holds := ConnectionSearchTermRank(env, p, term);
      assert holds == term.exclude <==> !Fits(env, p, term);
      assert terms[..i + 1][..i] == terms[..i];
      if term.exclude {
        if holds {
          return 0, false;
        }
        continue;
      }
      if !holds {
        return 0, false;
      }
      rank := rank + termRank;
    }
    assert terms[..|terms|] == terms;
    return rank, true;
  }

  /** The shortcut never changes whether a clause matches, and its rank is never
      worse than the sum it replaces. */
  lemma ShortcutKeepsMatch(env: Env, p: Profile, terms: seq<Term>)
    requires ByName(env, p, terms)
    ensures ClauseMatches(env, p, terms)
    ensures ClauseRank(env, p, terms) <= RankSum(env, p, terms) == 2
  {
    assert terms[..0] == [];
  }

  function Parser(lower: char -> char): (parse: string -> Term)
    ensures forall raw :: parse(raw) == ParseTerm(lower, raw)
  {
    raw => ParseTerm(lower, raw)
  }

  function ParseAll(parse: string -> Term, raw: seq<string>): (terms: seq<Term>)
    ensures |terms| == |raw| && forall i :: 0 <= i < |raw| ==> terms[i] == parse(raw[i])
  {
    seq(|raw|, i requires 0 <= i < |raw| => parse(raw[i]))
  }

  predicate NoneInvalid(terms: seq<Term>) {
    forall k :: 0 <= k < |terms| ==> !terms[k].invalid
  }

  function ParsedClauses(parse: string -> Term, raw: seq<seq<string>>): (clauses: seq<seq<Term>>)
    ensures |clauses| == |raw| && forall i :: 0 <= i < |raw| ==> clauses[i] == ParseAll(parse, raw[i])
  {
    seq(|raw|, i requires 0 <= i < |raw| => ParseAll(parse, raw[i]))
  }

  function Score(env: Env, p: Profile, terms: seq<Term>): Option<nat> {
    if ClauseMatches(env, p, terms) then Some(ClauseRank(env, p, terms)) else None
  }

  function Scores(env: Env, p: Profile, clauses: seq<seq<Term>>): (scores: seq<Option<nat>>)
    ensures |scores| == |clauses|
  {
    if clauses == [] then []
    else Scores(env, p, clauses[..|clauses| - 1]) + [Score(env, p, clauses[|clauses| - 1])]
  }

  lemma {:induction false} ScoreAt(env: Env, p: Profile, clauses: seq<seq<Term>>, i: nat)
    requires i < |clauses|
    ensures Scores(env, p, clauses)[i] == Score(env, p, clauses[i])
  {
    if i < |clauses| - 1 { ScoreAt(env, p, clauses[..|clauses| - 1], i); }
  }

  /** The scores of the alternatives of a query. */
  function QueryScores(env: Env, p: Profile, q: string): seq<Option<nat>> {
    match Lexed(q)
    case Malformed => []
    case Clauses(raw) => Scores(env, p, ParsedClauses(Parser(env.lower), raw))
  }

  predicate SomeScore(scores: seq<Option<nat>>) {
    exists i :: 0 <= i < |scores| && scores[i].Some?
  }

  predicate Matches(env: Env, p: Profile, query: string) {
    var q := Canonical(env.lower, query);
    q == "" || (ValidationError(env.lower, q).None? && SomeScore(QueryScores(env, p, q)))
  }

  /** rank is the least of the scores. */
  predicate Least(scores: seq<Option<nat>>, rank: int) {
    && (exists i :: 0 <= i < |scores| && scores[i] == Some(rank))
    && (forall i :: 0 <= i < |scores| && scores[i].Some? ==> rank <= scores[i].value)
  }

  /** A nonblank query matches exactly when the validator accepts it and it has
      an alternative whose positive terms all hold while no excluded one does. */
  lemma MatchMeaning(env: Env, p: Profile, query: string)
    requires Lowering(env.lower) && Canonical(env.lower, query) != ""
    ensures Matches(env, p, query) <==>
      && ValidationError(env.lower, query).None?
      && Lexed(Canonical(env.lower, query)).Clauses?
      && var clauses := ParsedClauses(Parser(env.lower), Lexed(Canonical(env.lower, query)).value);
         exists i :: 0 <= i < |clauses| && ClauseMatches(env, p, clauses[i])
  {
    var q := Canonical(env.lower, query);
    CanonicalTwice(env.lower, query);
    if Lexed(q).Clauses? {
      var clauses := ParsedClauses(Parser(env.lower), Lexed(q).value);
      forall i | 0 <= i < |clauses|
        ensures Scores(env, p, clauses)[i].Some? <==> ClauseMatches(env, p, clauses[i])
      {
        ScoreAt(env, p, clauses, i);
      }
    }
  }

  /** Letter case and outer spaces of a query do not matter. */
  lemma CaseDoesNotMatter(env: Env, p: Profile, query: string, other: string)
    requires Lowering(env.lower) && Lower(env.lower, query) == Lower(env.lower, other)
    ensures Matches(env, p, query) == Matches(env, p, other)
    ensures QueryScores(env, p, Canonical(env.lower, query)) == QueryScores(env, p, Canonical(env.lower, other))
  {
    LowerTrim(env.lower, query);
    LowerTrim(env.lower, other);
  }

  lemma {:induction false} LowerTrimLeft(lower: char -> char, s: string)
    requires Lowering(lower)
    ensures Lower(lower, TrimLeft(s)) == TrimLeft(Lower(lower, s))
  {
    if s != "" && IsSpace(s[0]) {
      LowerTrimLeft(lower, s[1..]);
      assert Lower(lower, s)[1..] == Lower(lower, s[1..]);
    }
  }

  lemma {:induction false} LowerTrimRight(lower: char -> char, s: string)
    requires Lowering(lower)
    ensures Lower(lower, TrimRight(s)) == TrimRight(Lower(lower, s))
  {
    if s != "" && IsSpace(s[|s| - 1]) {
      var n := |s| - 1;
      LowerTrimRight(lower, s[..n]);
      assert Lower(lower, s)[..n] == Lower(lower, s[..n]);
    }
  }

  lemma LowerTrim(lower: char -> char, s: string)
    requires Lowering(lower)
    ensures Canonical(lower, s) == TrimSpace(Lower(lower, s))
  {
    LowerTrimLeft(lower, s);
    LowerTrimRight(lower, TrimLeft(s));
  }

  lemma CanonicalTwice(lower: char -> char, query: string)
    requires Lowering(lower)
    ensures Canonical(lower, Canonical(lower, query)) == Canonical(lower, query)
  {
    var q := Canonical(lower, query);
    TrimSpaceShape(query);
    TrimSpaceShape(q);
  }

  lemma NoTermIsInvalid(lower: char -> char, q: string)
    requires Lowering(lower) && Canonical(lower, q) == q != "" && ValidationError(lower, q).None?
    ensures Lexed(q).Clauses?
    ensures forall i :: 0 <= i < |Lexed(q).value| ==> NoneInvalid(ParseAll(Parser(lower), Lexed(q).value[i]))
  {
    var clauses := Lexed(q).value;
    forall i, k | 0 <= i < |clauses| && 0 <= k < |clauses[i]| ensures !ParseAll(Parser(lower), clauses[i])[k].invalid {
      AcceptedHasNoInvalidTerm(lower, q, clauses[i], clauses[i][k]);
    }
  }

  method ConnectionSearchRankAt(env: Env, p: Profile, query: string) returns (rank: int, matched: bool)
    requires Lowering(env.lower)
    ensures matched == Matches(env, p, query)
    ensures matched && Canonical(env.lower, query) != "" ==>
      Least(QueryScores(env, p, Canonical(env.lower, query)), rank)
    ensures !matched || Canonical(env.lower, query) == "" ==> rank == 0
  {
    var q := Canonical(env.lower, query);
    if q == "" {
      return 0, true;
    }
    var error := ConnectionSearchValidationError(env.lower, q);
    if error.Some? {
      return 0, false;
    }
    var rawClauses, valid := ConnectionSearchClauses(q);
    if !valid {
      return 0, false;
    }
    var clauses, ok := ParseClauses(Parser(env.lower), rawClauses);
    CanonicalTwice(env.lower, query);
    NoTermIsInvalid(env.lower, q);
    if !ok {
      assert false;
    }
    rank, matched := BestRank(env, p, clauses);
  }

  /** The parsing loops give up on an invalid term. */
  method ParseClauses(parse: string -> Term, rawClauses: seq<seq<string>>) returns (clauses: seq<seq<Term>>, ok: bool)
    ensures ok <==> forall i :: 0 <= i < |rawClauses| ==> NoneInvalid(ParseAll(parse, rawClauses[i]))
    ensures ok ==> clauses == ParsedClauses(parse, rawClauses)
  {
    clauses := [];
    for i := 0 to |rawClauses|
      invariant clauses == ParsedClauses(parse, rawClauses)[..i]
      invariant forall j :: 0 <= j < i ==> NoneInvalid(ParseAll(parse, rawClauses[j]))
    {
      var terms;
      terms, ok := ParseClause(parse, rawClauses[i]);
      if !ok {
        return [], false;
      }
      clauses := clauses + [terms];
    }
    return clauses, true;
  }

  method ParseClause(parse: string -> Term, raw: seq<string>) returns (terms: seq<Term>, ok: bool)
    ensures ok == NoneInvalid(ParseAll(parse, raw))
    ensures ok ==> terms == ParseAll(parse, raw)
  {
    terms := [];
    ghost var all := ParseAll(parse, raw);
    for k := 0 to |raw|
      invariant terms == all[..k]
      invariant forall j :: 0 <= j < k ==> !all[j].invalid
    {
      var term := parse(raw[k]);
      assert term == all[k];
      if term.invalid {
        return [], false;
      }
      terms := terms + [term];
    }
    return terms, true;
  }

  method BestRank(env: Env, p: Profile, clauses: seq<seq<Term>>) returns (bestRank: int, matched: bool)
    ensures matched == SomeScore(Scores(env, p, clauses))
    ensures if matched then Least(Scores(env, p, clauses), bestRank) else bestRank == 0
  {
    bestRank, matched := 0, false;
    ghost var scores: seq<Option<nat>> := [];
    for i := 0 to |clauses|
      invariant scores == Scores(env, p, clauses[..i])
      invariant matched == SomeScore(scores)
      invariant if matched then Least(scores, bestRank) else bestRank == 0
    {
      var rank, ok := ConnectionSearchClauseRank(env, p, clauses[i]);
      var score := if ok then Some(rank) else None;
      assert clauses[..i + 1][..i] == clauses[..i];
      LeastSnoc(scores, score, bestRank);
      scores := scores + [score];
      if ok && (!matched || rank < bestRank) {
        bestRank := rank;
        matched := true;
      }
    }
    assert clauses[..|clauses|] == clauses;
  }

  lemma LeastSnoc(scores: seq<Option<nat>>, score: Option<nat>, best: int)
    requires if SomeScore(scores) then Least(scores, best) else best == 0
    ensures var more := scores + [score];
      if score.Some? && (!SomeScore(scores) || score.value < best) then SomeScore(more) && Least(more, score.value)
      else SomeScore(more) == SomeScore(scores) && (SomeScore(scores) ==> Least(more, best))
  {
    var more := scores + [score];
    assert more[|scores|] == score;
    assert forall i :: 0 <= i < |scores| ==> more[i] == scores[i];
  }
}
