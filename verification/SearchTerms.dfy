/** One search term: its parser and the validator in front of it (guis/guis.go,
    parseConnectionSearchTerm and connectionSearchValidationError). */
module SearchTerms {
  import opened Outcomes
  import opened Text
  import opened SearchLexer

  /** What is used of unicode.ToLower. */
  ghost predicate Lowering(lower: char -> char) {
    forall c :: lower(lower(c)) == lower(c) && IsSpace(lower(c)) == IsSpace(c)
  }

  /** The query that every search function works on. */
  function Canonical(lower: char -> char, query: string): string {
    Lower(lower, TrimSpace(query))
  }

  /** strings.Cut at the first colon. */
  function Cut(s: string): (r: Option<(string, string)>)
    ensures r.None? <==> ':' !in s
    ensures r.Some? ==> s == r.value.0 + [':'] + r.value.1 && ':' !in r.value.0
  {
    if s == "" then None
    else if s[0] == ':' then Some(("", s[1..]))
    else
      match Cut(s[1..])
      case None => None
      case Some((field, value)) => Some(([s[0]] + field, value))
  }

  const MAX_INT := 9223372036854775807

  predicate Digits(s: string) { s != "" && forall c :: c in s ==> '0' <= c <= '9' }

  /** strconv.Atoi on a 64-bit machine. */
  function Atoi(s: string): Option<int> {
    var signed := s != "" && s[0] in {'+', '-'};
    var digits := if signed then s[1..] else s;
    if !Digits(digits) then None
    else
      var n := if signed && s[0] == '-' then -Value(digits) else Value(digits);
      if -MAX_INT - 1 <= n <= MAX_INT then Some(n) else None
  }

  predicate ValidPort(value: string) {
    Atoi(value).Some? && 1 <= Atoi(value).value <= 65535
  }

  predicate ValidUsed(value: string) {
    || value in {"true", "false", "today"}
    || (value != "" && value[|value| - 1] == 'd' && ValidDays(value[..|value| - 1]))
  }

  predicate ValidDays(days: string) {
    Atoi(days).Some? && 1 <= Atoi(days).value <= 3650
  }

  /** connectionSearchFieldIdentifier */
  predicate Identifier(s: string) {
    s != "" && forall c :: c in s ==> 'a' <= c <= 'z' || c == '_'
  }

  /** The searchable fields; Text is a term without a field. */
  datatype Field = Text | Name | Group | Type | Host | Endpoint | Port | Description | Favorite | Used

  function FieldOf(name: string): Option<Field> {
    if name == "name" then Some(Name)
    else if name == "group" then Some(Group)
    else if name == "type" then Some(Type)
    else if name == "host" then Some(Host)
    else if name == "endpoint" then Some(Endpoint)
    else if name == "port" then Some(Port)
    else if name == "description" then Some(Description)
    else if name == "favorite" then Some(Favorite)
    else if name == "used" then Some(Used)
    else None
  }

  // ---------------------------------------------------------------------------
  // The parser
  // ---------------------------------------------------------------------------

  datatype Term = Term(field: Field, value: string, exclude: bool, invalid: bool)

  predicate Excludes(raw: string) { raw != "" && raw[0] == '-' }

  /** A term without its minus sign. */
  function Body(raw: string): string {
    if Excludes(raw) then TrimSpace(raw[1..]) else raw
  }

  predicate InvalidValue(field: Field, value: string) {
    if field.Port? then !ValidPort(value)
    else if field.Used? then !ValidUsed(value)
    else value == "" || (field.Favorite? && value != "true" && value != "false")
  }

  function ParseBody(body: string, exclude: bool): Term {
    match Cut(body)
    case None => Term(Text, body, exclude, false)
    case Some((name, value)) =>
      match FieldOf(name)
      case Some(field) => Term(field, TrimSpace(value), exclude, InvalidValue(field, TrimSpace(value)))
      case None => Term(Text, body, exclude, Identifier(name))
  }

  function ParseTerm(lower: char -> char, text: string): Term {
    var raw := Canonical(lower, text);
    var exclude, body := Excludes(raw), Body(raw);
    if exclude && body == "" then Term(Text, "", true, true) else ParseBody(body, exclude)
  }

  // ---------------------------------------------------------------------------
  // The validator
  // ---------------------------------------------------------------------------

  datatype SearchError =
    | PipeInFront | PipeBehind | PipeAround
    | EmptyExclusion
    | BadFavorite | BadUsed | BadPort
    | MissingValue(field: Field)
    | UnsupportedField(name: string)

  function FieldError(name: string, value: string): Option<SearchError> {
    match FieldOf(name)
    case Some(Favorite) => if value != "true" && value != "false" then Some(BadFavorite) else None
    case Some(Used) => if !ValidUsed(value) then Some(BadUsed) else None
    case Some(Port) => if !ValidPort(value) then Some(BadPort) else None
    case Some(field) => if value == "" then Some(MissingValue(field)) else None
    case None => if Identifier(name) then Some(UnsupportedField(name)) else None
  }

  /** Unlike the parser, the validator trims the field name. */
  function TermError(raw: string): Option<SearchError> {
    var term := TrimSpace(raw);
    if Excludes(term) && Body(term) == "" then Some(EmptyExclusion)
    else
      match Cut(Body(term))
      case None => None
      case Some((field, value)) => FieldError(TrimSpace(field), TrimSpace(value))
  }

  function FirstError(check: string -> Option<SearchError>, terms: seq<string>): Option<SearchError> {
    if terms == [] then None
    else
      var before := FirstError(check, terms[..|terms| - 1]);
      if before.Some? then before else check(terms[|terms| - 1])
  }

  function FirstClauseError(check: string -> Option<SearchError>, clauses: seq<seq<string>>): Option<SearchError> {
    if clauses == [] then None
    else
      var before := FirstClauseError(check, clauses[..|clauses| - 1]);
      if before.Some? then before else FirstError(check, clauses[|clauses| - 1])
  }

  function PipeError(query: string): SearchError
    requires query != ""
  {
    if query[0] == '|' then PipeInFront else if query[|query| - 1] == '|' then PipeBehind else PipeAround
  }

  const CHECK: string -> Option<SearchError> := raw => TermError(raw)

  function ValidationError(lower: char -> char, query: string): Option<SearchError> {
    var q := Canonical(lower, query);
    if q == "" then None
    else
      match Lexed(q)
      case Malformed => Some(PipeError(q))
      case Clauses(clauses) => FirstClauseError(CHECK, clauses)
  }

  method ConnectionSearchValidationError(lower: char -> char, query: string) returns (error: Option<SearchError>)
    ensures error == ValidationError(lower, query)
  {
    var q := Canonical(lower, query);
    if q == "" {
      return None;
    }
    var clauses, valid := ConnectionSearchClauses(q);
    if !valid {
      return Some(PipeError(q));
    }
    error := CheckClauses(CHECK, clauses);
  }

  /** The two loops of the validator. */
  method CheckClauses(check: string -> Option<SearchError>, clauses: seq<seq<string>>)
    returns (error: Option<SearchError>)
    ensures error == FirstClauseError(check, clauses)
  {
    for i := 0 to |clauses|
      invariant FirstClauseError(check, clauses[..i]).None?
    {
      var clause := clauses[i];
      assert clauses[..i + 1][..i] == clauses[..i];
      for k := 0 to |clause|
        invariant FirstError(check, clause[..k]).None?
      {
        assert clause[..k + 1][..k] == clause[..k];
        var found := check(clause[k]);
        if found.Some? {
          ErrorStays(check, clause, k + 1);
          ClauseErrorStays(check, clauses, i + 1);
          return found;
        }
      }
      assert clause[..|clause|] == clause;
    }
    assert clauses[..|clauses|] == clauses;
    return None;
  }

  lemma {:induction false} ErrorStays(check: string -> Option<SearchError>, terms: seq<string>, n: nat)
    requires n <= |terms| && FirstError(check, terms[..n]).Some?
    ensures FirstError(check, terms) == FirstError(check, terms[..n])
    decreases |terms|
  {
    if n == |terms| {
      assert terms[..n] == terms;
    } else {
      assert terms[..|terms| - 1][..n] == terms[..n];
      ErrorStays(check, terms[..|terms| - 1], n);
    }
  }

  lemma {:induction false} ClauseErrorStays(check: string -> Option<SearchError>, clauses: seq<seq<string>>, n: nat)
    requires n <= |clauses| && FirstClauseError(check, clauses[..n]).Some?
    ensures FirstClauseError(check, clauses) == FirstClauseError(check, clauses[..n])
    decreases |clauses|
  {
    if n == |clauses| {
      assert clauses[..n] == clauses;
    } else {
      assert clauses[..|clauses| - 1][..n] == clauses[..n];
      ClauseErrorStays(check, clauses[..|clauses| - 1], n);
    }
  }

  // ---------------------------------------------------------------------------
  // Parser and validator compared on one term
  // ---------------------------------------------------------------------------

  /** Spaces around the field name: only possible inside quotes. */
  predicate SpacedField(raw: string) {
    match Cut(Body(raw)) case None => false case Some((field, _)) => TrimSpace(field) != field
  }

  /** A term as the lexer cuts it from a canonical query. */
  predicate CanonicalTerm(lower: char -> char, raw: string) {
    WellFormedTerm(raw) && Lower(lower, raw) == raw
  }

  lemma SpacedIsNoIdentifier(name: string)
    requires TrimSpace(name) != name
    ensures FieldOf(name).None? && !Identifier(name)
  {
    if Trimmed(name) { TrimSpaceShape(name); }
    assert name[0] in name && name[|name| - 1] in name;
    FieldNamesAreIdentifiers(name);
  }

  lemma FieldNamesAreIdentifiers(name: string)
    ensures FieldOf(name).Some? ==> Identifier(name)
  {
  }

  /** What the parser makes of a field name and its value. */
  predicate FieldInvalid(name: string, value: string) {
    match FieldOf(name) case Some(field) => InvalidValue(field, value) case None => Identifier(name)
  }

  lemma FieldErrorAgainstParser(field: string, value: string)
    ensures FieldError(field, value).Some? <==> FieldInvalid(field, value)
  {
  }

  lemma BodyIsTrimmed(raw: string)
    requires WellFormedTerm(raw)
    ensures TrimSpace(raw) == raw && Trimmed(Body(raw)) && (Body(raw) != "" || Excludes(raw))
  {
    TrimSpaceShape(raw);
    if Excludes(raw) { TrimSpaceShape(raw[1..]); }
  }

  lemma ParseCanonical(lower: char -> char, raw: string)
    requires CanonicalTerm(lower, raw)
    ensures ParseTerm(lower, raw) ==
      if Excludes(raw) && Body(raw) == "" then Term(Text, "", true, true) else ParseBody(Body(raw), Excludes(raw))
  {
    BodyIsTrimmed(raw);
  }

  lemma ParseField(lower: char -> char, raw: string)
    requires CanonicalTerm(lower, raw) && Cut(Body(raw)).Some?
    ensures var cut := Cut(Body(raw)).value;
      ParseTerm(lower, raw).invalid <==> FieldInvalid(cut.0, TrimSpace(cut.1))
  {
    ParseCanonical(lower, raw);
  }

  lemma ValidValueIsNotEmpty(field: Field)
    ensures InvalidValue(field, "")
  {
  }

  lemma ParsedBodyValue(body: string, exclude: bool)
    requires body != "" && !ParseBody(body, exclude).invalid
    ensures ParseBody(body, exclude).value != ""
  {
    match Cut(body)
    case None =>
    case Some((name, value)) =>
      if FieldOf(name).Some? { ValidValueIsNotEmpty(FieldOf(name).value); }
  }

  /** The parser does not look behind spaces around a field name: it takes the
      term as free text. */
  lemma SpacedFieldIsFreeText(lower: char -> char, raw: string)
    requires CanonicalTerm(lower, raw) && SpacedField(raw)
    ensures ParseTerm(lower, raw) == Term(Text, Body(raw), Excludes(raw), false)
  {
    ParseCanonical(lower, raw);
    SpacedIsNoIdentifier(Cut(Body(raw)).value.0);
  }

  /** The term with the spaces around its field name removed. */
  function Tight(raw: string): string {
    match Cut(Body(raw))
    case None => raw
    case Some((field, value)) =>
      (if Excludes(raw) then ['-'] else []) + (TrimSpace(field) + [':'] + value)
  }

  lemma {:induction false} CutJoined(field: string, value: string)
    requires ':' !in field
    ensures Cut(field + [':'] + value) == Some((field, value))
  {
    var s := field + [':'] + value;
    if field == "" {
      assert s[1..] == value;
    } else {
      assert s[1..] == field[1..] + [':'] + value;
      CutJoined(field[1..], value);
      assert [field[0]] + field[1..] == field;
    }
  }

  lemma TrimmedFieldStarts(field: string)
    requires field != "" ==> !IsSpace(field[0])
    ensures TrimSpace(field) <= field && (field != "" ==> TrimSpace(field) != "")
  {
    TrimRightShape(field);
    assert TrimLeft(field) == field;
  }

  lemma TightTrims(field: string, value: string)
    requires ':' !in field && Trimmed(field + [':'] + value)
    ensures TrimSpace(TrimSpace(field) + [':'] + value) == TrimSpace(field) + [':'] + value
    ensures field != "" ==> TrimSpace(field) != "" && TrimSpace(field)[0] == field[0]
  {
    var body, tight := field + [':'] + value, TrimSpace(field) + [':'] + value;
    assert field != "" ==> body[0] == field[0];
    TrimmedFieldStarts(field);
    assert tight[|tight| - 1] == body[|body| - 1];
    TrimSpaceShape(tight);
  }

  lemma BodyOfSigned(body: string)
    requires body != "" && TrimSpace(body) == body
    ensures WellFormedTerm(body) && WellFormedTerm(['-'] + body) && Body(['-'] + body) == body
  {
    TrimSpaceShape(body);
    assert (['-'] + body)[1..] == body;
  }

  lemma TightShape(raw: string)
    requires WellFormedTerm(raw) && Cut(Body(raw)).Some?
    ensures var cut := Cut(Body(raw)).value; var tight := Tight(raw);
      WellFormedTerm(tight) && Body(tight) == TrimSpace(cut.0) + [':'] + cut.1
  {
    var (field, value) := Cut(Body(raw)).value;
    var body := TrimSpace(field) + [':'] + value;
    BodyIsTrimmed(raw);
    TightTrims(field, value);
    BodyOfSigned(body);
    if !Excludes(raw) {
      assert body[0] == raw[0];
      assert Tight(raw) == body;
    }
  }

  lemma TightIsLower(lower: char -> char, raw: string)
    requires Lower(lower, raw) == raw
    ensures Lower(lower, Tight(raw)) == Tight(raw)
  {
    forall c | c in Tight(raw) ensures c in raw {
      if Cut(Body(raw)).Some? {
        var (field, value) := Cut(Body(raw)).value;
        TrimSpaceShape(field);
        if Excludes(raw) { TrimSpaceShape(raw[1..]); }
        assert Body(raw) == field + [':'] + value;
        assert c != '-' || !Excludes(raw) ==> c in Body(raw);
      }
    }
    forall i | 0 <= i < |Tight(raw)| ensures lower(Tight(raw)[i]) == Tight(raw)[i] {
      assert Tight(raw)[i] in Tight(raw);
    }
  }

  lemma TightParses(lower: char -> char, raw: string)
    requires CanonicalTerm(lower, raw) && Cut(Body(raw)).Some?
    ensures var cut := Cut(Body(raw)).value;
      ParseTerm(lower, Tight(raw)).invalid <==> FieldInvalid(TrimSpace(cut.0), TrimSpace(cut.1))
  {
    var (field, value) := Cut(Body(raw)).value;
    TightShape(raw);
    TightIsLower(lower, raw);
    TrimSpaceShape(field);
    CutJoined(TrimSpace(field), value);
    ParseField(lower, Tight(raw));
  }

  lemma TermErrorOfField(raw: string)
    requires WellFormedTerm(raw) && Cut(Body(raw)).Some?
    ensures var cut := Cut(Body(raw)).value;
      TermError(raw).Some? <==> FieldInvalid(TrimSpace(cut.0), TrimSpace(cut.1))
  {
    TrimSpaceShape(raw);
    var (field, value) := Cut(Body(raw)).value;
    FieldErrorAgainstParser(TrimSpace(field), TrimSpace(value));
  }

  /** The validator accepts a term exactly when the parser takes it with the
      spaces around its field name removed. */
  lemma ValidatorIff(lower: char -> char, raw: string)
    requires CanonicalTerm(lower, raw)
    ensures TermError(raw).None? <==> !ParseTerm(lower, Tight(raw)).invalid
  {
    if Cut(Body(raw)).Some? {
      TightParses(lower, raw);
      TermErrorOfField(raw);
    } else {
      TrimSpaceShape(raw);
      ParseCanonical(lower, raw);
    }
  }

  lemma AcceptedTermIsValid(lower: char -> char, raw: string)
    requires CanonicalTerm(lower, raw) && TermError(raw).None?
    ensures !ParseTerm(lower, raw).invalid && ParseTerm(lower, raw).value != ""
  {
    if SpacedField(raw) {
      SpacedFieldIsFreeText(lower, raw);
    } else if Cut(Body(raw)).Some? {
      TermErrorOfField(raw);
      ParseField(lower, raw);
    } else {
      TrimSpaceShape(raw);
      ParseCanonical(lower, raw);
    }
    BodyIsTrimmed(raw);
    ParseCanonical(lower, raw);
    ParsedBodyValue(Body(raw), Excludes(raw));
  }

  /** The parser takes a term that the validator rejects exactly when spaces
      surround its field name and the name without them makes it invalid. */
  lemma ParserTakesMoreIff(lower: char -> char, raw: string)
    requires CanonicalTerm(lower, raw)
    ensures (TermError(raw).Some? && !ParseTerm(lower, raw).invalid) <==>
      (SpacedField(raw) && ParseTerm(lower, Tight(raw)).invalid)
  {
    ValidatorIff(lower, raw);
    if SpacedField(raw) {
      SpacedFieldIsFreeText(lower, raw);
    } else if Cut(Body(raw)).Some? {
      TermErrorOfField(raw);
      ParseField(lower, raw);
    } else {
      TrimSpaceShape(raw);
      ParseCanonical(lower, raw);
    }
  }

  lemma NameIsSpaced()
    ensures TrimSpace("name ") == "name"
  {
    TrimRightSpace("name", ' ');
    TrimSpaceShape("name");
    assert "name" + [' '] == "name ";
  }

  // ---------------------------------------------------------------------------
  // Parser and validator compared on whole queries
  // ---------------------------------------------------------------------------

  /** t is spelled with characters of s. */
  predicate SpelledFrom(t: string, s: string) {
    forall c :: c in t ==> c in s
  }

  predicate AllSpelledFrom(terms: seq<string>, s: string) {
    forall t :: t in terms ==> SpelledFrom(t, s)
  }

  lemma FinishSpelled(st: TermState, s: string)
    requires SpelledFrom(st.current, s) && AllSpelledFrom(st.terms, s) && (st.escaped ==> '\\' in s)
    ensures AllSpelledFrom(Finish(st), s) && AllSpelledFrom(WithTerm(st.terms, st.current), s)
  {
    TrimSpaceShape(st.current);
    TrimSpaceShape(st.current + ['\\']);
  }

  predicate LexerSpelled(l: Lexer, s: string) {
    && (l.term.escaped ==> '\\' in s)
    && SpelledFrom(l.term.current, s) && AllSpelledFrom(l.term.terms, s)
    && forall terms :: terms in l.clauses ==> AllSpelledFrom(terms, s)
  }

  lemma SpelledFromMore(l: Lexer, s: string, c: char)
    requires LexerSpelled(l, s)
    ensures LexerSpelled(l, s + [c])
  {
    forall terms | AllSpelledFrom(terms, s) ensures AllSpelledFrom(terms, s + [c]) {
      assert forall t :: t in terms ==> SpelledFrom(t, s);
    }
  }

  lemma LexStepSpells(l: Lexer, c: char, s: string)
    requires LexerSpelled(l, s) && c in s
    ensures LexerSpelled(LexStep(l, c), s)
  {
    FinishSpelled(l.term, s);
  }

  lemma {:induction false} LexerSpells(s: string)
    ensures LexerSpelled(LexRun(LEXER, s), s)
  {
    if s != "" {
      var n := |s| - 1;
      LexerSpells(s[..n]);
      var l := LexRun(LEXER, s[..n]);
      SpelledFromMore(l, s[..n], s[n]);
      assert s == s[..n] + [s[n]];
      LexStepSpells(l, s[n], s);
    }
  }

  lemma TermsAreFromQuery(query: string, terms: seq<string>, t: string)
    requires Lexed(query).Clauses? && terms in Lexed(query).value && t in terms
    ensures SpelledFrom(t, query)
  {
    LexerSpells(query);
    FinishSpelled(LexRun(LEXER, query).term, query);
    assert AllSpelledFrom(terms, query);
  }

  lemma LowerIsFixed(lower: char -> char, s: string, t: string)
    requires Lowering(lower) && SpelledFrom(t, Lower(lower, s))
    ensures Lower(lower, t) == t
  {
    forall i | 0 <= i < |t| ensures lower(t[i]) == t[i] {
      assert t[i] in t;
    }
  }

  /** Every term cut from a canonical query is canonical. */
  lemma CutTermsAreCanonical(lower: char -> char, query: string, terms: seq<string>, t: string)
    requires Lowering(lower) && Lexed(Canonical(lower, query)).Clauses?
    requires terms in Lexed(Canonical(lower, query)).value && t in terms
    ensures CanonicalTerm(lower, t)
  {
    var q := Canonical(lower, query);
    ReadIsWellFormed(q);
    TermsAreFromQuery(q, terms, t);
    LowerIsFixed(lower, TrimSpace(query), t);
  }

  lemma {:induction false} FirstErrorFinds(check: string -> Option<SearchError>, terms: seq<string>)
    ensures FirstError(check, terms).None? <==> forall t :: t in terms ==> check(t).None?
  {
    if terms != [] {
      var n := |terms| - 1;
      FirstErrorFinds(check, terms[..n]);
      assert terms == terms[..n] + [terms[n]];
    }
  }

  lemma {:induction false} FirstClauseErrorFinds(check: string -> Option<SearchError>, clauses: seq<seq<string>>)
    ensures FirstClauseError(check, clauses).None? <==>
      forall terms, t :: terms in clauses && t in terms ==> check(t).None?
  {
    if clauses != [] {
      var n := |clauses| - 1;
      FirstClauseErrorFinds(check, clauses[..n]);
      FirstErrorFinds(check, clauses[n]);
      assert clauses == clauses[..n] + [clauses[n]];
    }
  }

  /** The validator accepts a query exactly when it is blank, or the lexer reads
      it and the parser takes every term with spaces around field names removed. */
  lemma AcceptedIff(lower: char -> char, query: string)
    requires Lowering(lower)
    ensures var q := Canonical(lower, query);
      ValidationError(lower, query).None? <==>
        (q == "" || (Lexed(q).Clauses? && forall terms, t :: terms in Lexed(q).value && t in terms ==>
          !ParseTerm(lower, Tight(t)).invalid))
  {
    var q := Canonical(lower, query);
    if Lexed(q).Clauses? {
      FirstClauseErrorFinds(CHECK, Lexed(q).value);
      forall terms, t | terms in Lexed(q).value && t in terms
        ensures TermError(t).None? <==> !ParseTerm(lower, Tight(t)).invalid
      {
        CutTermsAreCanonical(lower, query, terms, t);
        ValidatorIff(lower, t);
      }
    }
  }

  /** No term of an accepted query is invalid. */
  lemma AcceptedHasNoInvalidTerm(lower: char -> char, query: string, terms: seq<string>, t: string)
    requires Lowering(lower) && ValidationError(lower, query).None? && Canonical(lower, query) != ""
    requires Lexed(Canonical(lower, query)).Clauses? ==> terms in Lexed(Canonical(lower, query)).value && t in terms
    ensures Lexed(Canonical(lower, query)).Clauses?
    ensures !ParseTerm(lower, t).invalid && ParseTerm(lower, t).value != ""
  {
    FirstClauseErrorFinds(CHECK, Lexed(Canonical(lower, query)).value);
    CutTermsAreCanonical(lower, query, terms, t);
    AcceptedTermIsValid(lower, t);
  }

  // ---------------------------------------------------------------------------
  // A query that validator and parser see differently
  // ---------------------------------------------------------------------------

  /** name, a space and a colon. */
  const SPACED: string := "name " + [':'] + ""

  lemma SpacedIsRejected()
    ensures WellFormedTerm(SPACED) && SpacedField(SPACED) && TermError(SPACED) == Some(MissingValue(Name))
  {
    BodyIsTrimmed(SPACED);
    CutJoined("name ", "");
    NameIsSpaced();
  }

  /** What is typed: the term in quotes. */
  const TYPED := Render([[SPACED]])

  lemma TypedInQuotes()
    ensures TYPED == "\"name :\""
  {
    EscapePlain(SPACED);
    assert [[SPACED]][..0] == [] && [SPACED][..0] == [];
    assert Render([[SPACED]]) == "" + RenderClause([SPACED]);
    assert RenderClause([SPACED]) == "" + RenderTerm(SPACED);
  }

  lemma {:induction false} EscapePlain(t: string)
    requires forall i :: 0 <= i < |t| ==> t[i] != '"' && t[i] != '\\'
    ensures EscapeText(t) == t
  {
    if t != "" { EscapePlain(t[..|t| - 1]); }
  }

  /** The quoted query "name :" lexes to one term, which the parser takes as free
      text and the validator rejects. */
  lemma ParserTakesMore(lower: char -> char)
    requires Lowering(lower) && Lower(lower, TYPED) == TYPED
    ensures Canonical(lower, TYPED) == TYPED && Lexed(TYPED) == Clauses([[SPACED]])
    ensures ParseTerm(lower, SPACED) == Term(Text, SPACED, false, false)
    ensures ValidationError(lower, TYPED) == Some(MissingValue(Name))
  {
    hide ParseTerm, TermError, Lexed, LexRun, TrimSpace, Render, Lower;
    SpacedIsRejected();
    RenderReadsBack([[SPACED]]);
    TypedInQuotes();
    TrimSpaceShape(TYPED);
    CutTermsAreCanonical(lower, TYPED, [SPACED], SPACED);
    SpacedFieldIsFreeText(lower, SPACED);
    FirstErrorOfOne(CHECK, SPACED);
  }

  lemma FirstErrorOfOne(check: string -> Option<SearchError>, t: string)
    ensures FirstClauseError(check, [[t]]) == check(t)
  {
    var terms: seq<string>, clauses: seq<seq<string>> := [t], [[t]];
    assert terms[..0] == [] && FirstError(check, terms[..0]) == None;
    assert clauses[..0] == [] && FirstClauseError(check, clauses[..0]) == None;
    assert FirstClauseError(check, clauses) == FirstError(check, terms) == check(t);
  }
}
