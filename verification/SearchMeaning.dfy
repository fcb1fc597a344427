/** What the terms of a connection search mean and how they are ranked
    (guis/guis.go), said of the text that is typed. */
module SearchMeaning {
  import opened Outcomes
  import opened Text
  import opened Profiles
  import opened SearchLexer
  import opened SearchTerms
  import opened SearchRank

  /** What is used of unicode.ToLower. */
  ghost predicate KeepsAscii(lower: char -> char) {
    forall c :: c < '\U{80}' && !('A' <= c <= 'Z') ==> lower(c) == c
  }

  /** A value as it can be typed: not empty, trimmed and in lower case. */
  predicate Searchable(lower: char -> char, v: string) { v != "" && Trimmed(v) && Lower(lower, v) == v }

  /** The profile fits a search for this one term. */
  predicate Found(env: Env, p: Profile, text: string) {
    var t := ParseTerm(env.lower, text);
    !t.invalid && Fits(env, p, t)
  }

  /** A field with a value, as it is typed. */
  function With(name: string, v: string): string { name + ":" + v }

  // ---------------------------------------------------------------------------
  // Reading a term
  // ---------------------------------------------------------------------------

  /** A field and what follows its colon, up to a character that is no space. */
  lemma ParsesRaw(lower: char -> char, name: string, field: Field, w: string)
    requires KeepsAscii(lower) && FieldOf(name) == Some(field)
    requires w != "" && !IsSpace(w[|w| - 1]) && Lower(lower, w) == w
    ensures ParseTerm(lower, With(name, w)) ==
      Term(field, TrimSpace(w), false, InvalidValue(field, TrimSpace(w)))
  {
    var raw := With(name, w);
    FieldNamesAreIdentifiers(name);
    assert name[0] in name;
    assert raw[0] == name[0] && raw[|raw| - 1] == w[|w| - 1];
    LowerJoined(lower, name, w);
    TrimSpaceShape(raw);
    assert ':' !in name;
    CutJoined(name, w);
    assert raw == name + [':'] + w;
    hide TrimSpace, InvalidValue, FieldOf, Identifier, Lower;
  }

  lemma ParsesAs(lower: char -> char, name: string, field: Field, v: string)
    requires KeepsAscii(lower) && FieldOf(name) == Some(field) && Searchable(lower, v)
    ensures ParseTerm(lower, With(name, v)) == Term(field, v, false, InvalidValue(field, v))
  {
    hide ParseTerm;
    ParsesRaw(lower, name, field, v);
    TrimSpaceShape(v);
  }

  lemma LowerJoined(lower: char -> char, name: string, v: string)
    requires KeepsAscii(lower) && Identifier(name) && Lower(lower, v) == v
    ensures Lower(lower, name + ":" + v) == name + ":" + v
  {
    var raw := name + ":" + v;
    forall i | 0 <= i < |raw| ensures lower(raw[i]) == raw[i] {
      if i < |name| {
        assert raw[i] == name[i] && name[i] in name;
      } else if i > |name| {
        assert raw[i] == v[i - |name| - 1];
        assert Lower(lower, v)[i - |name| - 1] == lower(v[i - |name| - 1]);
      }
    }
  }

  /** Without a colon, or with one behind something that is no identifier, such
      as an address with a port. */
  predicate NamesNoField(v: string) {
    match Cut(v) case None => true case Some((front, _)) => !Identifier(front)
  }

  lemma FreeText(lower: char -> char, v: string)
    requires Searchable(lower, v) && v[0] != '-' && NamesNoField(v)
    ensures ParseTerm(lower, v) == Term(Text, v, false, false)
  {
    TrimSpaceShape(v);
    if Cut(v).Some? { FieldNamesAreIdentifiers(Cut(v).value.0); }
  }

  // ---------------------------------------------------------------------------
  // What is found
  // ---------------------------------------------------------------------------

  /** To contain a text is to be that text with something around it. */
  lemma ContainsIff(s: string, part: string)
    ensures Contains(s, part) <==> exists before, behind :: s == before + part + behind
  {
    if Contains(s, part) {
      var i :| 0 <= i <= |s| && part <= s[i..];
      assert s == s[..i] + part + s[i..][|part|..];
    }
    if exists before, behind :: s == before + part + behind {
      var before, behind :| s == before + part + behind;
      assert s[|before|..] == part + behind;
    }
  }

  /** The address shown for a profile. */
  function Address(env: Env, p: Profile): string {
    if p.kind == "local" then env.localEndpoint
    else
      (if TrimSpace(p.host) == "" then env.newHost else TrimSpace(p.host))
      + ":" + IntText(if p.port == 0 then 22 else p.port)
  }

  /** The profile is found if the term holds of it. */
  lemma FieldHolds(env: Env, p: Profile, name: string, field: Field, v: string)
    requires KeepsAscii(env.lower) && FieldOf(name) == Some(field) && Searchable(env.lower, v)
    ensures var t := Term(field, v, false, InvalidValue(field, v));
      Found(env, p, With(name, v)) <==> !t.invalid && Holds(env, p, t)
  {
    hide ParseTerm, Holds;
    ParsesAs(env.lower, name, field, v);
  }

  /** name, group, host, endpoint and description look for a part of the field,
      in lower case and without spaces around it; type for all of it. */
  lemma FieldsFind(env: Env, p: Profile, v: string)
    requires KeepsAscii(env.lower) && Searchable(env.lower, v)
    ensures Found(env, p, With("name", v)) <==> Contains(Lower(env.lower, TrimSpace(p.name)), v)
    ensures Found(env, p, With("group", v)) <==> Contains(Lower(env.lower, TrimSpace(p.group)), v)
    ensures Found(env, p, With("host", v)) <==> Contains(Lower(env.lower, TrimSpace(p.host)), v)
    ensures Found(env, p, With("endpoint", v)) <==> Contains(Lower(env.lower, TrimSpace(Address(env, p))), v)
    ensures Found(env, p, With("description", v)) <==> Contains(Lower(env.lower, TrimSpace(p.description)), v)
    ensures Found(env, p, With("type", v)) <==> Lower(env.lower, TrimSpace(p.kind)) == v
  {
    hide Found, Contains, Lower, TrimSpace, IntText, With;
    FieldHolds(env, p, "name", Name, v);
    FieldHolds(env, p, "group", Group, v);
    FieldHolds(env, p, "host", Host, v);
    FieldHolds(env, p, "endpoint", Endpoint, v);
    FieldHolds(env, p, "description", Description, v);
    FieldHolds(env, p, "type", Type, v);
    AddressIsShown(env, p);
  }

  /** Spaces between the colon and the value, possible in quotes, do not matter. */
  lemma SpacesBeforeValue(lower: char -> char, name: string, field: Field, pad: string, v: string)
    requires KeepsAscii(lower) && FieldOf(name) == Some(field) && Searchable(lower, v)
    requires TrimSpace(pad) == "" && Lower(lower, pad) == pad
    ensures ParseTerm(lower, With(name, pad + v)) == ParseTerm(lower, With(name, v))
  {
    hide ParseTerm, With;
    ParsesAs(lower, name, field, v);
    PadIsDropped(lower, pad, v);
    ParsesRaw(lower, name, field, pad + v);
  }

  lemma {:induction false} PadIsDropped(lower: char -> char, pad: string, v: string)
    requires Searchable(lower, v) && TrimSpace(pad) == "" && Lower(lower, pad) == pad
    ensures TrimSpace(pad + v) == v && Lower(lower, pad + v) == pad + v
    decreases |pad|
  {
    TrimSpaceShape(v);
    if pad == "" {
      assert pad + v == v;
    } else {
      BlankIsAllSpaces(pad);
      BlankIsAllSpaces(pad[1..]);
      assert Lower(lower, pad[1..]) == pad[1..] by {
        assert forall i :: 0 <= i < |pad| - 1 ==> pad[1..][i] == Lower(lower, pad)[i + 1];
      }
      PadIsDropped(lower, pad[1..], v);
      assert pad + v == [pad[0]] + (pad[1..] + v);
      TrimLeftSpace(pad[1..] + v, pad[0]);
      LowerInTurn(lower, pad, v);
    }
  }

  lemma LowerInTurn(lower: char -> char, a: string, b: string)
    ensures Lower(lower, a + b) == Lower(lower, a) + Lower(lower, b)
  {
  }

  lemma AddressIsShown(env: Env, p: Profile)
    ensures TableEndpoint(env, p) == Address(env, p)
  {
  }

  /** A word without a field is looked for in name, group, type, host, address
      and description. */
  lemma FreeTextFinds(env: Env, p: Profile, v: string)
    requires Searchable(env.lower, v) && v[0] != '-' && NamesNoField(v)
    ensures Found(env, p, v) <==>
      || Contains(Lower(env.lower, TrimSpace(p.name)), v)
      || Contains(Lower(env.lower, p.group), v) || Contains(Lower(env.lower, p.kind), v)
      || Contains(Lower(env.lower, p.host), v) || Contains(Lower(env.lower, Address(env, p)), v)
      || Contains(Lower(env.lower, p.description), v)
  {
    hide ParseTerm, Contains, TrimSpace, Lower;
    FreeText(env.lower, v);
    AddressIsShown(env, p);
    var data := Metadata(env, p);
    assert data == [p.group, p.kind, p.host, Address(env, p), p.description];
    assert data[0] in data && data[1] in data && data[2] in data && data[3] in data && data[4] in data;
  }

  lemma FavoriteFinds(env: Env, p: Profile)
    requires KeepsAscii(env.lower)
    ensures Found(env, p, With("favorite", "true")) <==> p.favorite
    ensures Found(env, p, With("favorite", "false")) <==> !p.favorite
  {
    hide Found, With;
    FieldHolds(env, p, "favorite", Favorite, "true");
    FieldHolds(env, p, "favorite", Favorite, "false");
  }

  // ---------------------------------------------------------------------------
  // Numbers
  // ---------------------------------------------------------------------------

  lemma DecimalIsRead(lower: char -> char, n: nat)
    ensures Atoi(Decimal(n)) == if n <= 9223372036854775807 then Some(n) else None
    ensures KeepsAscii(lower) ==> Searchable(lower, Decimal(n))
    ensures Decimal(n)[0] != '-' && Decimal(n)[|Decimal(n)| - 1] != 'd'
  {
    DecimalRoundTrip(n);
    var s := Decimal(n);
    assert s[0] in s && s[|s| - 1] in s;
    assert forall i :: 0 <= i < |s| ==> s[i] in s;
  }

  /** port:n finds the SSH profiles with that port, where 0 stands for 22; other
      numbers than those of ports are refused. */
  lemma PortFinds(env: Env, p: Profile, n: nat)
    requires KeepsAscii(env.lower)
    ensures var text := With("port", Decimal(n));
      if 1 <= n <= 65535
      then
        && TermError(text) == None
        && (Found(env, p, text) <==> p.kind == "ssh" && n == if p.port == 0 then 22 else p.port)
      else TermError(text) == Some(BadPort) && !Found(env, p, text)
  {
    hide ParseTerm, TermError, Atoi, Decimal;
    DecimalIsRead(env.lower, n);
    ParsesAs(env.lower, "port", Port, Decimal(n));
    FieldNamesAreIdentifiers("port");
    ErrorAs("port", Decimal(n));
    if 1 <= n <= 65535 && p.kind == "ssh" { PortMatchesIff(env, p, Decimal(n), false); }
  }

  /** Numbers may carry a sign. */
  lemma SignedNumbers(n: nat)
    requires n <= 9223372036854775807
    ensures Atoi(['+'] + Decimal(n)) == Some(n)
    ensures Atoi(['-'] + Decimal(n)).Some? && Atoi(['-'] + Decimal(n)).value + n == 0
  {
    DecimalRoundTrip(n);
    var digits := Decimal(n);
    hide Decimal, Value;
    assert (['+'] + digits)[1..] == digits && (['-'] + digits)[1..] == digits;
  }

  /** A port with one is accepted, and finds nothing. */
  lemma SignedPortFindsNothing(env: Env, p: Profile, n: nat)
    requires KeepsAscii(env.lower) && 1 <= n <= 65535
    ensures var text := With("port", ['+'] + Decimal(n)); TermError(text) == None && !Found(env, p, text)
  {
    hide ParseTerm, TermError, Decimal, Atoi;
    var plus := ['+'] + Decimal(n);
    SignedNumbers(n);
    PlusIsSearchable(env.lower, n);
    ParsesAs(env.lower, "port", Port, plus);
    FieldNamesAreIdentifiers("port");
    ErrorAs("port", plus);
    DecimalRoundTrip(n);
    assert Decimal(n)[0] in Decimal(n) && plus[0] == '+';
    if p.kind == "ssh" { PortMatchesIff(env, p, plus, false); }
  }

  lemma PlusIsSearchable(lower: char -> char, n: nat)
    requires KeepsAscii(lower)
    ensures Searchable(lower, ['+'] + Decimal(n))
  {
    DecimalIsRead(lower, n);
    var plus := ['+'] + Decimal(n);
    forall i | 0 <= i < |plus| ensures lower(plus[i]) == plus[i] {
      if i > 0 { assert plus[i] == Lower(lower, Decimal(n))[i - 1]; }
    }
  }

  const DAY_NS: int := 86400000000000

  /** The profile was last used at most n days ago, and not in the future. */
  predicate UsedWithin(env: Env, p: Profile, n: nat) {
    match env.usedAt(TrimSpace(p.lastUsed))
    case None => false
    case Some(at) => env.now - n * DAY_NS <= at <= env.now
  }

  /** used:true, used:false, used:today, which means one day, and used:nd for up
      to 3650 days. */
  lemma UsedFinds(env: Env, p: Profile, n: nat)
    requires KeepsAscii(env.lower)
    ensures Found(env, p, With("used", "true")) <==> TrimSpace(p.lastUsed) != ""
    ensures Found(env, p, With("used", "false")) <==> TrimSpace(p.lastUsed) == ""
    ensures Found(env, p, With("used", "today")) <==> UsedWithin(env, p, 1)
    ensures var text := With("used", Decimal(n) + "d");
      if 1 <= n <= 3650 then TermError(text) == None && (Found(env, p, text) <==> UsedWithin(env, p, n))
      else TermError(text) == Some(BadUsed) && !Found(env, p, text)
  {
    hide ParseTerm, TermError, Atoi, Decimal, UsedMatches, UsedWithin;
    ParsesAs(env.lower, "used", Used, "true");
    ParsesAs(env.lower, "used", Used, "false");
    ParsesAs(env.lower, "used", Used, "today");
    DaysAreRead(env.lower, n);
    ParsesAs(env.lower, "used", Used, Decimal(n) + "d");
    FieldNamesAreIdentifiers("used");
    ErrorAs("used", Decimal(n) + "d");
    UsedMeans(env, p, n);
  }

  lemma DaysAreRead(lower: char -> char, n: nat)
    requires KeepsAscii(lower)
    ensures var v := Decimal(n) + "d";
      && Searchable(lower, v) && (ValidUsed(v) <==> 1 <= n <= 3650)
      && v != "true" && v != "false" && v != "today"
  {
    DecimalIsRead(lower, n);
    DecimalRoundTrip(n);
    var v, s := Decimal(n) + "d", Decimal(n);
    assert v[..|v| - 1] == s && v[|v| - 1] == 'd';
    assert forall i :: 0 <= i < |s| ==> Lower(lower, s)[i] == s[i];
    assert "true"[3] != 'd' && "false"[4] != 'd' && "today"[4] != 'd';
  }

  lemma UsedMeans(env: Env, p: Profile, n: nat)
    requires KeepsAscii(env.lower)
    ensures UsedMatches(env, p, "true") <==> TrimSpace(p.lastUsed) != ""
    ensures UsedMatches(env, p, "false") <==> TrimSpace(p.lastUsed) == ""
    ensures UsedMatches(env, p, "today") <==> UsedWithin(env, p, 1)
    ensures 1 <= n <= 3650 ==> (UsedMatches(env, p, Decimal(n) + "d") <==> UsedWithin(env, p, n))
  {
    DaysAreRead(env.lower, n);
    DecimalIsRead(env.lower, n);
    var v := Decimal(n) + "d";
    assert v[..|v| - 1] == Decimal(n) && v[|v| - 1] == 'd';
    hide Atoi, Decimal, TrimSpace;
    assert 1 <= n <= 3650 ==> Days(v) == n;
  }

  // ---------------------------------------------------------------------------
  // Exclusion and alternatives
  // ---------------------------------------------------------------------------

  /** A minus sign turns the meaning of a term round, and leaves it as valid or
      invalid as it was. */
  lemma MinusExcludes(env: Env, p: Profile, text: string)
    requires env.lower('-') == '-' && Searchable(env.lower, text) && text[0] != '-'
    ensures var t, minus := ParseTerm(env.lower, text), ParseTerm(env.lower, "-" + text);
      && minus.invalid == t.invalid
      && (!t.invalid ==> (Found(env, p, "-" + text) <==> !Found(env, p, text)))
  {
    MinusIsRead(env.lower, text);
    SameParsed(env, p, text);
    hide Holds, ParseTerm, ParseBody;
  }

  lemma MinusIsRead(lower: char -> char, text: string)
    requires lower('-') == '-' && Searchable(lower, text) && text[0] != '-'
    ensures ParseTerm(lower, text) == ParseBody(text, false)
    ensures ParseTerm(lower, "-" + text) == ParseBody(text, true)
  {
    hide ParseBody, TrimSpace, Lower, Canonical;
    var raw := "-" + text;
    CanonicalStays(lower, text);
    MinusIsSearchable(lower, text);
    CanonicalStays(lower, raw);
    TrimSpaceShape(text);
    assert raw[0] == '-' && raw[1..] == text;
    assert Excludes(raw) && Body(raw) == text && !Excludes(text) && Body(text) == text;
  }

  lemma CanonicalStays(lower: char -> char, text: string)
    requires Searchable(lower, text)
    ensures Canonical(lower, text) == text
  {
    TrimSpaceShape(text);
  }

  lemma MinusIsSearchable(lower: char -> char, text: string)
    requires lower('-') == '-' && Searchable(lower, text)
    ensures Searchable(lower, "-" + text)
  {
    var raw := "-" + text;
    forall i | 0 <= i < |raw| ensures lower(raw[i]) == raw[i] {
      if i > 0 { assert raw[i] == Lower(lower, text)[i - 1]; }
    }
  }

  lemma SameParsed(env: Env, p: Profile, body: string)
    ensures ParseBody(body, true) == ParseBody(body, false).(exclude := true)
    ensures !ParseBody(body, false).exclude
    ensures Holds(env, p, ParseBody(body, true)) == Holds(env, p, ParseBody(body, false))
  {
    hide FieldOf, Identifier, InvalidValue, TrimSpace, Contains, UsedMatches, FieldText, Metadata;
  }

  /** An alternative matches exactly if it has a term, all its positive terms hold
      and no excluded one does. */
  lemma ClauseMeaning(env: Env, p: Profile, terms: seq<Term>)
    ensures ClauseMatches(env, p, terms) <==>
      && |terms| > 0
      && (forall t :: t in terms && !t.exclude ==> Holds(env, p, t))
      && (forall t :: t in terms && t.exclude ==> !Holds(env, p, t))
  {
    hide Holds;
    if ClauseMatches(env, p, terms) {
      forall t | t in terms ensures Fits(env, p, t) {
        var i :| 0 <= i < |terms| && terms[i] == t;
      }
    }
  }

  // ---------------------------------------------------------------------------
  // Ranks
  // ---------------------------------------------------------------------------

  /** How well a name matches: 0 is the name itself, 1 its beginning, 2 a part. */
  lemma NameRanks(env: Env, p: Profile, v: string)
    requires v != "" && Contains(Lower(env.lower, TrimSpace(p.name)), v)
    ensures var name := Lower(env.lower, TrimSpace(p.name));
      var rank := if name == v then 0 else if v < name then 1 else 2;
      && Score(env, p, [Term(Text, v, false, false)]) == Some(rank)
      && Score(env, p, [Term(Name, v, false, false)]) == Some(rank)
  {
    hide Lower, TrimSpace;
    var plain, named := Term(Text, v, false, false), Term(Name, v, false, false);
    OneTermSum(env, p, plain);
    OneTermSum(env, p, named);
    assert [plain][0] == plain && [named][0] == named;
  }

  /** Anything else that holds counts 3, be it free text found outside the name
      or another field. */
  lemma OtherRanks(env: Env, p: Profile, t: Term)
    requires Holds(env, p, t) && !t.exclude && t.field != Name
    requires t.field == Text ==> !Contains(Lower(env.lower, TrimSpace(p.name)), t.value)
    ensures Score(env, p, [t]) == Some(3)
  {
    OneTermSum(env, p, t);
    hide Holds, Contains, Lower, TrimSpace;
    assert [t][0] == t;
  }

  lemma OneTermSum(env: Env, p: Profile, t: Term)
    ensures RankSum(env, p, [t]) == if t.exclude then 0 else TermRank(env, p, t)
  {
    assert [t][..0] == [] && RankSum(env, p, []) == 0;
  }

  /** The rank of several terms is the sum of theirs: excluded ones count nothing,
      free text in the name counts 2 there. */
  lemma {:induction false} RanksAddUp(env: Env, p: Profile, a: seq<Term>, b: seq<Term>)
    ensures RankSum(env, p, a + b) == RankSum(env, p, a) + RankSum(env, p, b)
    decreases |b|
  {
    hide TermRank;
    if b == [] {
      assert a + b == a;
    } else {
      var n := |b| - 1;
      assert (a + b)[..|a + b| - 1] == a + b[..n];
      RanksAddUp(env, p, a, b[..n]);
    }
  }

  lemma SeveralTermsScore(env: Env, p: Profile, a: seq<Term>, t: Term)
    requires a != [] && ClauseMatches(env, p, a + [t])
    ensures var name := Lower(env.lower, TrimSpace(p.name));
      var rank :=
        if t.exclude then 0
        else if t.field == Text && Contains(name, t.value) then 2
        else if t.field == Name then if name == t.value then 0 else if t.value < name then 1 else 2
        else 3;
      Score(env, p, a + [t]) == Some(RankSum(env, p, a) + rank)
  {
    RanksAddUp(env, p, a, [t]);
    OneTermSum(env, p, t);
    hide Holds, Contains, Lower, TrimSpace, RankSum;
    assert (a + [t])[|a|] == t && [t][0] == t;
  }

  // ---------------------------------------------------------------------------
  // Errors
  // ---------------------------------------------------------------------------

  lemma ErrorAs(name: string, v: string)
    requires Identifier(name) && Trimmed(v)
    ensures TermError(With(name, v)) == FieldError(name, v)
  {
    hide FieldError, TrimSpace, Cut, Identifier;
    var raw := With(name, v);
    WithIsTrimmed(name, v);
    TrimSpaceShape(raw);
    TrimSpaceShape(v);
    TrimSpaceShape(name);
    CutJoined(name, v);
    assert raw == name + [':'] + v;
  }

  lemma WithIsTrimmed(name: string, v: string)
    requires Identifier(name) && Trimmed(v)
    ensures Trimmed(name) && Trimmed(With(name, v)) && With(name, v)[0] != '-' && ':' !in name
  {
    var raw := With(name, v);
    assert name[0] in name && name[|name| - 1] in name;
    assert raw[0] == name[0] && raw[|raw| - 1] == if v == "" then ':' else v[|v| - 1];
  }

  function Missing(field: Field, v: string): Option<SearchError> {
    if v == "" then Some(MissingValue(field)) else None
  }

  /** Which error each field reports for a value. */
  lemma ErrorsOfFields(v: string)
    requires Trimmed(v)
    ensures TermError(With("name", v)) == Missing(Name, v) && TermError(With("group", v)) == Missing(Group, v)
    ensures TermError(With("type", v)) == Missing(Type, v) && TermError(With("host", v)) == Missing(Host, v)
    ensures TermError(With("endpoint", v)) == Missing(Endpoint, v)
    ensures TermError(With("description", v)) == Missing(Description, v)
    ensures TermError(With("favorite", v)) == if v == "true" || v == "false" then None else Some(BadFavorite)
    ensures TermError(With("port", v)) == if ValidPort(v) then None else Some(BadPort)
    ensures TermError(With("used", v)) == if ValidUsed(v) then None else Some(BadUsed)
  {
    hide TermError, ValidPort, ValidUsed, With, TrimSpace, Trimmed;
    FieldNamesAreIdentifiers("name");
    FieldNamesAreIdentifiers("group");
    FieldNamesAreIdentifiers("type");
    FieldNamesAreIdentifiers("host");
    FieldNamesAreIdentifiers("endpoint");
    FieldNamesAreIdentifiers("description");
    FieldNamesAreIdentifiers("favorite");
    FieldNamesAreIdentifiers("port");
    FieldNamesAreIdentifiers("used");
    hide Identifier;
    ErrorAs("name", v);
    ErrorAs("group", v);
    ErrorAs("type", v);
    ErrorAs("host", v);
    ErrorAs("endpoint", v);
    ErrorAs("description", v);
    ErrorAs("favorite", v);
    ErrorAs("port", v);
    ErrorAs("used", v);
  }

  const FIELDS: set<string> :=
    {"name", "group", "type", "host", "endpoint", "port", "description", "favorite", "used"}

  /** Something that looks like a field but is none is refused by its name, a
      minus sign without a term too; a text without a colon never is. */
  lemma OtherErrors(name: string, v: string, text: string)
    requires name != "" && (forall c :: c in name ==> 'a' <= c <= 'z' || c == '_') && name !in FIELDS && Trimmed(v)
    requires text != "" && Trimmed(text) && text[0] != '-' && ':' !in text
    ensures TermError(With(name, v)) == Some(UnsupportedField(name))
    ensures TermError("-") == Some(EmptyExclusion)
    ensures TermError(text) == None
  {
    ErrorAs(name, v);
    TrimSpaceShape(text);
    assert Trimmed("-");
    TrimSpaceShape("-");
    assert "-"[1..] == "" && TrimSpace("") == "";
  }

  /** What is reported for a query that cannot be split into alternatives. */
  lemma PipeErrors(lower: char -> char, query: string)
    requires Canonical(lower, query) != "" && Lexed(Canonical(lower, query)) == Malformed
    ensures var q := Canonical(lower, query);
      ValidationError(lower, query) ==
        Some(if q[0] == '|' then PipeInFront else if q[|q| - 1] == '|' then PipeBehind else PipeAround)
  {
  }

  lemma {:induction false} FirstErrorAt(check: string -> Option<SearchError>, terms: seq<string>) returns (k: nat)
    requires FirstError(check, terms).Some?
    ensures k < |terms| && check(terms[k]) == FirstError(check, terms)
    ensures forall j :: 0 <= j < k ==> check(terms[j]).None?
  {
    var n := |terms| - 1;
    if FirstError(check, terms[..n]).Some? {
      k := FirstErrorAt(check, terms[..n]);
      assert forall j :: 0 <= j < n ==> terms[..n][j] == terms[j];
    } else {
      k := n;
      FirstErrorFinds(check, terms[..n]);
      assert forall j :: 0 <= j < n ==> terms[j] in terms[..n];
    }
  }

  /** The error reported is that of the first term that has one, in the order in
      which the terms are typed. */
  lemma {:induction false} ReportedIsFirst(check: string -> Option<SearchError>, clauses: seq<seq<string>>)
    returns (i: nat, k: nat)
    requires FirstClauseError(check, clauses).Some?
    ensures i < |clauses| && k < |clauses[i]| && check(clauses[i][k]) == FirstClauseError(check, clauses)
    ensures forall j :: 0 <= j < k ==> check(clauses[i][j]).None?
    ensures forall h, j :: 0 <= h < i && 0 <= j < |clauses[h]| ==> check(clauses[h][j]).None?
  {
    var n := |clauses| - 1;
    if FirstClauseError(check, clauses[..n]).Some? {
      i, k := ReportedIsFirst(check, clauses[..n]);
      assert forall h :: 0 <= h < n ==> clauses[..n][h] == clauses[h];
    } else {
      i := n;
      k := FirstErrorAt(check, clauses[n]);
      FirstClauseErrorFinds(check, clauses[..n]);
      assert forall h :: 0 <= h < n ==> clauses[h] in clauses[..n];
      assert forall h, j :: 0 <= h < n && 0 <= j < |clauses[h]| ==> clauses[h][j] in clauses[h];
    }
  }
}
