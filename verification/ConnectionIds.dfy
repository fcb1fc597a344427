/** Connection ids of the command-line tool (terminal/connection.go): slugs that
    are made unique. */
module ConnectionIds {
  import opened Text
  import opened UniqueIds

  datatype Connection = Connection(
    id: string,
    name: string,
    kind: string,
    host: string,
    port: int,
    username: string,
    workingDir: string,
    description: string)

  const LOCAL_KIND := "local"
  const SSH_KIND := "ssh"
  const DEFAULT_LOCAL :=
    Connection("local-default", "Local Shell", LOCAL_KIND, "", 0, "", "", "Run commands on this machine")

  // ---------------------------------------------------------------------------
  // Slugs
  // ---------------------------------------------------------------------------

  /** What the pattern [^a-z0-9._-]+ leaves alone. */
  predicate Safe(c: char) {
    'a' <= c <= 'z' || '0' <= c <= '9' || c == '.' || c == '_' || c == '-'
  }

  predicate AllSafe(s: string) { forall i :: 0 <= i < |s| ==> Safe(s[i]) }

  /** What is used of unicode.ToLower. */
  ghost predicate KeepsSafe(lower: char -> char) { forall c :: Safe(c) ==> lower(c) == c }

  function DropUnsafe(s: string): (r: string)
    ensures |r| <= |s|
  {
    if s != "" && !Safe(s[0]) then DropUnsafe(s[1..]) else s
  }

  /** Each run of unsafe characters becomes one dash. */
  function ReplaceUnsafe(s: string): string
    decreases |s|
  {
    if s == "" then ""
    else if Safe(s[0]) then [s[0]] + ReplaceUnsafe(s[1..])
    else ['-'] + ReplaceUnsafe(DropUnsafe(s[1..]))
  }

  function TrimLeftDashes(s: string): string {
    if s != "" && s[0] == '-' then TrimLeftDashes(s[1..]) else s
  }

  function TrimRightDashes(s: string): string {
    if s != "" && s[|s| - 1] == '-' then TrimRightDashes(s[..|s| - 1]) else s
  }

  /** strings.Trim(s, "-") */
  function TrimDashes(s: string): string { TrimRightDashes(TrimLeftDashes(s)) }

  function SlugConnectionId(lower: char -> char, s: string): string {
    TrimDashes(ReplaceUnsafe(Lower(lower, TrimSpace(s))))
  }

  predicate Slug(s: string) {
    AllSafe(s) && (s != "" ==> s[0] != '-' && s[|s| - 1] != '-')
  }

  lemma {:induction false} ReplaceUnsafeIsSafe(s: string)
    ensures AllSafe(ReplaceUnsafe(s))
    ensures AllSafe(s) ==> ReplaceUnsafe(s) == s
    decreases |s|
  {
    if s != "" {
      if Safe(s[0]) {
        ReplaceUnsafeIsSafe(s[1..]);
        assert [s[0]] + s[1..] == s;
      } else {
        ReplaceUnsafeIsSafe(DropUnsafe(s[1..]));
      }
    }
  }

  lemma {:induction false} TrimLeftDashesShape(s: string)
    requires AllSafe(s)
    ensures AllSafe(TrimLeftDashes(s)) && (TrimLeftDashes(s) != "" ==> TrimLeftDashes(s)[0] != '-')
  {
    if s != "" && s[0] == '-' { TrimLeftDashesShape(s[1..]); }
  }

  lemma {:induction false} TrimRightDashesShape(s: string)
    requires AllSafe(s) && (s != "" ==> s[0] != '-')
    ensures Slug(TrimRightDashes(s))
  {
    if s != "" && s[|s| - 1] == '-' { TrimRightDashesShape(s[..|s| - 1]); }
  }

  /** Making a slug gives a slug, and leaves one alone. */
  lemma SlugIsSlug(lower: char -> char, s: string)
    requires KeepsSafe(lower)
    ensures Slug(SlugConnectionId(lower, s))
    ensures Slug(s) ==> SlugConnectionId(lower, s) == s
  {
    var l := Lower(lower, TrimSpace(s));
    ReplaceUnsafeIsSafe(l);
    TrimLeftDashesShape(ReplaceUnsafe(l));
    TrimRightDashesShape(TrimLeftDashes(ReplaceUnsafe(l)));
    if Slug(s) {
      TrimSpaceShape(s);
      assert l == s;
    }
  }

  lemma SlugIsTrimmed(s: string)
    requires Slug(s)
    ensures TrimSpace(s) == s
  {
    TrimSpaceShape(s);
  }

  lemma CandidateIsSlug(base: string, n: nat)
    requires Slug(base) && base != ""
    ensures Slug(Candidate(base, n)) && Candidate(base, n) != ""
  {
    DecimalRoundTrip(n);
    var digits := Decimal(n);
    assert forall i :: 0 <= i < |digits| ==> digits[i] in digits;
  }

  // ---------------------------------------------------------------------------
  // Normalizing
  // ---------------------------------------------------------------------------

  function BaseSlug(lower: char -> char, id: string): string {
    var slug := SlugConnectionId(lower, id);
    if slug == "" then "connection" else slug
  }

  lemma BaseSlugIsSlug(lower: char -> char, id: string)
    requires KeepsSafe(lower)
    ensures Slug(BaseSlug(lower, id)) && BaseSlug(lower, id) != ""
    ensures Slug(id) && id != "" ==> BaseSlug(lower, id) == id
  {
    SlugIsSlug(lower, id);
  }

  method UniqueConnectionId(lower: char -> char, id: string, seen: set<string>)
    returns (candidate: string, more: set<string>)
    ensures candidate == Unique(BaseSlug(lower, id), seen) && candidate !in seen && more == seen + {candidate}
  {
    var base := SlugConnectionId(lower, id);
    if base == "" {
      base := "connection";
    }
    var tries;
    candidate, tries := UniqueCandidate(base, seen);
    more := seen + {candidate};
  }

  function KindOf(c: Connection): string {
    if TrimSpace(c.kind) == "" then LOCAL_KIND else TrimSpace(c.kind)
  }

  function IdOf(lower: char -> char, c: Connection): string {
    if TrimSpace(c.id) != "" then TrimSpace(c.id)
    else
      var base := TrimDashes(SlugConnectionId(lower, TrimSpace(c.name)));
      if base == "" then KindOf(c) else base
  }

  function NameOf(c: Connection): string {
    var name := TrimSpace(c.name);
    if name != "" then name
    else if KindOf(c) == LOCAL_KIND then "Local Shell"
    else if KindOf(c) == SSH_KIND then TrimSpace(c.host)
    else ""
  }

  function NormalizedConnection(lower: char -> char, c: Connection): Connection {
    Connection(
      IdOf(lower, c),
      NameOf(c),
      KindOf(c),
      TrimSpace(c.host),
      if KindOf(c) == SSH_KIND && c.port == 0 then 22 else c.port,
      TrimSpace(c.username),
      TrimSpace(c.workingDir),
      c.description)
  }

  method Normalize(lower: char -> char, c: Connection) returns (r: Connection)
    ensures r == NormalizedConnection(lower, c)
  {
    r := c.(id := TrimSpace(c.id));
    r := r.(name := TrimSpace(r.name));
    r := r.(kind := TrimSpace(r.kind));
    r := r.(host := TrimSpace(r.host));
    r := r.(username := TrimSpace(r.username));
    r := r.(workingDir := TrimSpace(r.workingDir));
    if r.kind == "" {
      r := r.(kind := LOCAL_KIND);
    }
    if r.id == "" {
      var base := TrimDashes(SlugConnectionId(lower, r.name));
      if base == "" {
        base := r.kind;
      }
      r := r.(id := base);
    }
    if r.name == "" {
      if r.kind == LOCAL_KIND {
        r := r.(name := "Local Shell");
      } else if r.kind == SSH_KIND {
        r := r.(name := r.host);
      }
    }
    if r.kind == SSH_KIND && r.port == 0 {
      r := r.(port := 22);
    }
  }

  function StartingId(id: string, k: nat): string { if id == "" then "connection-" + Decimal(k) else id }

  function ConnectionIdSet(conns: seq<Connection>): set<string> { set c | c in conns :: c.id }

  function NormalizedList(lower: char -> char, conns: seq<Connection>): seq<Connection> {
    if conns == [] then []
    else
      var n := |conns| - 1;
      var done, c := NormalizedList(lower, conns[..n]), NormalizedConnection(lower, conns[n]);
      done + [c.(id := Unique(BaseSlug(lower, StartingId(c.id, |done| + 1)), ConnectionIdSet(done)))]
  }

  lemma NormalizedSnoc(lower: char -> char, conns: seq<Connection>, c: Connection)
    ensures var done, next := NormalizedList(lower, conns), NormalizedConnection(lower, c);
      NormalizedList(lower, conns + [c]) ==
        done + [next.(id := Unique(BaseSlug(lower, StartingId(next.id, |done| + 1)), ConnectionIdSet(done)))]
    ensures NormalizedList(lower, []) == [] && ConnectionIdSet([]) == {}
  {
    assert (conns + [c])[..|conns|] == conns;
  }

  lemma ConnectionIdSetSnoc(conns: seq<Connection>, c: Connection)
    ensures ConnectionIdSet(conns + [c]) == ConnectionIdSet(conns) + {c.id}
  {
    assert forall q :: q in conns + [c] <==> q in conns || q == c;
    forall id | id in ConnectionIdSet(conns) + {c.id} ensures id in ConnectionIdSet(conns + [c]) {
      if id == c.id { assert c in conns + [c]; }
    }
  }

  method NormalizeConnections(lower: char -> char, conns: seq<Connection>) returns (out: seq<Connection>)
    ensures out ==
      if conns == []
      then [Connection("local-default", "Local Shell", "local", "", 0, "", "", "Run commands on this machine")]
      else NormalizedList(lower, conns)
  {
    hide NormalizedList, NormalizedConnection, BaseSlug, Unique, ConnectionIdSet;
    if |conns| == 0 {
      return [DEFAULT_LOCAL];
    }
    var seen: set<string> := {};
    out := [];
    NormalizedSnoc(lower, [], conns[0]);
    for i := 0 to |conns|
      invariant out == NormalizedList(lower, conns[..i]) && seen == ConnectionIdSet(out)
    {
      var conn := Normalize(lower, conns[i]);
      if conn.id == "" {
        conn := conn.(id := "connection-" + Decimal(|out| + 1));
      }
      var id;
      ghost var before := seen;
      id, seen := UniqueConnectionId(lower, conn.id, seen);
      conn := conn.(id := id);
      assert conns[..i + 1] == conns[..i] + [conns[i]];
      NormalizedSnoc(lower, conns[..i], conns[i]);
      ConnectionIdSetSnoc(out, conn);
      out := out + [conn];
    }
    assert conns[..|conns|] == conns;
  }

  // ---------------------------------------------------------------------------
  // Distinct and stable
  // ---------------------------------------------------------------------------

  predicate DistinctConnections(conns: seq<Connection>) {
    forall i, j :: 0 <= i < j < |conns| ==> conns[i].id != conns[j].id
  }

  /** The fields other than the id no longer change, and the id is a slug. */
  predicate Settled(lower: char -> char, c: Connection) {
    Slug(c.id) && c.id != "" && NormalizedConnection(lower, c) == c
  }

  lemma NormalizedSettles(lower: char -> char, c: Connection, id: string)
    requires KeepsSafe(lower) && Slug(id) && id != ""
    ensures Settled(lower, NormalizedConnection(lower, c).(id := id))
  {
    hide SlugConnectionId, TrimSpace;
    var r := NormalizedConnection(lower, c).(id := id);
    SlugIsTrimmed(id);
    TrimSpaceShape(c.name);
    TrimSpaceShape(c.kind);
    TrimSpaceShape(c.host);
    TrimSpaceShape(c.username);
    TrimSpaceShape(c.workingDir);
    SlugIsTrimmed(LOCAL_KIND);
    TrimSpaceShape("Local Shell");
    TrimSpaceShape("");
    assert KindOf(r) == r.kind && NameOf(r) == r.name;
  }

  lemma UniqueIsSlug(lower: char -> char, id: string, seen: set<string>)
    requires KeepsSafe(lower)
    ensures var u := Unique(BaseSlug(lower, id), seen); Slug(u) && u != "" && u !in seen
  {
    var base := BaseSlug(lower, id);
    BaseSlugIsSlug(lower, id);
    UniqueIsFirst(base, seen);
    var k :| 1 <= k <= |seen| + 1 && FirstFree(base, 1, seen, Unique(base, seen), k);
    CandidateIsSlug(base, k);
  }

  lemma NewConnectionIsDistinct(done: seq<Connection>, c: Connection)
    requires DistinctConnections(done) && c.id !in ConnectionIdSet(done)
    ensures DistinctConnections(done + [c])
  {
    assert forall i :: 0 <= i < |done| ==> done[i] in done && done[i].id in ConnectionIdSet(done);
  }

  lemma NotAmongConnections(conns: seq<Connection>, id: string)
    requires forall i :: 0 <= i < |conns| ==> conns[i].id != id
    ensures id !in ConnectionIdSet(conns)
  {
  }

  /** The normalized connections have distinct slugs as ids. */
  lemma {:induction false} NormalizedAreDistinct(lower: char -> char, conns: seq<Connection>)
    requires KeepsSafe(lower)
    ensures var r := NormalizedList(lower, conns);
      |r| == |conns| && DistinctConnections(r) && forall i :: 0 <= i < |r| ==> Settled(lower, r[i])
  {
    hide NormalizedConnection, BaseSlug, Unique, ConnectionIdSet, Settled;
    if conns != [] {
      var n := |conns| - 1;
      var done, c := NormalizedList(lower, conns[..n]), NormalizedConnection(lower, conns[n]);
      NormalizedAreDistinct(lower, conns[..n]);
      var start := StartingId(c.id, |done| + 1);
      var id := Unique(BaseSlug(lower, start), ConnectionIdSet(done));
      UniqueIsSlug(lower, start, ConnectionIdSet(done));
      NormalizedSettles(lower, conns[n], id);
      NewConnectionIsDistinct(done, c.(id := id));
    }
  }

  lemma SettledStays(lower: char -> char, c: Connection, taken: set<string>, k: nat)
    requires KeepsSafe(lower) && Settled(lower, c) && c.id !in taken
    ensures var next := NormalizedConnection(lower, c);
      next.(id := Unique(BaseSlug(lower, StartingId(next.id, k)), taken)) == c
  {
    BaseSlugIsSlug(lower, c.id);
  }

  lemma {:induction false} SettledListStays(lower: char -> char, conns: seq<Connection>)
    requires KeepsSafe(lower) && DistinctConnections(conns)
    requires forall i :: 0 <= i < |conns| ==> Settled(lower, conns[i])
    ensures NormalizedList(lower, conns) == conns
  {
    hide NormalizedConnection, BaseSlug, Unique, ConnectionIdSet, Settled;
    if conns != [] {
      var n := |conns| - 1;
      SettledListStays(lower, conns[..n]);
      NotAmongConnections(conns[..n], conns[n].id);
      SettledStays(lower, conns[n], ConnectionIdSet(conns[..n]), n + 1);
      assert conns[..n] + [conns[n]] == conns;
    }
  }

  /** A second pass changes nothing. */
  lemma NormalizeConnectionsTwice(lower: char -> char, conns: seq<Connection>)
    requires KeepsSafe(lower)
    ensures NormalizedList(lower, NormalizedList(lower, conns)) == NormalizedList(lower, conns)
    ensures NormalizedList(lower, [DEFAULT_LOCAL]) == [DEFAULT_LOCAL]
  {
    NormalizedAreDistinct(lower, conns);
    SettledListStays(lower, NormalizedList(lower, conns));
    DefaultIsSettled(lower);
    SettledListStays(lower, [DEFAULT_LOCAL]);
  }

  lemma DefaultIsSettled(lower: char -> char)
    requires KeepsSafe(lower)
    ensures Settled(lower, DEFAULT_LOCAL)
  {
    hide SlugConnectionId, TrimSpace, Settled;
    var id := DEFAULT_LOCAL.id;
    assert Slug(id);
    TrimSpaceShape("local-default");
    TrimSpaceShape("Local Shell");
    TrimSpaceShape("local");
    TrimSpaceShape("");
    assert NormalizedConnection(lower, DEFAULT_LOCAL) == DEFAULT_LOCAL;
    NormalizedSettles(lower, DEFAULT_LOCAL, id);
  }

  // ---------------------------------------------------------------------------
  // Slugs and connections spelled out
  // ---------------------------------------------------------------------------

  /** Pieces with gaps between them. */
  function Gapped(pieces: seq<string>, gaps: seq<string>): string
    requires |pieces| == |gaps| + 1
  {
    if gaps == [] then pieces[0] else pieces[0] + gaps[0] + Gapped(pieces[1..], gaps[1..])
  }

  /** Safe pieces and nonempty gaps without a safe character; only the outer
      pieces may be empty. */
  predicate GapsAreUnsafe(pieces: seq<string>, gaps: seq<string>)
    requires |pieces| == |gaps| + 1
  {
    && (forall i :: 0 <= i < |pieces| ==> AllSafe(pieces[i]))
    && (forall i :: 0 < i < |gaps| ==> pieces[i] != "")
    && (forall i :: 0 <= i < |gaps| ==> gaps[i] != "" && forall k :: 0 <= k < |gaps[i]| ==> !Safe(gaps[i][k]))
  }

  lemma {:induction false} ReplaceSafe(piece: string, t: string)
    requires AllSafe(piece)
    ensures ReplaceUnsafe(piece + t) == piece + ReplaceUnsafe(t)
  {
    if piece == "" {
      assert piece + t == t;
    } else {
      assert (piece + t)[1..] == piece[1..] + t;
      ReplaceSafe(piece[1..], t);
      assert [piece[0]] + (piece[1..] + ReplaceUnsafe(t)) == piece + ReplaceUnsafe(t);
    }
  }

  lemma {:induction false} DropGap(gap: string, t: string)
    requires (forall k :: 0 <= k < |gap| ==> !Safe(gap[k])) && (t != "" ==> Safe(t[0]))
    ensures DropUnsafe(gap + t) == t
  {
    if gap == "" {
      assert gap + t == t;
    } else {
      assert (gap + t)[1..] == gap[1..] + t;
      DropGap(gap[1..], t);
    }
  }

  lemma ReplaceGap(gap: string, t: string)
    requires gap != "" && (forall k :: 0 <= k < |gap| ==> !Safe(gap[k])) && (t != "" ==> Safe(t[0]))
    ensures ReplaceUnsafe(gap + t) == ['-'] + ReplaceUnsafe(t)
  {
    assert (gap + t)[1..] == gap[1..] + t;
    DropGap(gap[1..], t);
  }

  /** Each gap, however long, becomes one dash. */
  lemma {:induction false} GapsBecomeDashes(pieces: seq<string>, gaps: seq<string>)
    requires |pieces| == |gaps| + 1 && GapsAreUnsafe(pieces, gaps)
    ensures ReplaceUnsafe(Gapped(pieces, gaps)) == Join(pieces, '-')
    decreases |gaps|
  {
    hide ReplaceUnsafe, DropUnsafe, Safe;
    if gaps == [] {
      NothingUnsafe(pieces[0]);
    } else {
      var t := Gapped(pieces[1..], gaps[1..]);
      assert GapsAreUnsafe(pieces[1..], gaps[1..]);
      assert t != "" ==> Safe(t[0]) by { FirstIsSafe(pieces[1..], gaps[1..]); }
      GapsBecomeDashes(pieces[1..], gaps[1..]);
      ReplaceSafe(pieces[0], gaps[0] + t);
      ReplaceGap(gaps[0], t);
      assert pieces[0] + gaps[0] + t == pieces[0] + (gaps[0] + t);
      assert pieces[0] + (['-'] + Join(pieces[1..], '-')) == pieces[0] + ['-'] + Join(pieces[1..], '-');
    }
  }

  lemma NothingUnsafe(piece: string)
    requires AllSafe(piece)
    ensures ReplaceUnsafe(piece) == piece
  {
    ReplaceUnsafeIsSafe(piece);
  }

  lemma FirstIsSafe(pieces: seq<string>, gaps: seq<string>)
    requires |pieces| == |gaps| + 1 && GapsAreUnsafe(pieces, gaps) && (gaps != [] ==> pieces[0] != "")
    ensures Gapped(pieces, gaps) != "" ==> Safe(Gapped(pieces, gaps)[0])
  {
  }

  predicate OnlyDashes(s: string) { forall i :: 0 <= i < |s| ==> s[i] == '-' }

  lemma {:induction false} TrimLeftDashesCuts(s: string) returns (front: string)
    ensures OnlyDashes(front) && s == front + TrimLeftDashes(s)
  {
    front := "";
    if s != "" && s[0] == '-' {
      front := TrimLeftDashesCuts(s[1..]);
      front := ['-'] + front;
    }
  }

  lemma {:induction false} TrimRightDashesCuts(s: string) returns (back: string)
    ensures OnlyDashes(back) && s == TrimRightDashes(s) + back
  {
    back := "";
    if s != "" && s[|s| - 1] == '-' {
      back := TrimRightDashesCuts(s[..|s| - 1]);
      assert s == s[..|s| - 1] + ['-'];
      back := back + ['-'];
    }
  }

  /** The slug of a text: its safe pieces in lower case joined by single dashes,
      without the dashes in front and behind. */
  lemma SlugJoinsPieces(lower: char -> char, s: string, pieces: seq<string>, gaps: seq<string>)
    returns (front: string, back: string)
    requires KeepsSafe(lower) && |pieces| == |gaps| + 1 && GapsAreUnsafe(pieces, gaps)
    requires Lower(lower, TrimSpace(s)) == Gapped(pieces, gaps)
    ensures Slug(SlugConnectionId(lower, s))
    ensures OnlyDashes(front) && OnlyDashes(back)
    ensures Join(pieces, '-') == front + SlugConnectionId(lower, s) + back
  {
    SlugIsSlug(lower, s);
    GapsBecomeDashes(pieces, gaps);
    var joined := Join(pieces, '-');
    front := TrimLeftDashesCuts(joined);
    back := TrimRightDashesCuts(TrimLeftDashes(joined));
  }

  /** What normalizing one connection makes of each field. */
  lemma FieldsAreNormalized(lower: char -> char, c: Connection)
    requires KeepsSafe(lower)
    ensures var r := NormalizedConnection(lower, c);
      var kind := if TrimSpace(c.kind) == "" then "local" else TrimSpace(c.kind);
      var slug := SlugConnectionId(lower, c.name);
      && r.kind == kind && r.host == TrimSpace(c.host) && r.username == TrimSpace(c.username)
      && r.workingDir == TrimSpace(c.workingDir) && r.description == c.description
      && r.port == (if kind == "ssh" && c.port == 0 then 22 else c.port)
      && r.name == (if TrimSpace(c.name) != "" then TrimSpace(c.name)
                    else if kind == "local" then "Local Shell"
                    else if kind == "ssh" then TrimSpace(c.host)
                    else "")
      && r.id == (if TrimSpace(c.id) != "" then TrimSpace(c.id) else if slug != "" then slug else kind)
  {
    TrimSpaceShape(c.name);
    SlugIsSlug(lower, c.name);
    TrimmedSlug(SlugConnectionId(lower, c.name));
  }

  lemma TrimmedSlug(s: string)
    requires Slug(s)
    ensures TrimDashes(s) == s
  {
  }

  /** The id in the list: its slug, or "connection" for an empty one, made unique
      among those in front; every other field as normalized on its own. */
  lemma {:induction false} ListIsNormalized(lower: char -> char, conns: seq<Connection>, i: nat)
    requires KeepsSafe(lower) && i < |conns|
    ensures var r, c := NormalizedList(lower, conns), NormalizedConnection(lower, conns[i]);
      var slug := SlugConnectionId(lower, c.id);
      && |r| == |conns| && r[i] == c.(id := r[i].id)
      && Numbered(r[i].id, if slug == "" then "connection" else slug, ConnectionIdSet(r[..i]))
  {
    hide NormalizedList, NormalizedConnection, SlugConnectionId, BaseSlug, Unique, ConnectionIdSet, Numbered;
    hide DistinctConnections, Settled, Decimal;
    var n := |conns| - 1;
    var done, c := NormalizedList(lower, conns[..n]), NormalizedConnection(lower, conns[n]);
    assert conns == conns[..n] + [conns[n]];
    NormalizedSnoc(lower, conns[..n], conns[n]);
    NormalizedAreDistinct(lower, conns);
    NormalizedAreDistinct(lower, conns[..n]);
    if i < n {
      ListIsNormalized(lower, conns[..n], i);
      assert NormalizedList(lower, conns)[..i] == done[..i];
    } else {
      IdIsNeverEmpty(lower, conns[n]);
      BaseSlugCases(lower, c.id);
      UniqueIsNumbered(BaseSlug(lower, c.id), ConnectionIdSet(done));
      assert NormalizedList(lower, conns)[..n] == done;
    }
  }

  lemma BaseSlugCases(lower: char -> char, id: string)
    ensures var slug := SlugConnectionId(lower, id);
      BaseSlug(lower, id) == if slug == "" then "connection" else slug
  {
  }

  lemma IdIsNeverEmpty(lower: char -> char, c: Connection)
    ensures NormalizedConnection(lower, c).id != ""
  {
  }
}
