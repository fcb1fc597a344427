/** The list of search results (guis/guis.go, filterConnections): the matching
    rows, sorted. */
module SearchFilter {
  import opened Outcomes
  import opened Text
  import opened Profiles
  import opened SearchTerms
  import opened SearchRank

  // ---------------------------------------------------------------------------
  // The order of the results
  // ---------------------------------------------------------------------------

  /** Go's < on strings; code points sort as their UTF-8 bytes do. */
  predicate TextLess(a: string, b: string) {
    if b == "" then false
    else if a == "" then true
    else if a[0] != b[0] then a[0] < b[0]
    else TextLess(a[1..], b[1..])
  }

  lemma {:induction false} TextLessTotal(a: string, b: string)
    ensures !(TextLess(a, b) && TextLess(b, a))
    ensures TextLess(a, b) || TextLess(b, a) || a == b
    decreases |a|
  {
    if a != "" && b != "" && a[0] == b[0] {
      TextLessTotal(a[1..], b[1..]);
      assert [a[0]] + a[1..] == a && [b[0]] + b[1..] == b;
    }
  }

  lemma {:induction false} TextLessTransitive(a: string, b: string, c: string)
    requires TextLess(a, b) && TextLess(b, c)
    ensures TextLess(a, c)
    decreases |a|
  {
    if a != "" && a[0] == b[0] == c[0] {
      TextLessTransitive(a[1..], b[1..], c[1..]);
    }
  }

  datatype Key = Key(rank: int, name: string, id: string)

  predicate KeyLess(a: Key, b: Key) {
    if a.rank != b.rank then a.rank < b.rank
    else if a.name != b.name then TextLess(a.name, b.name)
    else TextLess(a.id, b.id)
  }

  lemma KeyLessTotal(a: Key, b: Key)
    ensures !(KeyLess(a, b) && KeyLess(b, a))
    ensures KeyLess(a, b) || KeyLess(b, a) || a == b
  {
    TextLessTotal(a.name, b.name);
    TextLessTotal(a.id, b.id);
  }

  lemma KeyLessTransitive(a: Key, b: Key, c: Key)
    requires KeyLess(a, b) && KeyLess(b, c)
    ensures KeyLess(a, c)
  {
    if a.rank == b.rank == c.rank {
      if a.name != b.name && b.name != c.name {
        TextLessTransitive(a.name, b.name, c.name);
        TextLessTotal(a.name, b.name);
      } else if a.name == b.name == c.name {
        TextLessTransitive(a.id, b.id, c.id);
      }
    }
  }

  // ---------------------------------------------------------------------------
  // sort.SliceStable
  // ---------------------------------------------------------------------------

  datatype Row = Row(profile: Profile, key: Key)

  function InsertRow(x: Row, rows: seq<Row>): seq<Row> {
    if rows != [] && KeyLess(rows[0].key, x.key) then [rows[0]] + InsertRow(x, rows[1..]) else [x] + rows
  }

  function StableSort(rows: seq<Row>): seq<Row> {
    if rows == [] then [] else InsertRow(rows[0], StableSort(rows[1..]))
  }

  predicate Sorted(rows: seq<Row>) {
    forall i, j :: 0 <= i < j < |rows| ==> !KeyLess(rows[j].key, rows[i].key)
  }

  /** The rows with one key, in order. */
  function WithKey(rows: seq<Row>, key: Key): seq<Row> {
    if rows == [] then []
    else (if rows[0].key == key then [rows[0]] else []) + WithKey(rows[1..], key)
  }

  lemma {:induction false} InsertKeepsRows(x: Row, rows: seq<Row>)
    ensures multiset(InsertRow(x, rows)) == multiset{x} + multiset(rows)
  {
    if rows != [] && KeyLess(rows[0].key, x.key) {
      InsertKeepsRows(x, rows[1..]);
      assert rows == [rows[0]] + rows[1..];
    }
  }

  lemma {:induction false} InsertSorts(x: Row, rows: seq<Row>)
    requires Sorted(rows)
    ensures Sorted(InsertRow(x, rows))
  {
    if rows != [] && KeyLess(rows[0].key, x.key) {
      var tail := InsertRow(x, rows[1..]);
      InsertSorts(x, rows[1..]);
      InsertKeepsRows(x, rows[1..]);
      forall j | 0 <= j < |tail| ensures !KeyLess(tail[j].key, rows[0].key) {
        assert tail[j] in multiset(tail);
        KeyLessTotal(rows[0].key, x.key);
        assert tail[j] == x || tail[j] in rows[1..];
      }
    } else if rows != [] {
      forall j | 0 <= j < |rows| ensures !KeyLess(rows[j].key, x.key) {
        if KeyLess(rows[j].key, x.key) {
          KeyLessTotal(x.key, rows[0].key);
          if x.key != rows[0].key { KeyLessTransitive(rows[j].key, x.key, rows[0].key); }
        }
      }
    }
  }

  lemma {:induction false} InsertIsStable(x: Row, rows: seq<Row>, key: Key)
    ensures WithKey(InsertRow(x, rows), key) == (if x.key == key then [x] else []) + WithKey(rows, key)
  {
    if rows != [] && KeyLess(rows[0].key, x.key) {
      InsertIsStable(x, rows[1..], key);
      KeyLessTotal(rows[0].key, x.key);
    }
  }

  /** A stable sort: sorted, the same rows, equal keys in their old order. */
  lemma {:induction false} StableSortSorts(rows: seq<Row>)
    ensures Sorted(StableSort(rows))
    ensures multiset(StableSort(rows)) == multiset(rows)
    ensures forall key :: WithKey(StableSort(rows), key) == WithKey(rows, key)
  {
    if rows != [] {
      StableSortSorts(rows[1..]);
      InsertSorts(rows[0], StableSort(rows[1..]));
      InsertKeepsRows(rows[0], StableSort(rows[1..]));
      assert rows == [rows[0]] + rows[1..];
      forall key { InsertIsStable(rows[0], StableSort(rows[1..]), key); }
    }
  }

  // ---------------------------------------------------------------------------
  // filterConnections
  // ---------------------------------------------------------------------------

  /** The least of the scores, if there is one. */
  function BestOf(scores: seq<Option<nat>>): int {
    if scores == [] then 0
    else
      var n := |scores| - 1;
      var before := BestOf(scores[..n]);
      if scores[n].Some? && (!SomeScore(scores[..n]) || scores[n].value < before) then scores[n].value else before
  }

  lemma {:induction false} BestIsLeast(scores: seq<Option<nat>>)
    ensures if SomeScore(scores) then Least(scores, BestOf(scores)) else BestOf(scores) == 0
  {
    if scores != [] {
      var n := |scores| - 1;
      BestIsLeast(scores[..n]);
      LeastSnoc(scores[..n], scores[n], BestOf(scores[..n]));
      assert scores[..n] + [scores[n]] == scores;
    }
  }

  lemma LeastIsBest(scores: seq<Option<nat>>, rank: int)
    requires Least(scores, rank)
    ensures rank == BestOf(scores)
  {
    BestIsLeast(scores);
  }

  function RowOf(env: Env, p: Profile, query: string): Row {
    Row(p, Key(BestOf(QueryScores(env, p, Canonical(env.lower, query))), NameKey(env, p), p.id))
  }

  /** The matching rows in list order. */
  function Ranked(env: Env, profiles: seq<Profile>, query: string): seq<Row> {
    if profiles == [] then []
    else
      var last := profiles[|profiles| - 1];
      Ranked(env, profiles[..|profiles| - 1], query)
      + if Matches(env, last, query) then [RowOf(env, last, query)] else []
  }

  function ProfilesOf(rows: seq<Row>): (profiles: seq<Profile>)
    ensures |profiles| == |rows| && forall i :: 0 <= i < |rows| ==> profiles[i] == rows[i].profile
  {
    seq(|rows|, i requires 0 <= i < |rows| => rows[i].profile)
  }

  method FilterConnections(env: Env, profiles: seq<Profile>, query: string) returns (out: seq<Profile>)
    requires Lowering(env.lower)
    ensures out ==
      if TrimSpace(query) == "" then profiles else ProfilesOf(StableSort(Ranked(env, profiles, TrimSpace(query))))
  {
    var q := TrimSpace(query);
    if q == "" {
      return profiles;
    }
    TrimSpaceShape(query);
    var ranked := RankRows(env, profiles, q);
    var sorted := StableSort(ranked);
    out := [];
    for i := 0 to |sorted|
      invariant out == ProfilesOf(sorted)[..i]
    {
      out := out + [sorted[i].profile];
    }
  }

  method RankRows(env: Env, profiles: seq<Profile>, query: string) returns (ranked: seq<Row>)
    requires Lowering(env.lower) && TrimSpace(query) != ""
    ensures ranked == Ranked(env, profiles, query)
  {
    ranked := [];
    for i := 0 to |profiles|
      invariant ranked == Ranked(env, profiles[..i], query)
    {
      var row := profiles[i];
      assert profiles[..i + 1][..i] == profiles[..i];
      var rank, ok := ConnectionSearchRankAt(env, row, query);
      if ok {
        LeastIsBest(QueryScores(env, row, Canonical(env.lower, query)), rank);
        ranked := ranked + [Row(row, Key(rank, NameKey(env, row), row.id))];
      }
    }
    assert profiles[..|profiles|] == profiles;
  }

  // ---------------------------------------------------------------------------
  // What the list means
  // ---------------------------------------------------------------------------

  function Matching(env: Env, profiles: seq<Profile>, query: string): seq<Profile> {
    if profiles == [] then []
    else
      var last := profiles[|profiles| - 1];
      Matching(env, profiles[..|profiles| - 1], query) + if Matches(env, last, query) then [last] else []
  }

  lemma {:induction false} RankedIsMatching(env: Env, profiles: seq<Profile>, query: string)
    ensures ProfilesOf(Ranked(env, profiles, query)) == Matching(env, profiles, query)
    ensures forall row :: row in Ranked(env, profiles, query) ==>
      Matches(env, row.profile, query) && row == RowOf(env, row.profile, query)
  {
    if profiles != [] { RankedIsMatching(env, profiles[..|profiles| - 1], query); }
  }

  lemma {:induction false} InsertKeepsProfiles(x: Row, rows: seq<Row>)
    ensures multiset(ProfilesOf(InsertRow(x, rows))) == multiset{x.profile} + multiset(ProfilesOf(rows))
  {
    if rows != [] && KeyLess(rows[0].key, x.key) {
      InsertKeepsProfiles(x, rows[1..]);
      assert ProfilesOf(InsertRow(x, rows)) == [rows[0].profile] + ProfilesOf(InsertRow(x, rows[1..]));
      assert ProfilesOf(rows) == [rows[0].profile] + ProfilesOf(rows[1..]);
    } else {
      assert ProfilesOf([x] + rows) == [x.profile] + ProfilesOf(rows);
    }
  }

  lemma {:induction false} SortKeepsProfiles(rows: seq<Row>)
    ensures multiset(ProfilesOf(StableSort(rows))) == multiset(ProfilesOf(rows))
  {
    if rows != [] {
      SortKeepsProfiles(rows[1..]);
      InsertKeepsProfiles(rows[0], StableSort(rows[1..]));
      assert ProfilesOf(rows) == [rows[0].profile] + ProfilesOf(rows[1..]);
    }
  }

  /** The results are the matching profiles, each as often as it is listed. */
  lemma ResultIsMatching(env: Env, profiles: seq<Profile>, query: string)
    ensures multiset(ProfilesOf(StableSort(Ranked(env, profiles, query)))) == multiset(Matching(env, profiles, query))
  {
    RankedIsMatching(env, profiles, query);
    SortKeepsProfiles(Ranked(env, profiles, query));
  }

  /** They are sorted by best rank, then name, then id; equal profiles keep the
      order of the list. */
  lemma ResultIsOrdered(env: Env, profiles: seq<Profile>, query: string)
    ensures var sorted := StableSort(Ranked(env, profiles, query));
      && Sorted(sorted)
      && (forall key :: WithKey(sorted, key) == WithKey(Ranked(env, profiles, query), key))
      && (forall row :: row in sorted ==> row == RowOf(env, row.profile, query))
  {
    var ranked := Ranked(env, profiles, query);
    RankedIsMatching(env, profiles, query);
    StableSortSorts(ranked);
    forall row | row in StableSort(ranked) ensures row in ranked {
      assert row in multiset(ranked);
    }
  }

  /** a stands before b in a dictionary: it is a proper prefix of it, or smaller
      at the first position where they differ. */
  ghost predicate Precedes(a: string, b: string) {
    a < b || exists k :: 0 <= k < |a| && k < |b| && a[..k] == b[..k] && a[k] < b[k]
  }

  lemma PrecedesBehind(c: char, a: string, b: string)
    requires Precedes(a, b)
    ensures Precedes([c] + a, [c] + b)
  {
    var x, y := [c] + a, [c] + b;
    if a < b {
      assert y[..|x|] == x;
    } else {
      var k :| 0 <= k < |a| && k < |b| && a[..k] == b[..k] && a[k] < b[k];
      assert x[..k + 1] == [c] + a[..k] && y[..k + 1] == [c] + b[..k];
      assert x[k + 1] < y[k + 1];
    }
  }

  lemma PrecedesWithout(c: char, a: string, b: string)
    requires Precedes([c] + a, [c] + b)
    ensures Precedes(a, b)
  {
    var x, y := [c] + a, [c] + b;
    assert x[1..] == a && y[1..] == b;
    if x < y {
      assert y == x + y[|x|..];
      assert b == a + y[|x|..];
    } else {
      var k :| 0 <= k < |x| && k < |y| && x[..k] == y[..k] && x[k] < y[k];
      assert a[..k - 1] == x[..k][1..] && b[..k - 1] == y[..k][1..];
      assert a[k - 1] < b[k - 1];
    }
  }

  lemma {:induction false} TextLessPrecedes(a: string, b: string)
    ensures TextLess(a, b) <==> Precedes(a, b)
    decreases |a|
  {
    if a != "" && b != "" && a[0] == b[0] {
      hide Precedes;
      TextLessPrecedes(a[1..], b[1..]);
      assert a == [a[0]] + a[1..] && b == [a[0]] + b[1..];
      if Precedes(a[1..], b[1..]) { PrecedesBehind(a[0], a[1..], b[1..]); }
      if Precedes(a, b) { PrecedesWithout(a[0], a[1..], b[1..]); }
    } else if a != "" && b != "" {
      assert a[..0] == b[..0];
    }
  }

  /** One result stands before another only with a better rank, or with the same
      rank and a smaller lower-case name, or with both the same and an id that is
      not greater. */
  lemma EarlierIsBetter(env: Env, profiles: seq<Profile>, query: string, i: nat, j: nat)
    requires i < j < |StableSort(Ranked(env, profiles, query))|
    ensures var sorted := StableSort(Ranked(env, profiles, query));
      var a, b := sorted[i], sorted[j];
      var x, y := Lower(env.lower, TrimSpace(a.profile.name)), Lower(env.lower, TrimSpace(b.profile.name));
      && a.key.rank <= b.key.rank
      && (a.key.rank == b.key.rank ==> x == y || Precedes(x, y))
      && (a.key.rank == b.key.rank && x == y ==> a.profile.id == b.profile.id || Precedes(a.profile.id, b.profile.id))
  {
    var sorted := StableSort(Ranked(env, profiles, query));
    var a, b := sorted[i], sorted[j];
    ResultIsOrdered(env, profiles, query);
    assert a in sorted && b in sorted;
    hide QueryScores, StableSort, Ranked, BestOf, Lower, TrimSpace;
    TextLessTotal(a.key.name, b.key.name);
    TextLessTotal(a.key.id, b.key.id);
    TextLessPrecedes(a.key.name, b.key.name);
    TextLessPrecedes(a.key.id, b.key.id);
    assert !KeyLess(b.key, a.key);
  }

  /** The rank of a result is the score of an alternative, and none is lower. */
  lemma RankIsLeastScore(env: Env, profiles: seq<Profile>, query: string, i: nat)
    requires Lowering(env.lower) && Lower(env.lower, TrimSpace(query)) != ""
    requires i < |StableSort(Ranked(env, profiles, query))|
    ensures var row := StableSort(Ranked(env, profiles, query))[i];
      var scores := QueryScores(env, row.profile, Lower(env.lower, TrimSpace(query)));
      && (exists k :: 0 <= k < |scores| && scores[k].Some? && scores[k].value == row.key.rank)
      && (forall k :: 0 <= k < |scores| && scores[k].Some? ==> row.key.rank <= scores[k].value)
  {
    var row := StableSort(Ranked(env, profiles, query))[i];
    ResultIsOrdered(env, profiles, query);
    SortedMatches(env, profiles, query, row);
    BestIsLeast(QueryScores(env, row.profile, Canonical(env.lower, query)));
  }

  lemma SortedMatches(env: Env, profiles: seq<Profile>, query: string, row: Row)
    requires row in StableSort(Ranked(env, profiles, query))
    ensures Matches(env, row.profile, query)
  {
    hide Matches;
    StableSortSorts(Ranked(env, profiles, query));
    RankedIsMatching(env, profiles, query);
    assert row in multiset(StableSort(Ranked(env, profiles, query)));
  }
}
