/** Making ids unique with a number at the end (guis/guis.go, uniqueProfileID
    and normalizeLocked; terminal/connection.go, uniqueConnectionID;
    guis/connection_manager.go, duplicateConnectionProfile). */
module UniqueIds {
  import opened Text
  import opened Profiles

  // ---------------------------------------------------------------------------
  // Candidates
  // ---------------------------------------------------------------------------

  function Candidate(base: string, n: nat): string {
    if n <= 1 then base else base + ['-'] + Decimal(n)
  }

  lemma CandidateInjective(base: string, m: nat, n: nat)
    requires 1 <= m && 1 <= n && Candidate(base, m) == Candidate(base, n)
    ensures m == n
  {
    if m > 1 && n > 1 {
      SuffixInjective(base + ['-'], m, n);
    }
  }

  /** The first candidate from number n on that is not taken: a candidate that
      is taken uses up one taken id, so the search ends. */
  function FreeFrom(base: string, n: nat, taken: set<string>): string
    decreases |taken|
  {
    var c := Candidate(base, n);
    if c in taken then FreeFrom(base, n + 1, taken - {c}) else c
  }

  function Unique(base: string, taken: set<string>): string { FreeFrom(base, 1, taken) }

  /** id is candidate k, is free, and every candidate from n up to it is not. */
  predicate FirstFree(base: string, n: nat, taken: set<string>, id: string, k: nat) {
    && n <= k <= n + |taken| && id == Candidate(base, k) && id !in taken
    && forall j :: n <= j < k ==> Candidate(base, j) in taken
  }

  lemma {:induction false} FreeFromIsFirst(base: string, n: nat, taken: set<string>) returns (k: nat)
    requires 1 <= n
    ensures FirstFree(base, n, taken, FreeFrom(base, n, taken), k)
    decreases |taken|
  {
    var c := Candidate(base, n);
    k := n;
    if c in taken {
      k := FreeFromIsFirst(base, n + 1, taken - {c});
      if Candidate(base, k) == c { CandidateInjective(base, k, n); }
    }
  }

  /** The loop ends within |seen| + 1 candidates and takes the first free one. */
  lemma UniqueIsFirst(base: string, seen: set<string>)
    ensures exists k :: 1 <= k <= |seen| + 1 && FirstFree(base, 1, seen, Unique(base, seen), k)
    ensures Unique(base, seen) !in seen
  {
    var k := FreeFromIsFirst(base, 1, seen);
    assert FirstFree(base, 1, seen, Unique(base, seen), k);
  }

  predicate Tried(base: string, n: nat, id: string) {
    exists j :: 1 <= j < n && id == Candidate(base, j)
  }

  lemma TriedMore(base: string, n: nat, id: string)
    requires 1 <= n && (Tried(base, n, id) || id == Candidate(base, n))
    ensures Tried(base, n + 1, id)
  {
    if id != Candidate(base, n) {
      var j :| 1 <= j < n && id == Candidate(base, j);
    }
  }

  lemma NotTriedTwice(base: string, n: nat)
    requires 1 <= n
    ensures !Tried(base, n, Candidate(base, n))
  {
    forall j | 1 <= j < n ensures Candidate(base, n) != Candidate(base, j) {
      if Candidate(base, n) == Candidate(base, j) { CandidateInjective(base, n, j); }
    }
  }

  method UniqueCandidate(base: string, seen: set<string>) returns (candidate: string, tries: nat)
    ensures candidate == Unique(base, seen) && candidate !in seen
    ensures 1 <= tries <= |seen| + 1
  {
    candidate, tries := base, 1;
    var n := 2;
    ghost var left := seen;
    while true
      invariant n == tries + 1 && candidate == Candidate(base, tries)
      invariant left <= seen && tries + |left| == |seen| + 1
      invariant forall c :: c in seen && c !in left ==> Tried(base, tries, c)
      invariant FreeFrom(base, tries, left) == Unique(base, seen)
      decreases |left|
    {
      NotTriedTwice(base, tries);
      if candidate !in seen {
        return;
      }
      forall c | c in seen && c !in left - {candidate} ensures Tried(base, tries + 1, c) {
        TriedMore(base, tries, c);
      }
      left := left - {candidate};
      candidate := base + ['-'] + Decimal(n);
      tries := tries + 1;
      n := n + 1;
    }
  }

  // ---------------------------------------------------------------------------
  // The profile list
  // ---------------------------------------------------------------------------

  /** Localized texts for empty fields. */
  datatype Defaults = Defaults(name: string, group: string)

  function BaseId(id: string): string { if TrimSpace(id) == "" then "conn" else TrimSpace(id) }

  function StartId(id: string, nanos: int, i: nat): string {
    if id == "" then "conn-" + IntText(nanos) + ['-'] + Decimal(i) else id
  }

  function Ids(rows: seq<Profile>): set<string> { set p | p in rows :: p.id }

  function Filled(p: Profile, d: Defaults): Profile {
    var kind := if p.kind == "" then SSH else p.kind;
    p.(name := if p.name == "" then d.name else p.name,
       group := if p.group == "" then d.group else p.group,
       kind := kind,
       port := if kind == SSH && p.port == 0 then 22 else p.port)
  }

  /** clock gives the time at which row i is reached. */
  function NormalizedRows(rows: seq<Profile>, d: Defaults, clock: nat -> int): seq<Profile> {
    if rows == [] then []
    else
      var n := |rows| - 1;
      var done := NormalizedRows(rows[..n], d, clock);
      done + [Filled(rows[n], d).(id := Unique(BaseId(StartId(rows[n].id, clock(n), n)), Ids(done)))]
  }

  method NormalizeLocked(list: array<Profile>, d: Defaults, clock: nat -> int)
    modifies list
    ensures list[..] == NormalizedRows(old(list[..]), d, clock)
  {
    hide Filled, Unique, BaseId, StartId, Ids, NormalizedRows;
    var seen: set<string> := {};
    ghost var was := list[..];
    NormalizedNone(d, clock);
    for i := 0 to list.Length
      invariant list[..i] == NormalizedRows(was[..i], d, clock)
      invariant list[i..] == was[i..]
      invariant seen == Ids(list[..i])
    {
      ghost var done := list[..i];
      assert list[i] == list[i..][0] && was[i] == was[i..][0];
      assert was[..i + 1] == was[..i] + [was[i]];
      NormalizedSnoc(was[..i], was[i], d, clock);
      var p := NormalizeRow(list[i], i, clock(i), d, seen);
      seen := seen + {p.id};
      list[i] := p;
      assert list[..i + 1] == done + [p];
      IdsSnoc(done, p);
    }
    assert list[..list.Length] == list[..] && was[..list.Length] == was;
  }

  /** The body of the loop. */
  method NormalizeRow(row: Profile, i: nat, nanos: int, d: Defaults, seen: set<string>) returns (p: Profile)
    ensures p == Filled(row, d).(id := Unique(BaseId(StartId(row.id, nanos, i)), seen))
  {
    p := row;
    if p.id == "" {
      p := p.(id := "conn-" + IntText(nanos) + ['-'] + Decimal(i));
    }
    var base := TrimSpace(p.id);
    if base == "" {
      base := "conn";
    }
    var id, _ := UniqueCandidate(base, seen);
    p := p.(id := id);
    if p.name == "" {
      p := p.(name := d.name);
    }
    if p.group == "" {
      p := p.(group := d.group);
    }
    if p.kind == "" {
      p := p.(kind := SSH);
    }
    if p.kind == SSH && p.port == 0 {
      p := p.(port := 22);
    }
  }

  lemma NormalizedNone(d: Defaults, clock: nat -> int)
    ensures Ids([]) == {} && NormalizedRows([], d, clock) == []
  {
  }

  lemma NormalizedSnoc(rows: seq<Profile>, p: Profile, d: Defaults, clock: nat -> int)
    ensures var done, n := NormalizedRows(rows, d, clock), |rows|;
      NormalizedRows(rows + [p], d, clock) ==
        done + [Filled(p, d).(id := Unique(BaseId(StartId(p.id, clock(n), n)), Ids(done)))]
  {
    assert (rows + [p])[..|rows|] == rows;
  }

  lemma NotAmong(rows: seq<Profile>, id: string)
    requires forall i :: 0 <= i < |rows| ==> rows[i].id != id
    ensures id !in Ids(rows)
  {
  }

  lemma IdsSnoc(rows: seq<Profile>, p: Profile)
    ensures Ids(rows + [p]) == Ids(rows) + {p.id}
  {
    assert forall q :: q in rows + [p] <==> q in rows || q == p;
    forall id | id in Ids(rows) + {p.id} ensures id in Ids(rows + [p]) {
      if id == p.id { assert p in rows + [p]; }
    }
  }

  predicate DistinctIds(rows: seq<Profile>) {
    forall i, j :: 0 <= i < j < |rows| ==> rows[i].id != rows[j].id
  }

  predicate GoodId(id: string) { id != "" && Trimmed(id) }

  lemma CandidateIsGood(base: string, n: nat)
    requires GoodId(base)
    ensures GoodId(Candidate(base, n))
  {
    DecimalRoundTrip(n);
    var digits := Decimal(n);
    assert digits[|digits| - 1] in digits;
  }

  lemma BaseIsGood(id: string)
    ensures GoodId(BaseId(id))
    ensures GoodId(id) ==> BaseId(id) == id
  {
    TrimSpaceShape(id);
  }

  lemma UniqueIsGood(base: string, seen: set<string>)
    requires GoodId(base)
    ensures GoodId(Unique(base, seen))
  {
    UniqueIsFirst(base, seen);
    var k :| 1 <= k <= |seen| + 1 && FirstFree(base, 1, seen, Unique(base, seen), k);
    CandidateIsGood(base, k);
  }

  lemma NewIdIsDistinct(done: seq<Profile>, p: Profile)
    requires DistinctIds(done) && p.id !in Ids(done)
    ensures DistinctIds(done + [p])
  {
    assert forall i :: 0 <= i < |done| ==> done[i] in done && done[i].id in Ids(done);
  }

  /** After normalizing, every id is used once and every field is filled. */
  lemma {:induction false} NormalizedIdsAreDistinct(rows: seq<Profile>, d: Defaults, clock: nat -> int)
    ensures var r := NormalizedRows(rows, d, clock);
      && |r| == |rows| && DistinctIds(r)
      && forall i :: 0 <= i < |r| ==> GoodId(r[i].id) && r[i] == Filled(rows[i], d).(id := r[i].id)
  {
    hide Filled, Unique, BaseId, StartId, Ids, GoodId;
    if rows != [] {
      var n := |rows| - 1;
      NormalizedIdsAreDistinct(rows[..n], d, clock);
      var done, base := NormalizedRows(rows[..n], d, clock), BaseId(StartId(rows[n].id, clock(n), n));
      var last := Filled(rows[n], d).(id := Unique(base, Ids(done)));
      BaseIsGood(StartId(rows[n].id, clock(n), n));
      UniqueIsGood(base, Ids(done));
      UniqueIsFirst(base, Ids(done));
      NewIdIsDistinct(done, last);
      assert NormalizedRows(rows, d, clock) == done + [last];
    }
  }

  lemma FreeGoodIdStays(p: Profile, d: Defaults, nanos: int, i: nat, taken: set<string>)
    requires GoodId(p.id) && p.id !in taken
    ensures Filled(p, d).(id := Unique(BaseId(StartId(p.id, nanos, i)), taken)) == Filled(p, d)
  {
    BaseIsGood(p.id);
  }

  /** Ids that are good and distinct are left alone. */
  lemma {:induction false} GoodIdsStay(rows: seq<Profile>, d: Defaults, clock: nat -> int)
    requires DistinctIds(rows) && forall i :: 0 <= i < |rows| ==> GoodId(rows[i].id)
    ensures var r := NormalizedRows(rows, d, clock);
      |r| == |rows| && forall i :: 0 <= i < |rows| ==> r[i] == Filled(rows[i], d)
  {
    hide Unique, BaseId, StartId, GoodId, Ids;
    if rows != [] {
      var n := |rows| - 1;
      var done := NormalizedRows(rows[..n], d, clock);
      GoodIdsStay(rows[..n], d, clock);
      forall i | 0 <= i < n ensures done[i].id != rows[n].id {
        assert done[i] == Filled(rows[i], d);
      }
      NotAmong(done, rows[n].id);
      FreeGoodIdStays(rows[n], d, clock(n), n, Ids(done));
    }
  }

  /** Normalizing a normalized list changes nothing, at whatever time. */
  lemma NormalizeTwice(rows: seq<Profile>, d: Defaults, clock: nat -> int, later: nat -> int)
    ensures var once := NormalizedRows(rows, d, clock);
      NormalizedRows(once, d, later) == once
  {
    var once := NormalizedRows(rows, d, clock);
    NormalizedIdsAreDistinct(rows, d, clock);
    GoodIdsStay(once, d, later);
    forall i | 0 <= i < |once| ensures Filled(once[i], d) == once[i] {
      assert once[i] == Filled(rows[i], d).(id := once[i].id);
    }
  }

  // ---------------------------------------------------------------------------
  // The ids and fields spelled out
  // ---------------------------------------------------------------------------

  /** id is base, or base with a dash and the least number from 2 on that makes it
      free. */
  ghost predicate Numbered(id: string, base: string, taken: set<string>) {
    if base !in taken then id == base
    else exists k :: 2 <= k <= |taken| + 1 && NumberedBy(id, base, taken, k)
  }

  ghost predicate NumberedBy(id: string, base: string, taken: set<string>, k: nat) {
    && id == base + "-" + Decimal(k) && id !in taken
    && forall j :: 2 <= j < k ==> base + "-" + Decimal(j) in taken
  }

  lemma UniqueIsNumbered(base: string, taken: set<string>)
    ensures Numbered(Unique(base, taken), base, taken)
  {
    if base in taken {
      var k := FreeFromIsFirst(base, 1, taken);
      assert Candidate(base, 1) == base;
      forall j | 2 <= j < k ensures base + "-" + Decimal(j) in taken {
        assert Candidate(base, j) in taken;
      }
      assert NumberedBy(Unique(base, taken), base, taken, k);
    }
  }

  /** The row at i becomes r: its trimmed id, or one made of the time and the
      position where there was none, made unique among those in front; empty
      fields filled; the rest as it was. */
  ghost predicate RowNormalized(p: Profile, r: Profile, d: Defaults, nanos: int, i: nat, taken: set<string>) {
    var base :=
      if p.id == "" then "conn-" + IntText(nanos) + "-" + Decimal(i)
      else if TrimSpace(p.id) == "" then "conn"
      else TrimSpace(p.id);
    var kind := if p.kind == "" then "ssh" else p.kind;
    && Numbered(r.id, base, taken)
    && r == p.(
         id := r.id,
         name := if p.name == "" then d.name else p.name,
         group := if p.group == "" then d.group else p.group,
         kind := kind,
         port := if kind == "ssh" && p.port == 0 then 22 else p.port)
  }

  lemma OneRowNormalized(p: Profile, d: Defaults, nanos: int, i: nat, taken: set<string>)
    ensures RowNormalized(p, Filled(p, d).(id := Unique(BaseId(StartId(p.id, nanos, i)), taken)), d, nanos, i, taken)
  {
    hide Unique, Numbered;
    UniqueIsNumbered(BaseId(StartId(p.id, nanos, i)), taken);
    MadeIdIsTrimmed(nanos, i);
  }

  lemma {:induction false} RowsAreNormalized(rows: seq<Profile>, d: Defaults, clock: nat -> int, i: nat)
    requires i < |rows|
    ensures var r := NormalizedRows(rows, d, clock);
      |r| == |rows| && RowNormalized(rows[i], r[i], d, clock(i), i, Ids(r[..i]))
  {
    hide Filled, Unique, BaseId, StartId, Ids, RowNormalized, GoodId;
    var n := |rows| - 1;
    var done := NormalizedRows(rows[..n], d, clock);
    NormalizedIdsAreDistinct(rows, d, clock);
    NormalizedIdsAreDistinct(rows[..n], d, clock);
    if i < n {
      RowsAreNormalized(rows[..n], d, clock, i);
      assert NormalizedRows(rows, d, clock)[..i] == done[..i];
    } else {
      OneRowNormalized(rows[n], d, clock(n), n, Ids(done));
      assert NormalizedRows(rows, d, clock)[..n] == done;
    }
  }

  lemma MadeIdIsTrimmed(nanos: int, i: nat)
    ensures var id := "conn-" + IntText(nanos) + "-" + Decimal(i); id != "" && TrimSpace(id) == id
  {
    var id := "conn-" + IntText(nanos) + "-" + Decimal(i);
    DecimalRoundTrip(i);
    assert id[0] == 'c' && id[|id| - 1] == Decimal(i)[|Decimal(i)| - 1];
    assert Decimal(i)[|Decimal(i)| - 1] in Decimal(i);
    TrimSpaceShape(id);
  }
}
