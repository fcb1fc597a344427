/** Copying a profile under an id and a name that no other profile has
    (guis/connection_manager.go, duplicateConnectionProfile). */
module DuplicateProfile {
  import opened Text
  import opened Profiles
  import opened UniqueIds

  /** What is used of unicode.ToLower. */
  ghost predicate KeepsDigits(lower: char -> char) { forall c :: '0' <= c <= '9' ==> lower(c) == c }

  function BaseName(name: string): string { if TrimSpace(name) == "" then "Connection" else TrimSpace(name) }

  function CopyId(nonce: int, k: nat): string { Candidate("copy-" + IntText(nonce), k) }

  function CopyName(base: string, k: nat): string {
    base + if k <= 1 then " (Copy)" else " (Copy " + Decimal(k) + ")"
  }

  function NameKeys(lower: char -> char, rows: seq<Profile>): set<string> {
    set p | p in rows :: Lower(lower, TrimSpace(p.name))
  }

  lemma LowerConcat(lower: char -> char, a: string, b: string)
    ensures Lower(lower, a + b) == Lower(lower, a) + Lower(lower, b)
  {
  }

  lemma LowerDecimal(lower: char -> char, n: nat)
    requires KeepsDigits(lower)
    ensures Lower(lower, Decimal(n)) == Decimal(n)
  {
    DecimalRoundTrip(n);
    assert forall i :: 0 <= i < |Decimal(n)| ==> Decimal(n)[i] in Decimal(n);
  }

  lemma CopyNameInjective(lower: char -> char, base: string, m: nat, n: nat)
    requires KeepsDigits(lower) && 1 <= m && 1 <= n
    requires Lower(lower, CopyName(base, m)) == Lower(lower, CopyName(base, n))
    ensures m == n
  {
    DecimalRoundTrip(m);
    DecimalRoundTrip(n);
    if m > 1 && n > 1 {
      var front := base + " (Copy ";
      LoweredCopyName(lower, base, m);
      LoweredCopyName(lower, base, n);
      var a, b := Lower(lower, CopyName(base, m)), Lower(lower, CopyName(base, n));
      assert a[|front|..|a| - 1] == Decimal(m);
      assert b[|front|..|b| - 1] == Decimal(n);
      DecimalInjective(m, n);
    }
  }

  lemma LoweredCopyName(lower: char -> char, base: string, k: nat)
    requires KeepsDigits(lower) && k > 1
    ensures var front := base + " (Copy ";
      Lower(lower, CopyName(base, k)) == Lower(lower, front) + Decimal(k) + Lower(lower, ")")
  {
    var front := base + " (Copy ";
    assert CopyName(base, k) == (front + Decimal(k)) + ")";
    LowerConcat(lower, front + Decimal(k), ")");
    LowerConcat(lower, front, Decimal(k));
    LowerDecimal(lower, k);
  }

  /** Copy number k would clash with an existing profile. */
  predicate Clashes(lower: char -> char, base: string, nonce: int, ids: set<string>, names: set<string>, k: nat) {
    CopyId(nonce, k) in ids || Lower(lower, CopyName(base, k)) in names
  }

  predicate IdTried(nonce: int, n: nat, id: string) { exists j :: 1 <= j < n && id == CopyId(nonce, j) }

  predicate NameTried(lower: char -> char, base: string, n: nat, name: string) {
    exists j :: 1 <= j < n && name == Lower(lower, CopyName(base, j))
  }

  lemma NewCopyIsUntried(lower: char -> char, base: string, nonce: int, n: nat)
    requires KeepsDigits(lower) && 1 <= n
    ensures !IdTried(nonce, n, CopyId(nonce, n))
    ensures !NameTried(lower, base, n, Lower(lower, CopyName(base, n)))
  {
    forall j | 1 <= j < n
      ensures CopyId(nonce, j) != CopyId(nonce, n)
      ensures Lower(lower, CopyName(base, j)) != Lower(lower, CopyName(base, n))
    {
      if CopyId(nonce, j) == CopyId(nonce, n) { CandidateInjective("copy-" + IntText(nonce), j, n); }
      if Lower(lower, CopyName(base, j)) == Lower(lower, CopyName(base, n)) { CopyNameInjective(lower, base, j, n); }
    }
  }

  lemma TriedStays(lower: char -> char, base: string, nonce: int, n: nat, id: string, name: string)
    requires 1 <= n
    ensures IdTried(nonce, n, id) || id == CopyId(nonce, n) ==> IdTried(nonce, n + 1, id)
    ensures NameTried(lower, base, n, name) || name == Lower(lower, CopyName(base, n)) ==>
      NameTried(lower, base, n + 1, name)
  {
    if IdTried(nonce, n, id) { var j :| 1 <= j < n && id == CopyId(nonce, j); }
    if NameTried(lower, base, n, name) { var j :| 1 <= j < n && name == Lower(lower, CopyName(base, j)); }
  }

  /** The copy takes the first number that clashes with nothing, which is among
      the first |ids| + |names| + 1, and keeps every other field. */
  method DuplicateConnectionProfile(lower: char -> char, source: Profile, existing: seq<Profile>, nonce: int)
    returns (copy: Profile, k: nat)
    requires KeepsDigits(lower)
    ensures var base, ids, names := BaseName(source.name), Ids(existing), NameKeys(lower, existing);
      && 1 <= k <= |ids| + |names| + 1
      && !Clashes(lower, base, nonce, ids, names, k)
      && (forall j :: 1 <= j < k ==> Clashes(lower, base, nonce, ids, names, j))
      && copy == source.(id := CopyId(nonce, k), name := CopyName(base, k), favorite := false, lastUsed := "")
  {
    hide CopyId, CopyName, Ids, NameKeys;
    var fields := source.(favorite := false, lastUsed := "");
    var base := BaseName(source.name);
    var usedIds, usedNames := CollectKeys(lower, existing);
    k := 1;
    ghost var leftIds, leftNames := usedIds, usedNames;
    while true
      invariant 1 <= k && k + |leftIds| + |leftNames| <= |usedIds| + |usedNames| + 1
      invariant leftIds <= usedIds && leftNames <= usedNames
      invariant forall id :: id in usedIds && id !in leftIds ==> IdTried(nonce, k, id)
      invariant forall name :: name in usedNames && name !in leftNames ==> NameTried(lower, base, k, name)
      invariant forall j :: 1 <= j < k ==> Clashes(lower, base, nonce, usedIds, usedNames, j)
      decreases |leftIds| + |leftNames|
    {
      var id, name := CopyId(nonce, k), CopyName(base, k);
      NewCopyIsUntried(lower, base, nonce, k);
      if id !in usedIds && Lower(lower, name) !in usedNames {
        return fields.(id := id, name := name), k;
      }
      forall i, m { TriedStays(lower, base, nonce, k, i, m); }
      leftIds := leftIds - {id};
      leftNames := leftNames - {Lower(lower, name)};
      k := k + 1;
    }
  }

  method CollectKeys(lower: char -> char, existing: seq<Profile>) returns (usedIds: set<string>, usedNames: set<string>)
    ensures usedIds == Ids(existing) && usedNames == NameKeys(lower, existing)
  {
    usedIds, usedNames := {}, {};
    for i := 0 to |existing|
      invariant usedIds == Ids(existing[..i]) && usedNames == NameKeys(lower, existing[..i])
    {
      assert existing[..i + 1] == existing[..i] + [existing[i]];
      IdsSnoc(existing[..i], existing[i]);
      NameKeysSnoc(lower, existing[..i], existing[i]);
      usedIds := usedIds + {existing[i].id};
      usedNames := usedNames + {Lower(lower, TrimSpace(existing[i].name))};
    }
    assert existing[..|existing|] == existing;
  }

  lemma NameKeysSnoc(lower: char -> char, rows: seq<Profile>, p: Profile)
    ensures NameKeys(lower, rows + [p]) == NameKeys(lower, rows) + {Lower(lower, TrimSpace(p.name))}
  {
    assert forall q :: q in rows + [p] <==> q in rows || q == p;
    forall key | key in NameKeys(lower, rows) + {Lower(lower, TrimSpace(p.name))}
      ensures key in NameKeys(lower, rows + [p])
    {
      if key == Lower(lower, TrimSpace(p.name)) { assert p in rows + [p]; }
    }
  }

  /** Some profile has this id, or this name but for letter case and spaces
      around it. */
  ghost predicate InUse(lower: char -> char, existing: seq<Profile>, id: string, name: string) {
    exists i :: 0 <= i < |existing| && Like(lower, existing[i], id, name)
  }

  predicate Like(lower: char -> char, p: Profile, id: string, name: string) {
    p.id == id || Lower(lower, TrimSpace(p.name)) == Lower(lower, name)
  }

  /** The id and the name of copy number k, and what they clash with. */
  lemma CopySpelled(lower: char -> char, name: string, nonce: int, existing: seq<Profile>, k: nat)
    requires k >= 1
    ensures var base := if TrimSpace(name) == "" then "Connection" else TrimSpace(name);
      var id := "copy-" + IntText(nonce) + if k == 1 then "" else "-" + Decimal(k);
      var copied := base + if k == 1 then " (Copy)" else " (Copy " + Decimal(k) + ")";
      && CopyId(nonce, k) == id && CopyName(BaseName(name), k) == copied
      && (Clashes(lower, BaseName(name), nonce, Ids(existing), NameKeys(lower, existing), k) <==>
            InUse(lower, existing, id, copied))
  {
    var id, copied := CopyId(nonce, k), CopyName(BaseName(name), k);
    assert "copy-" + IntText(nonce) + "" == "copy-" + IntText(nonce);
    assert forall i :: 0 <= i < |existing| ==> existing[i] in existing;
    if id in Ids(existing) || Lower(lower, copied) in NameKeys(lower, existing) {
      var p :| p in existing && Like(lower, p, id, copied);
      var i :| 0 <= i < |existing| && existing[i] == p;
    }
  }
}
