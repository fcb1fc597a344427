/** Renaming and removing a group of connections (guis/connection_manager.go,
    renameConnectionGroup; guis/group_remove.go, removeConnectionGroup;
    guis/group_rename.go, affectedCount), and the list of groups. */
module GroupEdits {
  import opened Text
  import opened Profiles
  import opened GroupPaths

  datatype Refusal = NoGroup | NoNewPath | Unchanged | InsideItself | Gone

  datatype Edit = Edited(rows: seq<Profile>, changed: nat) | Refused(why: Refusal)

  // ---------------------------------------------------------------------------
  // The edits on component lists
  // ---------------------------------------------------------------------------

  predicate Under(path: seq<string>, p: Profile) { path <= Parts(p.group) }

  /** The components below path. */
  function Below(path: seq<string>, p: Profile): seq<string>
    requires Under(path, p)
  {
    Parts(p.group)[|path|..]
  }

  function CountUnder(path: seq<string>, rows: seq<Profile>): nat {
    if rows == [] then 0
    else CountUnder(path, rows[..|rows| - 1]) + if Under(path, rows[|rows| - 1]) then 1 else 0
  }

  function Renamed(from: seq<string>, to: seq<string>, p: Profile): Profile {
    if Under(from, p) then p.(group := Path(to + Below(from, p))) else p
  }

  function RenamedAll(from: seq<string>, to: seq<string>, rows: seq<Profile>): (r: seq<Profile>)
    ensures |r| == |rows| && forall i :: 0 <= i < |rows| ==> r[i] == Renamed(from, to, rows[i])
  {
    seq(|rows|, i requires 0 <= i < |rows| => Renamed(from, to, rows[i]))
  }

  function RenameEdit(rows: seq<Profile>, from: seq<string>, to: seq<string>): Edit {
    if from == [] then Refused(NoGroup)
    else if to == [] then Refused(NoNewPath)
    else if to == from then Refused(Unchanged)
    else if from <= to then Refused(InsideItself)
    else if CountUnder(from, rows) == 0 then Refused(Gone)
    else Edited(RenamedAll(from, to, rows), CountUnder(from, rows))
  }

  /** The node itself disappears: its last component is dropped. */
  function Removed(path: seq<string>, fallback: seq<string>, p: Profile): Profile {
    if path != [] && Under(path, p) then
      var kept := path[..|path| - 1] + Below(path, p);
      p.(group := Path(if kept == [] then fallback else kept))
    else p
  }

  function RemovedAll(path: seq<string>, fallback: seq<string>, rows: seq<Profile>): (r: seq<Profile>)
    ensures |r| == |rows| && forall i :: 0 <= i < |rows| ==> r[i] == Removed(path, fallback, rows[i])
  {
    seq(|rows|, i requires 0 <= i < |rows| => Removed(path, fallback, rows[i]))
  }

  function RemoveEdit(rows: seq<Profile>, path: seq<string>, fallback: seq<string>): Edit {
    if path == [] then Refused(NoGroup)
    else if CountUnder(path, rows) == 0 then Refused(Gone)
    else Edited(RemovedAll(path, fallback, rows), CountUnder(path, rows))
  }

  // ---------------------------------------------------------------------------
  // The edits of the program, on strings
  // ---------------------------------------------------------------------------

  /** strings.TrimPrefix */
  function TrimPrefix(s: string, prefix: string): string {
    if prefix <= s then s[|prefix|..] else s
  }

  method AffectedCount(oldPath: string, rows: seq<Profile>) returns (count: nat)
    ensures count == if Parts(oldPath) == [] then 0 else CountUnder(Parts(oldPath), rows)
  {
    count := 0;
    for i := 0 to |rows|
      invariant count == if Parts(oldPath) == [] then 0 else CountUnder(Parts(oldPath), rows[..i])
    {
      assert rows[..i + 1][..i] == rows[..i];
      GroupContainsIff(oldPath, rows[i].group);
      if GroupContainsPath(oldPath, rows[i].group) {
        count := count + 1;
      }
    }
    assert rows[..|rows|] == rows;
  }

  lemma RenamedGroup(from: seq<string>, to: seq<string>, group: seq<string>)
    requires Good(from) && from != [] && to != [] && Good(group) && from <= group
    ensures Path(to) + TrimPrefix(Path(group), Path(from)) == Path(to + group[|from|..])
  {
    var below := group[|from|..];
    assert group == from + below;
    if below == [] {
      assert group == from && to + below == to;
    } else {
      PathConcat(from, below);
      PathConcat(to, below);
      assert Path(group) == Path(from) + (['/'] + Path(below));
      assert Path(to) + (['/'] + Path(below)) == Path(to) + ['/'] + Path(below);
    }
  }

  /** One row of the rename loop. */
  lemma RenameRow(from: seq<string>, to: seq<string>, p: Profile)
    requires Good(from) && from != [] && to != []
    ensures var group := Normalized(p.group);
      && (StringContains(Path(from), group) <==> Under(from, p))
      && (Under(from, p) ==> Renamed(from, to, p) == p.(group := Path(to) + TrimPrefix(group, Path(from))))
  {
    PartsAreGood(p.group);
    ContainsIsPrefix(from, Parts(p.group));
    if Under(from, p) { RenamedGroup(from, to, Parts(p.group)); }
  }

  method RenameConnectionGroup(rows: seq<Profile>, oldGroup: string, newGroup: string) returns (r: Edit)
    ensures r == RenameEdit(rows, Parts(oldGroup), Parts(newGroup))
  {
    var oldPath := NormalizeConnectionGroup(oldGroup);
    var newPath := NormalizeConnectionGroup(newGroup);
    NormalizedIsStable(oldGroup);
    NormalizedIsStable(newGroup);
    if oldPath == "" {
      return Refused(NoGroup);
    }
    if newPath == "" {
      return Refused(NoNewPath);
    }
    PathsCompare(oldGroup, newGroup);
    if newPath == oldPath {
      return Refused(Unchanged);
    }
    if oldPath + ['/'] <= newPath {
      return Refused(InsideItself);
    }
    PartsAreGood(oldGroup);
    var next, changed := RenameRows(rows, oldPath, newPath, Parts(oldGroup), Parts(newGroup));
    if changed == 0 {
      return Refused(Gone);
    }
    return Edited(next, changed);
  }

  lemma PathsCompare(a: string, b: string)
    requires Parts(a) != []
    ensures Normalized(a) == Normalized(b) <==> Parts(a) == Parts(b)
    ensures StringContains(Normalized(a), Normalized(b)) <==> Parts(a) <= Parts(b)
  {
    PartsAreGood(a);
    PartsAreGood(b);
    ContainsIsPrefix(Parts(a), Parts(b));
    if Normalized(a) == Normalized(b) { PathInjective(Parts(a), Parts(b)); }
  }

  method RenameRows(rows: seq<Profile>, oldPath: string, newPath: string,
      ghost from: seq<string>, ghost to: seq<string>)
    returns (next: seq<Profile>, changed: nat)
    requires oldPath == Path(from) && newPath == Path(to) && Good(from) && from != [] && to != []
    ensures next == RenamedAll(from, to, rows) && changed == CountUnder(from, rows)
  {
    hide Parts;
    next, changed := rows, 0;
    for i := 0 to |rows|
      invariant |next| == |rows|
      invariant forall k :: 0 <= k < i ==> next[k] == Renamed(from, to, rows[k])
      invariant forall k :: i <= k < |rows| ==> next[k] == rows[k]
      invariant changed == CountUnder(from, rows[..i])
    {
      assert rows[..i + 1][..i] == rows[..i];
      RenameRow(from, to, rows[i]);
      var group := NormalizeConnectionGroup(next[i].group);
      if group != oldPath && !(oldPath + ['/'] <= group) {
        continue;
      }
      next := next[i := next[i].(group := newPath + TrimPrefix(group, oldPath))];
      changed := changed + 1;
    }
    assert rows[..|rows|] == rows;
  }

  /** strings.LastIndex for a slash. */
  function LastSlash(s: string): (i: int)
    ensures -1 <= i < |s|
    ensures i >= 0 ==> s[i] == '/'
    ensures forall k :: i < k < |s| ==> s[k] != '/'
  {
    if s == "" then -1
    else if s[|s| - 1] == '/' then |s| - 1
    else LastSlash(s[..|s| - 1])
  }

  function TrimLeftSlashes(s: string): string {
    if s != "" && s[0] == '/' then TrimLeftSlashes(s[1..]) else s
  }

  function TrimRightSlashes(s: string): string {
    if s != "" && s[|s| - 1] == '/' then TrimRightSlashes(s[..|s| - 1]) else s
  }

  /** strings.Trim(s, "/") */
  function TrimSlashes(s: string): string { TrimRightSlashes(TrimLeftSlashes(s)) }

  lemma SlashAddsNoPart(s: string)
    ensures Parts(['/'] + s) == Parts(s) && Parts(s + ['/']) == Parts(s)
  {
    assert ['/'] + s == "" + ['/'] + s && s + ['/'] == s + ['/'] + "";
    PartsConcat("", s);
    PartsConcat(s, "");
    PartsOfPath([]);
  }

  lemma {:induction false} TrimLeftSlashesParts(s: string)
    ensures Parts(TrimLeftSlashes(s)) == Parts(s)
  {
    hide Parts;
    if s != "" && s[0] == '/' {
      TrimLeftSlashesParts(s[1..]);
      SlashAddsNoPart(s[1..]);
      assert s == ['/'] + s[1..];
    }
  }

  lemma {:induction false} TrimRightSlashesParts(s: string)
    ensures Parts(TrimRightSlashes(s)) == Parts(s)
  {
    hide Parts;
    if s != "" && s[|s| - 1] == '/' {
      var init := s[..|s| - 1];
      TrimRightSlashesParts(init);
      SlashAddsNoPart(init);
      assert s == init + ['/'];
    }
  }

  lemma TrimSlashesParts(s: string)
    ensures Parts(TrimSlashes(s)) == Parts(s)
  {
    TrimLeftSlashesParts(s);
    TrimRightSlashesParts(TrimLeftSlashes(s));
  }

  function ParentOf(path: string): string {
    if LastSlash(path) >= 0 then path[..LastSlash(path)] else ""
  }

  lemma NoSlashInComponent(path: seq<string>)
    requires Good(path) && |path| == 1
    ensures ParentOf(Path(path)) == ""
  {
    var i := LastSlash(Path(path));
    assert forall k :: 0 <= k < |path[0]| ==> path[0][k] in path[0];
  }

  lemma ParentParts(path: seq<string>)
    requires Good(path) && path != []
    ensures Parts(ParentOf(Path(path))) == path[..|path| - 1]
  {
    var n := |path| - 1;
    var parent, last := path[..n], path[n];
    if n == 0 {
      NoSlashInComponent(path);
      PartsOfPath([]);
    } else {
      assert path == parent + [last];
      PathConcat(parent, [last]);
      var s, at := Path(path), |Path(parent)|;
      assert s == Path(parent) + ['/'] + last;
      assert s[at] == '/' && forall k :: at < k < |s| ==> s[k] == last[k - at - 1] && s[k] in last;
      assert LastSlash(s) == at;
      assert s[..at] == Path(parent);
      PartsOfPath(parent);
    }
  }

  lemma SuffixParts(path: seq<string>, group: seq<string>)
    requires Good(path) && path != [] && Good(group) && path <= group
    ensures Parts(TrimPrefix(TrimPrefix(Path(group), Path(path)), ['/'])) == group[|path|..]
  {
    var below := group[|path|..];
    assert group == path + below;
    if below == [] {
      assert group == path;
      PartsOfPath([]);
    } else {
      PathConcat(path, below);
      assert Path(group) == Path(path) + (['/'] + Path(below));
      PartsOfPath(below);
    }
  }

  lemma DestinationParts(parent: string, suffix: string)
    ensures Normalized(TrimSlashes(parent + ['/'] + suffix)) == Path(Parts(parent) + Parts(suffix))
  {
    TrimSlashesParts(parent + ['/'] + suffix);
    PartsConcat(parent, suffix);
  }

  lemma PathIsEmptyIff(parts: seq<string>)
    requires Good(parts)
    ensures Path(parts) == "" <==> parts == []
  {
    PartsOfPath(parts);
    PartsOfPath([]);
  }

  /** One row of the removal loop. */
  lemma RemoveRow(path: seq<string>, fallback: seq<string>, p: Profile)
    requires Good(path) && path != []
    ensures var group := Normalized(p.group);
      var suffix := TrimPrefix(TrimPrefix(group, Path(path)), ['/']);
      var destination := Normalized(TrimSlashes(ParentOf(Path(path)) + ['/'] + suffix));
      && (GroupContainsPath(Path(path), group) <==> Under(path, p))
      && (Under(path, p) ==>
            Removed(path, fallback, p) == p.(group := if destination == "" then Path(fallback) else destination))
  {
    hide Parts, ParentOf, TrimSlashes;
    PartsAreGood(p.group);
    NormalizedIsStable(p.group);
    PartsOfPath(path);
    GroupContainsIff(Path(path), Normalized(p.group));
    if Under(path, p) {
      var below := Below(path, p);
      ParentParts(path);
      SuffixParts(path, Parts(p.group));
      DestinationParts(ParentOf(Path(path)), TrimPrefix(TrimPrefix(Normalized(p.group), Path(path)), ['/']));
      PathIsEmptyIff(path[..|path| - 1] + below);
    }
  }

  method RemoveConnectionGroup(rows: seq<Profile>, rawPath: string, rawFallback: string) returns (r: Edit)
    ensures r == RemoveEdit(rows, Parts(rawPath), Parts(rawFallback))
  {
    var path := NormalizeConnectionGroup(rawPath);
    var fallback := NormalizeConnectionGroup(rawFallback);
    NormalizedIsStable(rawPath);
    PartsAreGood(rawPath);
    if path == "" {
      return Refused(NoGroup);
    }
    var next, changed := RemoveRows(rows, path, fallback, Parts(rawPath), Parts(rawFallback));
    if changed == 0 {
      return Refused(Gone);
    }
    return Edited(next, changed);
  }

  method RemoveRows(rows: seq<Profile>, path: string, fallback: string, ghost at: seq<string>, ghost other: seq<string>)
    returns (next: seq<Profile>, changed: nat)
    requires path == Path(at) && fallback == Path(other) && Good(at) && at != []
    ensures next == RemovedAll(at, other, rows) && changed == CountUnder(at, rows)
  {
    hide Parts, Path, ParentOf, TrimSlashes, TrimPrefix, GroupContainsPath;
    var parent := ParentOf(path);
    next, changed := rows, 0;
    for i := 0 to |rows|
      invariant |next| == |rows|
      invariant forall k :: 0 <= k < i ==> next[k] == Removed(at, other, rows[k])
      invariant forall k :: i <= k < |rows| ==> next[k] == rows[k]
      invariant changed == CountUnder(at, rows[..i])
    {
      assert rows[..i + 1][..i] == rows[..i];
      RemoveRow(at, other, rows[i]);
      var group := NormalizeConnectionGroup(next[i].group);
      if !GroupContainsPath(path, group) {
        continue;
      }
      var suffix := TrimPrefix(TrimPrefix(group, path), ['/']);
      var destination := NormalizeConnectionGroup(TrimSlashes(parent + ['/'] + suffix));
      if destination == "" {
        destination := fallback;
      }
      next := next[i := next[i].(group := destination)];
      changed := changed + 1;
    }
    assert rows[..|rows|] == rows;
  }

  // ---------------------------------------------------------------------------
  // What the edits mean
  // ---------------------------------------------------------------------------

  lemma RenamedParts(from: seq<string>, to: seq<string>, p: Profile)
    requires Good(from) && Good(to)
    ensures Parts(Renamed(from, to, p).group) ==
      if Under(from, p) then to + Below(from, p) else Parts(p.group)
  {
    PartsAreGood(p.group);
    if Under(from, p) { PartsOfPath(to + Below(from, p)); }
  }

  lemma RemovedParts(path: seq<string>, fallback: seq<string>, p: Profile)
    requires Good(path) && path != [] && Good(fallback)
    ensures Parts(Removed(path, fallback, p).group) ==
      if !Under(path, p) then Parts(p.group)
      else if |path| == 1 && Below(path, p) == [] then fallback
      else path[..|path| - 1] + Below(path, p)
  {
    PartsAreGood(p.group);
    PartsOfPath(fallback);
    if Under(path, p) { PartsOfPath(path[..|path| - 1] + Below(path, p)); }
  }

  lemma DropOne<T>(path: seq<T>, below: seq<T>)
    requires path != []
    ensures var n := |path| - 1; var after := path[..n] + below;
      && |after| >= n && path + below == after[..n] + [path[n]] + after[n..]
      && (path <= after <==> below != [] && below[0] == path[n])
  {
    var n := |path| - 1;
    var after := path[..n] + below;
    assert after[..n] == path[..n] && after[n..] == below;
    assert path == path[..n] + [path[n]];
    if path <= after { assert after[n] == path[n]; }
    if below != [] && below[0] == path[n] { assert after[..n + 1] == path; }
  }

  /** Removing a group deletes exactly one component of each row under it, unless
      nothing would be left of the path. */
  lemma RemovalDeletesOneComponent(path: seq<string>, fallback: seq<string>, p: Profile)
    requires Good(path) && path != [] && Good(fallback) && Under(path, p) && |Parts(p.group)| > 1
    ensures var before, after, n := Parts(p.group), Parts(Removed(path, fallback, p).group), |path| - 1;
      |after| == |before| - 1 && before == after[..n] + [path[n]] + after[n..]
  {
    RemovedParts(path, fallback, p);
    DropOne(path, Below(path, p));
    assert Parts(p.group) == path + Below(path, p);
  }

  /** A removed group can still hold rows: exactly those whose next component
      has the name of the removed one, or whose fallback lies in the group. */
  lemma StillUnderAfterRemovalIff(path: seq<string>, fallback: seq<string>, p: Profile)
    requires Good(path) && path != [] && Good(fallback)
    ensures Under(path, Removed(path, fallback, p)) <==>
      && Under(path, p)
      && var below := Below(path, p);
         if |path| == 1 && below == [] then path <= fallback
         else below != [] && below[0] == path[|path| - 1]
  {
    RemovedParts(path, fallback, p);
    if Under(path, p) { DropOne(path, Below(path, p)); }
  }

  lemma PrefixOfConcat<T>(from: seq<T>, to: seq<T>, below: seq<T>)
    requires !(from <= to)
    ensures from <= to + below <==> to <= from && from[|to|..] <= below
  {
    var after := to + below;
    if |from| <= |to| { assert after[..|from|] == to[..|from|]; }
    if from <= after {
      assert to == after[..|to|] == from[..|to|];
      assert from[|to|..] == after[|to|..|from|] == below[..|from| - |to|];
    }
    if to <= from && from[|to|..] <= below {
      assert from == to + from[|to|..];
      assert after[..|from|] == from;
    }
  }

  /** After a rename a row is under the old path only when the new path is an
      ancestor of it and the row repeats the part that was cut. */
  lemma StillUnderAfterRenameIff(from: seq<string>, to: seq<string>, p: Profile)
    requires Good(from) && Good(to) && !(from <= to)
    ensures Under(from, Renamed(from, to, p)) <==>
      Under(from, p) && to <= from && from[|to|..] <= Below(from, p)
  {
    RenamedParts(from, to, p);
    if Under(from, p) { PrefixOfConcat(from, to, Below(from, p)); }
  }

  lemma {:induction false} CountIsZeroIff(path: seq<string>, rows: seq<Profile>)
    ensures CountUnder(path, rows) == 0 <==> forall i :: 0 <= i < |rows| ==> !Under(path, rows[i])
  {
    hide Parts;
    if rows != [] { CountIsZeroIff(path, rows[..|rows| - 1]); }
  }

  /** The rows that may differ in their group text, but not in its components. */
  predicate SameGroups(a: seq<Profile>, b: seq<Profile>) {
    && |a| == |b|
    && forall i :: 0 <= i < |a| ==>
         a[i] == b[i].(group := a[i].group) && Parts(a[i].group) == Parts(b[i].group)
  }

  lemma PrefixesCompare<T>(a: seq<T>, b: seq<T>, s: seq<T>)
    requires a <= s && b <= s
    ensures a <= b || b <= a
  {
    if |a| <= |b| { assert b[..|a|] == s[..|a|] == a; } else { assert a[..|b|] == s[..|b|] == b; }
  }

  lemma RenameRowBack(from: seq<string>, to: seq<string>, p: Profile)
    requires Good(from) && Good(to) && !(from <= to) && !(to <= from)
    ensures Parts(Renamed(to, from, Renamed(from, to, p)).group) == Parts(p.group) <==> !Under(to, p)
  {
    hide Parts, Renamed;
    RenamedParts(from, to, p);
    var there := Renamed(from, to, p);
    RenamedParts(to, from, there);
    if Under(from, p) {
      assert Below(to, there) == Below(from, p);
      assert Parts(p.group) == from + Below(from, p);
      if Under(to, p) { PrefixesCompare(from, to, Parts(p.group)); }
    } else if Under(to, p) {
      assert from <= from + Below(to, p);
    }
  }

  lemma PrefixThrough<T>(a: seq<T>, b: seq<T>, s: seq<T>)
    requires a <= b && b <= s
    ensures a <= s
  {
    assert s[..|a|] == b[..|a|];
  }

  lemma SameGroupsIff(rows: seq<Profile>, from: seq<string>, to: seq<string>)
    requires Good(from) && Good(to) && !(from <= to) && !(to <= from)
    ensures SameGroups(RenamedAll(to, from, RenamedAll(from, to, rows)), rows) <==> CountUnder(to, rows) == 0
  {
    hide Parts, CountUnder;
    var back := RenamedAll(to, from, RenamedAll(from, to, rows));
    CountIsZeroIff(to, rows);
    forall i | 0 <= i < |rows|
      ensures back[i] == rows[i].(group := back[i].group)
      ensures Parts(back[i].group) == Parts(rows[i].group) <==> !Under(to, rows[i])
    {
      RenameRowBack(from, to, rows[i]);
    }
  }

  /** Rows under a path are under its ancestors, and after a rename they are
      under the new path. */
  lemma CountsAgree(rows: seq<Profile>, from: seq<string>, to: seq<string>)
    requires Good(from) && Good(to) && CountUnder(from, rows) > 0
    ensures to <= from ==> CountUnder(to, rows) > 0
    ensures CountUnder(to, RenamedAll(from, to, rows)) > 0
  {
    hide Parts, CountUnder;
    var there := RenamedAll(from, to, rows);
    CountIsZeroIff(from, rows);
    CountIsZeroIff(to, rows);
    CountIsZeroIff(to, there);
    var k :| 0 <= k < |rows| && Under(from, rows[k]);
    if to <= from { PrefixThrough(to, from, Parts(rows[k].group)); }
    RenamedParts(from, to, rows[k]);
    assert Under(to, there[k]);
  }

  /** Renaming a group and renaming it back restores every group exactly when no
      row was under the new path before. */
  lemma RenameBackRestoresIff(rows: seq<Profile>, from: seq<string>, to: seq<string>)
    requires Good(from) && Good(to) && RenameEdit(rows, from, to).Edited?
    ensures var back := RenameEdit(RenameEdit(rows, from, to).rows, to, from);
      (back.Edited? && SameGroups(back.rows, rows)) <==> CountUnder(to, rows) == 0
  {
    hide Good, CountUnder, RenamedAll, SameGroups;
    CountsAgree(rows, from, to);
    if !(to <= from) { SameGroupsIff(rows, from, to); }
  }

  /** The positions of the rows under a path. */
  function RowsUnder(path: seq<string>, rows: seq<Profile>): set<int> {
    set i | 0 <= i < |rows| && path <= Parts(rows[i].group)
  }

  lemma {:induction false} CountUnderCounts(path: seq<string>, rows: seq<Profile>)
    ensures CountUnder(path, rows) == |RowsUnder(path, rows)|
    ensures CountUnder(path, rows) == 0 <==> RowsUnder(path, rows) == {}
  {
    hide Parts;
    if rows == [] {
      assert RowsUnder(path, rows) == {};
    } else {
      var n := |rows| - 1;
      CountUnderCounts(path, rows[..n]);
      assert RowsUnder(path, rows) - {n} == RowsUnder(path, rows[..n]);
      assert n in RowsUnder(path, rows) ==> RowsUnder(path, rows) == RowsUnder(path, rows[..n]) + {n};
    }
  }

  /** Only the group of the row changes, to the path of these components. */
  predicate Regrouped(after: Profile, before: Profile, parts: seq<string>) {
    after == before.(group := Path(parts)) && Parts(after.group) == parts
  }

  /** Which renames are refused, why, and what the others do to every row. */
  lemma RenameMeaning(rows: seq<Profile>, oldGroup: string, newGroup: string)
    ensures var from, to := Parts(oldGroup), Parts(newGroup);
      var r, under := RenameEdit(rows, from, to), RowsUnder(from, rows);
      if from == [] then r == Refused(NoGroup)
      else if to == [] then r == Refused(NoNewPath)
      else if from == to then r == Refused(Unchanged)
      else if from < to then r == Refused(InsideItself)
      else if under == {} then r == Refused(Gone)
      else
        && r.Edited? && r.changed == |under| && |r.rows| == |rows|
        && forall i :: 0 <= i < |rows| ==>
             if i in under then Regrouped(r.rows[i], rows[i], to + Parts(rows[i].group)[|from|..])
             else r.rows[i] == rows[i]
  {
    hide Parts;
    var from, to := Parts(oldGroup), Parts(newGroup);
    PartsAreGood(oldGroup);
    PartsAreGood(newGroup);
    CountUnderCounts(from, rows);
    forall i | 0 <= i < |rows| { RenamedParts(from, to, rows[i]); }
  }

  /** The same for removals: the last component of the removed path disappears
      from every row under it; a row that would be left without a group gets the
      fallback. */
  lemma RemoveMeaning(rows: seq<Profile>, rawPath: string, rawFallback: string)
    ensures var path, fallback := Parts(rawPath), Parts(rawFallback);
      var r, under := RemoveEdit(rows, path, fallback), RowsUnder(path, rows);
      if path == [] then r == Refused(NoGroup)
      else if under == {} then r == Refused(Gone)
      else
        && r.Edited? && r.changed == |under| && |r.rows| == |rows|
        && forall i :: 0 <= i < |rows| ==>
             if i !in under then r.rows[i] == rows[i]
             else if |Parts(rows[i].group)| == 1 then Regrouped(r.rows[i], rows[i], fallback)
             else Regrouped(r.rows[i], rows[i], path[..|path| - 1] + Parts(rows[i].group)[|path|..])
  {
    hide Parts;
    var path, fallback := Parts(rawPath), Parts(rawFallback);
    PartsAreGood(rawPath);
    PartsAreGood(rawFallback);
    CountUnderCounts(path, rows);
    if path != [] {
      forall i | 0 <= i < |rows| { RemovedParts(path, fallback, rows[i]); }
    }
  }

  // ---------------------------------------------------------------------------
  // Rows for which an edit does not do what it seems to
  // ---------------------------------------------------------------------------

  lemma OnePath(a: string)
    requires Component(a)
    ensures Path([a]) == a && Parts(a) == [a]
  {
    PartsOfPath([a]);
  }

  lemma PathOf(a: string, rest: seq<string>)
    requires Component(a) && Good(rest) && rest != []
    ensures Parts(a + ['/'] + Path(rest)) == [a] + rest && Path([a] + rest) == a + ['/'] + Path(rest)
  {
    PathConcat([a], rest);
    PartsOfPath([a] + rest);
  }

  lemma LetterPaths()
    ensures Parts("A") == ["A"] && Parts("B") == ["B"]
    ensures Parts("A/A") == ["A", "A"] && Parts("A/B") == ["A", "B"] && Parts("A/B/B") == ["A", "B", "B"]
  {
    hide Parts, Path;
    assert Component("A") && Component("B");
    OnePath("A");
    OnePath("B");
    PathOf("A", ["A"]);
    PathOf("A", ["B"]);
    PathOf("B", ["B"]);
    PathOf("A", ["B", "B"]);
    assert "A" + ['/'] + "A" == "A/A" && "A" + ['/'] + "B" == "A/B" && "A" + ['/'] + "B/B" == "A/B/B";
    assert "B" + ['/'] + "B" == "B/B" && ["B"] + ["B"] == ["B", "B"] && ["A"] + ["B", "B"] == ["A", "B", "B"];
  }

  lemma OneRowUnder(path: seq<string>, p: Profile)
    ensures CountUnder(path, [p]) == if Under(path, p) then 1 else 0
  {
    assert [p][..0] == [];
  }

  /** The row A/A is under A after A has been removed. */
  lemma RemovedGroupMayRemain(p: Profile, fallback: seq<string>)
    requires p.group == "A/A" && Good(fallback)
    ensures var r := RemoveEdit([p], Parts("A"), fallback);
      r.Edited? && Under(Parts("A"), r.rows[0])
  {
    hide Parts;
    LetterPaths();
    assert Component("A");
    OneRowUnder(["A"], p);
    StillUnderAfterRemovalIff(["A"], fallback, p);
    assert Below(["A"], p) == ["A"];
  }

  /** The row A/B/B is under A/B after A/B has been renamed to A. */
  lemma RenamedGroupMayRemain(p: Profile)
    requires p.group == "A/B/B"
    ensures var r := RenameEdit([p], Parts("A/B"), Parts("A"));
      r.Edited? && Under(Parts("A/B"), r.rows[0])
  {
    hide Parts;
    LetterPaths();
    assert Component("A") && Component("B");
    OneRowUnder(["A", "B"], p);
    assert Parts(p.group) == ["A", "B"] + ["B"];
    assert Below(["A", "B"], p) == ["B"] && ["A", "B"][1..] == ["B"];
    StillUnderAfterRenameIff(["A", "B"], ["A"], p);
  }

  /** Renaming A to B and B back to A puts the rows of both into A. */
  lemma RenameBackMayMerge(p: Profile, q: Profile)
    requires p.group == "A" && q.group == "B"
    ensures var there := RenameEdit([p, q], Parts("A"), Parts("B"));
      && there.Edited?
      && var back := RenameEdit(there.rows, Parts("B"), Parts("A"));
         back.Edited? && back.rows == [p, q.(group := "A")]
  {
    hide Parts;
    LetterPaths();
    var rows := [p, q];
    assert rows[..1] == [p];
    OneRowUnder(["A"], p);
    var there := RenamedAll(["A"], ["B"], rows);
    assert Below(["A"], p) == [] && ["B"] + [] == ["B"];
    assert there == [p.(group := "B"), q];
    assert there[..1] == [there[0]];
    OneRowUnder(["B"], there[0]);
    assert Below(["B"], there[0]) == [] && Below(["B"], q) == [] && ["A"] + [] == ["A"];
    assert RenamedAll(["B"], ["A"], there) == [p, q.(group := "A")];
  }

  // ---------------------------------------------------------------------------
  // The groups on offer
  // ---------------------------------------------------------------------------

  /** Every group that holds a row, with its ancestors. */
  predicate IsOption(path: string, rows: seq<Profile>) {
    && path == Normalized(path) && path != ""
    && exists i :: 0 <= i < |rows| && GroupContainsPath(path, rows[i].group)
  }

  method GroupOptionPaths(rows: seq<Profile>) returns (unique: set<string>)
    ensures forall path :: path in unique <==> IsOption(path, rows)
  {
    hide Parts, GroupContainsPath;
    unique := {};
    for i := 0 to |rows|
      invariant forall path :: path in unique <==> IsOption(path, rows[..i])
    {
      var group := NormalizeConnectionGroup(rows[i].group);
      PartsAreGood(rows[i].group);
      var own := PathsOnto(group, Parts(rows[i].group));
      forall path ensures path in unique + own <==> IsOption(path, rows[..i + 1]) {
        GroupContainsIff(path, rows[i].group);
        NormalizedIsStable(path);
        assert rows[..i + 1] == rows[..i] + [rows[i]];
        OptionSnoc(path, rows[..i], rows[i]);
      }
      unique := unique + own;
    }
    assert rows[..|rows|] == rows;
  }

  lemma OptionSnoc(path: string, rows: seq<Profile>, p: Profile)
    ensures IsOption(path, rows + [p]) <==>
      IsOption(path, rows) || (path == Normalized(path) && path != "" && GroupContainsPath(path, p.group))
  {
    var more := rows + [p];
    assert more[|rows|] == p && forall i :: 0 <= i < |rows| ==> more[i] == rows[i];
  }

  /** The loop over the depths of one normalized group. */
  method PathsOnto(group: string, ghost own: seq<string>) returns (paths: set<string>)
    requires group == Path(own) && Good(own)
    ensures forall path :: path in paths <==> path == Normalized(path) && path != "" && Parts(path) <= own
  {
    var parts := Split(group, '/');
    if own != [] { SplitPath(own); }
    paths := {};
    var depth := 1;
    while depth <= |parts| && parts[0] != ""
      invariant 1 <= depth <= |parts| + 1
      invariant own == [] ==> paths == {}
      invariant own != [] ==> forall path :: path in paths <==> exists d :: 1 <= d < depth && path == Path(own[..d])
      decreases |parts| - depth
    {
      paths := paths + {Join(parts[..depth], '/')};
      depth := depth + 1;
    }
    forall path
      ensures path in paths <==> path == Normalized(path) && path != "" && Parts(path) <= own
    {
      PrefixIsOption(path, own);
    }
  }

  /** The paths of the nonempty prefixes of a list of components. */
  lemma PrefixIsOption(path: string, own: seq<string>)
    requires Good(own)
    ensures (exists d :: 1 <= d < |own| + 1 && path == Path(own[..d])) <==>
      (path == Normalized(path) && path != "" && Parts(path) <= own)
  {
    NormalizedIsStable(path);
    if exists d :: 1 <= d < |own| + 1 && path == Path(own[..d]) {
      var d :| 1 <= d < |own| + 1 && path == Path(own[..d]);
      PartsOfPath(own[..d]);
      PathIsEmptyIff(own[..d]);
    }
    if path == Normalized(path) && path != "" && Parts(path) <= own {
      PartsOfPath([]);
      var d := |Parts(path)|;
      assert own[..d] == Parts(path);
      assert path == Path(own[..d]);
    }
  }
}
