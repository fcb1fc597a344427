/** What the operations on tabs (guis/session_workspace.go) change and what they
    leave alone, field by field, on every workspace that a run can reach. */
module TabEffects {
  import opened Text
  import opened Profiles
  import opened Workspace
  import opened WorkspaceLaws

  /** t is s but for the tab at i, which is y. */
  predicate OnlyTab(s: State, t: State, i: int, y: Tab) {
    0 <= i < |s.tabs| && t == s.(tabs := s.tabs[i := y])
  }

  // ---------------------------------------------------------------------------
  // New tabs
  // ---------------------------------------------------------------------------

  /** n is 1, or one more than the largest number among the profile's tabs. */
  predicate NextNumber(tabs: seq<Tab>, profileId: string, n: nat) {
    && (forall i :: 0 <= i < |tabs| && tabs[i].profileId == profileId ==> tabs[i].instance < n)
    && (n == 1 || exists i :: 0 <= i < |tabs| && tabs[i].profileId == profileId && tabs[i].instance == n - 1)
  }

  lemma {:induction false} NextInstanceIsNext(tabs: seq<Tab>, profileId: string)
    ensures NextNumber(tabs, profileId, NextInstance(tabs, profileId))
  {
    if tabs != [] {
      NextInstanceIsNext(tabs[..|tabs| - 1], profileId);
    }
  }

  /** A tab that has just been opened: idle, unpinned, unmuted, unlocked, without
      a mark, and showing the welcome text. */
  predicate FreshTab(t: Tab, profile: Profile, welcome: string, directory: string) {
    && t.profileId == profile.id && t.profile == profile && t.directory == directory
    && t.content.output == welcome && t.content.draft == ""
    && t.content.terminalTitle == "" && t.content.customTitle == ""
    && !t.content.inputLocked && !t.attention && !t.muted && !t.pinned
    && t.status == Idle && t.runId == ""
  }

  /** t is s with one fresh tab behind the others, which is active. */
  ghost predicate OpenedLast(s: State, t: State, profile: Profile, welcome: string, directory: string) {
    var n := |s.tabs|;
    && |t.tabs| == n + 1 && t.tabs[..n] == s.tabs && t.active == n
    && FreshTab(t.tabs[n], profile, welcome, directory)
    && NextNumber(s.tabs, profile.id, t.tabs[n].instance)
    && t.nextId == s.nextId + 1 && t.tabs[n].id == "runtime-" + Decimal(t.nextId)
    && !IsOpen(s, t.tabs[n].id)
  }

  lemma OpenAddsFreshTab(s: State, profile: Profile, welcome: string)
    requires Inv(s)
    ensures var (t, index, created) := OpenSpec(s, profile, welcome);
      if TrimSpace(profile.id) == "" then t == s && index == -1 && !created
      else OpenedLast(s, t, profile, welcome, "") && t.closed == s.closed && index == t.active && created
  {
    NextInstanceIsNext(s.tabs, profile.id);
    var t := OpenSpec(s, profile, welcome).0;
    if !Blank(profile.id) {
      OpenKeepsInv(s, profile, welcome);
      forall i | 0 <= i < |s.tabs| ensures s.tabs[i].id != t.tabs[|s.tabs|].id {
        assert Apart(t.tabs[i], t.tabs[|s.tabs|]);
      }
    }
  }

  /** The copy runs in the current directory of the original, if that is known. */
  lemma DuplicateCopiesActive(s: State, welcome: string)
    requires Inv(s)
    ensures var (t, index, created) := DuplicateSpec(s, welcome);
      if !(0 <= s.active < |s.tabs|) then t == s && index == -1 && !created
      else
        var tab := s.tabs[s.active];
        var profile := if tab.directory == "" then tab.profile else tab.profile.(workingDir := tab.directory);
        OpenedLast(s, t, profile, welcome, tab.directory) && t.closed == s.closed && index == t.active && created
  {
    hide Inv, OpenSpec, OpenedLast;
    if HasActive(s) {
      var tab := s.tabs[s.active];
      var profile := if tab.directory == "" then tab.profile else tab.profile.(workingDir := tab.directory);
      TabsHaveProfiles(s, s.active);
      OpenAddsFreshTab(s, profile, welcome);
      var t := OpenSpec(s, profile, welcome).0;
      if tab.directory != "" {
        DirectoryKept(s, t, profile, welcome, tab.directory);
      }
    }
  }

  lemma TabsHaveProfiles(s: State, i: nat)
    requires Inv(s) && i < |s.tabs|
    ensures TrimSpace(s.tabs[i].profile.id) != "" && s.tabs[i].profileId == s.tabs[i].profile.id
  {
    assert TabOk(s.tabs[i], s.nextId);
  }

  lemma DirectoryKept(s: State, t: State, profile: Profile, welcome: string, directory: string)
    requires OpenedLast(s, t, profile, welcome, "")
    ensures t.active < |t.tabs|
    ensures OpenedLast(s, t.(tabs := t.tabs[t.active := t.tabs[t.active].(directory := directory)]),
                       profile, welcome, directory)
  {
  }

  // ---------------------------------------------------------------------------
  // Marks
  // ---------------------------------------------------------------------------

  /** Selecting a tab makes it active and clears its mark. */
  lemma SelectAcknowledges(s: State, index: int)
    ensures var (t, ok) := SelectSpec(s, index);
      && (ok <==> 0 <= index < |s.tabs|)
      && (!ok ==> t == s)
      && (ok ==> t.active == index && OnlyTab(s, t.(active := s.active), index, s.tabs[index].(attention := false)))
  {
  }

  /** A bell marks the tab unless it is muted; muting clears the mark, unmuting
      does not bring one back; after a bell, selecting the tab leaves no trace. */
  lemma BellMarks(s: State, i: nat, muted: bool)
    requires Inv(s) && i < |s.tabs|
    ensures var id, tab := s.tabs[i].id, s.tabs[i];
      var (rung, heard) := SetAttentionSpec(s, id);
      var (quiet, ok) := SetBellMutedSpec(s, id, muted);
      && heard == !tab.muted
      && OnlyTab(s, rung, i, if tab.muted then tab else tab.(attention := true))
      && ok && OnlyTab(s, quiet, i, tab.(muted := muted, attention := tab.attention && !muted))
      && SetAttentionSpec(quiet, id).1 == !muted
      && SelectSpec(rung, i).0 == SelectSpec(s, i).0
  {
    UniqueIndex(s.tabs, i);
    OpenIdIsNotBlank(s, s.tabs[i].id);
    SetBellMutedSpecFinds(s, i, muted);
    hide Inv, IndexOf, Blank;
  }

  lemma SetBellMutedSpecFinds(s: State, i: nat, muted: bool)
    requires Inv(s) && i < |s.tabs|
    ensures IndexOf(SetBellMutedSpec(s, s.tabs[i].id, muted).0.tabs, s.tabs[i].id) == i
  {
    UniqueIndex(s.tabs, i);
    OpenIdIsNotBlank(s, s.tabs[i].id);
    BellKeepsInv(s, s.tabs[i].id, muted);
    UniqueIndex(SetBellMutedSpec(s, s.tabs[i].id, muted).0.tabs, i);
  }

  /** An id that no tab has is refused by everything. */
  lemma UnknownIdIsRefused(s: State, id: string, muted: bool, field: Field)
    requires !IsOpen(s, id)
    ensures SetAttentionSpec(s, id) == (s, false) && SetBellMutedSpec(s, id, muted) == (s, false)
    ensures WriteSpec(s, id, field) == (s, false)
  {
  }

  // ---------------------------------------------------------------------------
  // Single fields
  // ---------------------------------------------------------------------------

  /** Each setter writes its own field of the tab with the id. */
  lemma WritesItsField(s: State, i: nat, text: string, locked: bool)
    requires Inv(s) && i < |s.tabs|
    ensures var tab, id := s.tabs[i], s.tabs[i].id;
      var c := tab.content;
      && OnlyTab(s, WriteSpec(s, id, MoreOutput(text)).0, i, tab.(content := c.(output := c.output + text)))
      && OnlyTab(s, WriteSpec(s, id, TerminalTitle(text)).0, i,
                 tab.(content := c.(terminalTitle := TrimSpace(text))))
      && OnlyTab(s, WriteSpec(s, id, CustomTitle(text)).0, i, tab.(content := c.(customTitle := TrimSpace(text))))
      && OnlyTab(s, WriteSpec(s, id, InputLocked(locked)).0, i, tab.(content := c.(inputLocked := locked)))
      && (if TrimSpace(text) == "" then WriteSpec(s, id, Directory(text)) == (s, false)
          else OnlyTab(s, WriteSpec(s, id, Directory(text)).0, i, tab.(directory := TrimSpace(text))))
  {
    hide Inv, WriteSpec, TrimSpace;
    WriteReachesTab(s, i, MoreOutput(text));
    WriteReachesTab(s, i, TerminalTitle(text));
    WriteReachesTab(s, i, CustomTitle(text));
    WriteReachesTab(s, i, InputLocked(locked));
    WriteReachesTab(s, i, Directory(text));
  }

  lemma WriteReachesTab(s: State, i: nat, field: Field)
    requires Inv(s) && i < |s.tabs|
    ensures WriteSpec(s, s.tabs[i].id, field) ==
      if field.Directory? && TrimSpace(field.text) == "" then (s, false)
      else (s.(tabs := s.tabs[i := Written(s.tabs[i], field)]), true)
  {
    UniqueIndex(s.tabs, i);
    OpenIdIsNotBlank(s, s.tabs[i].id);
    hide Inv, IndexOf, TrimSpace;
  }

  /** And those for the active tab write theirs. */
  lemma WritesActiveField(s: State, text: string)
    ensures if 0 <= s.active < |s.tabs| then
        var tab, c := s.tabs[s.active], s.tabs[s.active].content;
        && OnlyTab(s, WriteActiveSpec(s, Draft(text)).0, s.active, tab.(content := c.(draft := text)))
        && OnlyTab(s, WriteActiveSpec(s, Output(text)).0, s.active, tab.(content := c.(output := text)))
        && OnlyTab(s, WriteActiveSpec(s, MoreOutput(text)).0, s.active,
                   tab.(content := c.(output := c.output + text)))
      else
        && WriteActiveSpec(s, Draft(text)) == (s, false) && WriteActiveSpec(s, Output(text)) == (s, false)
        && WriteActiveSpec(s, MoreOutput(text)) == (s, false)
  {
  }

  // ---------------------------------------------------------------------------
  // Runs
  // ---------------------------------------------------------------------------

  /** A run begins exactly on an active tab that is not running, under an id that
      is not blank; otherwise nothing changes. */
  lemma RunBeginsIff(s: State, runId: string)
    ensures var (t, ok) := BeginRunSpec(s, runId);
      && (ok <==> 0 <= s.active < |s.tabs| && s.tabs[s.active].status != Running && TrimSpace(runId) != "")
      && (!ok ==> t == s)
  {
  }

  /** Beginning and finishing a run changes the status of the active tab, and
      nothing else. */
  lemma RunThenFinish(s: State, runId: string, status: Status)
    requires Inv(s) && 0 <= s.active < |s.tabs| && TrimSpace(runId) != ""
    requires !s.tabs[s.active].status.Running?
    requires forall i :: 0 <= i < |s.tabs| ==> s.tabs[i].runId != runId
    ensures var (t, ok) := BeginRunSpec(s, runId);
      var (u, finished) := FinishRunSpec(t, runId, status);
      && ok && finished
      && OnlyTab(s, t, s.active, s.tabs[s.active].(status := Running, runId := runId))
      && OnlyTab(s, u, s.active, s.tabs[s.active].(status := status))
      && FinishRunSpec(s, runId, status) == (s, false)
  {
    var a := s.active;
    assert TabOk(s.tabs[a], s.nextId) && s.tabs[a].runId == "";
    var t := BeginRunSpec(s, runId).0;
    assert t.tabs[a].runId == runId && t.tabs[a].status.Running?;
    assert RunIndexFrom(t.tabs, runId, 0) == a;
    var u := FinishRunSpec(t, runId, status).0;
    assert u.tabs == s.tabs[a := s.tabs[a].(status := status)];
  }

  // ---------------------------------------------------------------------------
  // Neighbours
  // ---------------------------------------------------------------------------

  lemma NextPlaces<T>(s: seq<T>, a: nat, b: nat)
    requires a < |s| && b < |s| && (b == a + 1 || b + 1 == a)
    ensures InsertAt(RemoveAt(s, a), b, s[a]) == s[a := s[b]][b := s[a]]
  {
    var rest := RemoveAt(s, a);
    RemoveShape(s, a);
    hide RemoveAt;
    var moved, swapped := InsertAt(rest, b, s[a]), s[a := s[b]][b := s[a]];
    forall i | 0 <= i < |s| ensures moved[i] == swapped[i] {
      if i < b { assert moved[i] == rest[i]; } else if i > b { assert moved[i] == rest[i - 1]; }
    }
  }

  lemma MovedTabIsFocused(s: State, b: nat)
    requires Inv(s) && HasActive(s) && b < |s.tabs|
    ensures var moved := InsertAt(RemoveAt(s.tabs, s.active), b, s.tabs[s.active]);
      Refocus(s, moved) == s.(tabs := moved, active := b)
  {
    var moved := InsertAt(RemoveAt(s.tabs, s.active), b, s.tabs[s.active]);
    ReinsertAt(s.tabs, s.active, b, s.tabs[s.active]);
    ReinsertKeepsApart(s.tabs, s.active, b, s.tabs[s.active]);
    UniqueIndex(moved, b);
  }

  /** Moving the active tab by one exchanges it with its neighbour, if there is
      one on that side which is pinned or unpinned like it. */
  lemma MoveActiveSwaps(s: State, delta: int)
    requires Inv(s)
    ensures var (t, ok) := MoveActiveSpec(s, delta);
      var a, b := s.active, s.active + delta;
      if (delta == 1 || delta == -1) && 0 <= a < |s.tabs| && 0 <= b < |s.tabs| && s.tabs[a].pinned == s.tabs[b].pinned
      then ok && t == s.(tabs := s.tabs[a := s.tabs[b]][b := s.tabs[a]], active := b)
      else !ok && t == s
  {
    hide Refocus, InsertAt, RemoveAt, Inv;
    if (delta == 1 || delta == -1) && HasActive(s) {
      var a, b := s.active, s.active + delta;
      ActiveIsFound(s);
      if 0 <= b < |s.tabs| && s.tabs[a].pinned == s.tabs[b].pinned {
        NextPlaces(s.tabs, a, b);
        MovedTabIsFocused(s, b);
      }
    }
  }

  lemma ActiveIsFound(s: State)
    requires Inv(s) && HasActive(s)
    ensures IndexOf(s.tabs, s.tabs[s.active].id) == s.active && !Blank(s.tabs[s.active].id)
  {
    UniqueIndex(s.tabs, s.active);
    OpenIdIsNotBlank(s, s.tabs[s.active].id);
  }
}
