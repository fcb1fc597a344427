/** sessionWorkspace (guis/session_workspace.go): the open terminal tabs.

    State and the ...Spec functions say what each operation does to the whole
    workspace; the class performs it in place and is proved against them. */
module Workspace {
  import opened Text
  import opened Profiles

  datatype Status = Idle | Running | Succeeded | Failed | Stopped

  /** The tab-local fields that no other operation reads. */
  datatype Content = Content(
    draft: string,
    output: string,
    terminalTitle: string,
    customTitle: string,
    inputLocked: bool)

  /** What the setters of single fields write. */
  datatype Field =
    | Draft(text: string)
    | Output(text: string)
    | MoreOutput(text: string)
    | TerminalTitle(text: string)
    | CustomTitle(text: string)
    | Directory(text: string)
    | InputLocked(locked: bool)

  datatype Tab = Tab(
    id: string,
    profileId: string,
    instance: nat,
    profile: Profile,
    content: Content,
    directory: string,
    attention: bool,
    muted: bool,
    pinned: bool,
    status: Status,
    runId: string)

  datatype State = State(tabs: seq<Tab>, active: int, nextId: nat, closed: seq<Profile>)

  const EMPTY := State([], -1, 0, [])
  const MAX_CLOSED := 20

  function RuntimeName(n: nat): string { "runtime-" + Decimal(n) }

  predicate Blank(s: string) { TrimSpace(s) == "" }

  predicate HasActive(s: State) { 0 <= s.active < |s.tabs| }

  /** The first index at or after from whose tab has this id, or -1. */
  function IndexFrom(tabs: seq<Tab>, id: string, from: nat): (i: int)
    requires from <= |tabs|
    ensures i == -1 || (from <= i < |tabs| && tabs[i].id == id)
    ensures forall j :: from <= j < (if i == -1 then |tabs| else i) ==> tabs[j].id != id
    decreases |tabs| - from
  {
    if from == |tabs| then -1
    else if tabs[from].id == id then from
    else IndexFrom(tabs, id, from + 1)
  }

  function IndexOf(tabs: seq<Tab>, id: string): int { IndexFrom(tabs, id, 0) }

  function RemoveAt<T>(s: seq<T>, i: nat): seq<T>
    requires i < |s|
  {
    s[..i] + s[i + 1..]
  }

  function InsertAt<T>(s: seq<T>, i: nat, x: T): seq<T>
    requires i <= |s|
  {
    s[..i] + [x] + s[i..]
  }

  /** The number of leading pinned tabs. */
  function Boundary(tabs: seq<Tab>): (n: nat)
    ensures n <= |tabs|
    ensures forall i :: 0 <= i < n ==> tabs[i].pinned
    ensures n < |tabs| ==> !tabs[n].pinned
  {
    if tabs != [] && tabs[0].pinned then 1 + Boundary(tabs[1..]) else 0
  }

  /** One more than the largest instance number of the profile, at least 1. */
  function NextInstance(tabs: seq<Tab>, profileId: string): (n: nat)
    ensures n >= 1
    ensures forall t :: t in tabs && t.profileId == profileId ==> t.instance < n
  {
    if tabs == [] then 1
    else
      var last := tabs[|tabs| - 1];
      var n := NextInstance(tabs[..|tabs| - 1], profileId);
      if last.profileId == profileId && last.instance >= n then last.instance + 1 else n
  }

  /** The active index is moved to where the active tab went. */
  function Refocus(s: State, tabs: seq<Tab>): State {
    var i := IndexOf(tabs, if HasActive(s) then s.tabs[s.active].id else "");
    s.(tabs := tabs, active := if i >= 0 then i else s.active)
  }

  // ---------------------------------------------------------------------------
  // What the operations do
  // ---------------------------------------------------------------------------

  function OpenSpec(s: State, profile: Profile, welcome: string): (State, int, bool) {
    if Blank(profile.id) then (s, -1, false)
    else
      var tab := Tab(RuntimeName(s.nextId + 1), profile.id, NextInstance(s.tabs, profile.id), profile,
                     Content("", welcome, "", "", false), "", false, false, false, Idle, "");
      (s.(tabs := s.tabs + [tab], active := |s.tabs|, nextId := s.nextId + 1), |s.tabs|, true)
  }

  function SelectSpec(s: State, index: int): (State, bool) {
    if !(0 <= index < |s.tabs|) then (s, false)
    else (s.(tabs := s.tabs[index := s.tabs[index].(attention := false)], active := index), true)
  }

  predicate CanMove(s: State, id: string, target: int) {
    && !Blank(id) && 0 <= target < |s.tabs|
    && IndexOf(s.tabs, id) >= 0
    && IndexOf(s.tabs, id) != target
    && s.tabs[IndexOf(s.tabs, id)].pinned == s.tabs[target].pinned
  }

  function MoveSpec(s: State, id: string, target: int): (State, bool) {
    if !CanMove(s, id, target) then (s, false)
    else
      var from := IndexOf(s.tabs, id);
      (Refocus(s, InsertAt(RemoveAt(s.tabs, from), target, s.tabs[from])), true)
  }

  function MoveActiveSpec(s: State, delta: int): (State, bool) {
    if (delta != -1 && delta != 1) || !HasActive(s) then (s, false)
    else MoveSpec(s, s.tabs[s.active].id, s.active + delta)
  }

  function SetAttentionSpec(s: State, id: string): (State, bool) {
    var i := IndexOf(s.tabs, id);
    if Blank(id) || i < 0 || s.tabs[i].muted then (s, false)
    else (s.(tabs := s.tabs[i := s.tabs[i].(attention := true)]), true)
  }

  function SetBellMutedSpec(s: State, id: string, muted: bool): (State, bool) {
    var i := IndexOf(s.tabs, id);
    if Blank(id) || i < 0 then (s, false)
    else
      var tab := s.tabs[i].(muted := muted, attention := !muted && s.tabs[i].attention);
      (s.(tabs := s.tabs[i := tab]), true)
  }

  function SetPinnedSpec(s: State, id: string, pinned: bool): (State, bool) {
    var i := IndexOf(s.tabs, id);
    if Blank(id) || i < 0 then (s, false)
    else if s.tabs[i].pinned == pinned then (s, true)
    else
      var rest := RemoveAt(s.tabs, i);
      (Refocus(s, InsertAt(rest, Boundary(rest), s.tabs[i].(pinned := pinned))), true)
  }

  function Written(tab: Tab, field: Field): Tab {
    var c := tab.content;
    match field
    case Draft(text) => tab.(content := c.(draft := text))
    case Output(text) => tab.(content := c.(output := text))
    case MoreOutput(text) => tab.(content := c.(output := c.output + text))
    case TerminalTitle(text) => tab.(content := c.(terminalTitle := TrimSpace(text)))
    case CustomTitle(text) => tab.(content := c.(customTitle := TrimSpace(text)))
    case Directory(text) => tab.(directory := TrimSpace(text))
    case InputLocked(locked) => tab.(content := c.(inputLocked := locked))
  }

  function WriteAt(s: State, i: int, field: Field): (State, bool) {
    if !(0 <= i < |s.tabs|) then (s, false)
    else (s.(tabs := s.tabs[i := Written(s.tabs[i], field)]), true)
  }

  /** AppendOutput alone does not look whether the id is blank; a blank
      directory is refused. */
  function WriteSpec(s: State, id: string, field: Field): (State, bool) {
    if (Blank(id) && !field.MoreOutput?) || (field.Directory? && Blank(field.text)) then (s, false)
    else WriteAt(s, IndexOf(s.tabs, id), field)
  }

  function WriteActiveSpec(s: State, field: Field): (State, bool) { WriteAt(s, s.active, field) }

  function BeginRunSpec(s: State, runId: string): (State, bool) {
    if !HasActive(s) || Blank(runId) || s.tabs[s.active].status.Running? then (s, false)
    else (s.(tabs := s.tabs[s.active := s.tabs[s.active].(status := Running, runId := runId)]), true)
  }

  /** The first running tab at or after from with this run id, or -1. */
  function RunIndexFrom(tabs: seq<Tab>, runId: string, from: nat): (i: int)
    requires from <= |tabs|
    ensures i == -1 || (from <= i < |tabs| && tabs[i].runId == runId && tabs[i].status.Running?)
    ensures forall j :: from <= j < (if i == -1 then |tabs| else i) ==>
      !(tabs[j].runId == runId && tabs[j].status.Running?)
    decreases |tabs| - from
  {
    if from == |tabs| then -1
    else if tabs[from].runId == runId && tabs[from].status.Running? then from
    else RunIndexFrom(tabs, runId, from + 1)
  }

  function FinishRunSpec(s: State, runId: string, status: Status): (State, bool) {
    var i := RunIndexFrom(s.tabs, runId, 0);
    if Blank(runId) || i < 0 then (s, false)
    else (s.(tabs := s.tabs[i := s.tabs[i].(status := status, runId := "")]), true)
  }

  function Remember(closed: seq<Profile>, profile: Profile): seq<Profile> {
    var all := closed + [profile];
    if |all| > MAX_CLOSED then all[|all| - MAX_CLOSED..] else all
  }

  predicate CanClose(s: State, index: int) {
    0 <= index < |s.tabs| && !s.tabs[index].status.Running? && !s.tabs[index].pinned
  }

  function CloseSpec(s: State, index: int): (State, bool) {
    if !CanClose(s, index) then (s, false)
    else
      var tabs := RemoveAt(s.tabs, index);
      var active :=
        if tabs == [] then -1
        else if index == s.active then (if index >= |tabs| then |tabs| - 1 else index)
        else if index < s.active then s.active - 1
        else s.active;
      (s.(tabs := tabs, active := active, closed := Remember(s.closed, s.tabs[index].profile)), true)
  }

  function ReopenSpec(s: State, welcome: string): (State, int, bool) {
    if s.closed == [] then (s, -1, false)
    else
      var last := |s.closed| - 1;
      var (t, index, created) := OpenSpec(s.(closed := s.closed[..last]), s.closed[last], welcome);
      if created then (t, index, true) else (s, index, false)
  }

  function DuplicateSpec(s: State, welcome: string): (State, int, bool) {
    if !HasActive(s) then (s, -1, false)
    else
      var tab := s.tabs[s.active];
      var profile := if tab.directory == "" then tab.profile else tab.profile.(workingDir := tab.directory);
      var (t, index, created) := OpenSpec(s, profile, welcome);
      if created && tab.directory != ""
      then (t.(tabs := t.tabs[index := t.tabs[index].(directory := tab.directory)]), index, true)
      else (t, index, created)
  }

  /** Shifting the stretch between from and target by one and then overwriting
      target, as copy does in place, is taking the element out and putting it
      back in at target. */
  lemma ShiftThenPut<T>(s: seq<T>, from: nat, target: nat)
    requires from < |s| && target < |s|
    ensures from < target ==>
      (s[..from] + s[from + 1..target + 1] + s[target..])[target := s[from]]
        == InsertAt(RemoveAt(s, from), target, s[from])
    ensures target <= from ==>
      (s[..target + 1] + s[target..from] + s[from + 1..])[target := s[from]]
        == InsertAt(RemoveAt(s, from), target, s[from])
  {
    var moved := InsertAt(RemoveAt(s, from), target, s[from]);
    if from < target {
      var shifted := (s[..from] + s[from + 1..target + 1] + s[target..])[target := s[from]];
      assert |shifted| == |moved| && forall k :: 0 <= k < |moved| ==> shifted[k] == moved[k];
    } else {
      var shifted := (s[..target + 1] + s[target..from] + s[from + 1..])[target := s[from]];
      assert |shifted| == |moved| && forall k :: 0 <= k < |moved| ==> shifted[k] == moved[k];
    }
  }

  // ---------------------------------------------------------------------------
  // The workspace, updated in place
  // ---------------------------------------------------------------------------

  class SessionWorkspace {
    var tabs: seq<Tab>
    var activeIndex: int
    var nextRuntimeId: nat
    var closedProfiles: seq<Profile>

    ghost function St(): State
      reads this
    {
      State(tabs, activeIndex, nextRuntimeId, closedProfiles)
    }

    constructor ()
      ensures St() == EMPTY
    {
      tabs, activeIndex, nextRuntimeId, closedProfiles := [], -1, 0, [];
    }

    method Find(id: string) returns (index: int)
      ensures index == IndexOf(tabs, id)
    {
      index := 0;
      while index < |tabs|
        invariant 0 <= index <= |tabs| && IndexOf(tabs, id) == IndexFrom(tabs, id, index)
      {
        if tabs[index].id == id {
          return;
        }
        index := index + 1;
      }
      index := -1;
    }

    method Open(profile: Profile, welcome: string) returns (index: int, created: bool)
      modifies this
      ensures (St(), index, created) == OpenSpec(old(St()), profile, welcome)
    {
      if TrimSpace(profile.id) == "" {
        return -1, false;
      }
      var instance := 1;
      var i := 0;
      while i < |tabs|
        invariant 0 <= i <= |tabs| && St() == old(St())
        invariant instance == NextInstance(tabs[..i], profile.id)
      {
        assert tabs[..i + 1][..i] == tabs[..i];
        if tabs[i].profileId == profile.id && tabs[i].instance >= instance {
          instance := tabs[i].instance + 1;
        }
        i := i + 1;
      }
      assert tabs[..i] == tabs;
      nextRuntimeId := nextRuntimeId + 1;
      var state := Tab("runtime-" + Decimal(nextRuntimeId), profile.id, instance, profile,
                       Content("", welcome, "", "", false), "", false, false, false, Idle, "");
      tabs := tabs + [state];
      activeIndex := |tabs| - 1;
      return activeIndex, true;
    }

    method Select(index: int) returns (ok: bool)
      modifies this
      ensures (St(), ok) == SelectSpec(old(St()), index)
    {
      if index < 0 || index >= |tabs| {
        return false;
      }
      activeIndex := index;
      tabs := tabs[index := tabs[index].(attention := false)];
      return true;
    }

    /** The loop that looks the active tab up again after a reordering. */
    method FocusOn(activeId: string)
      modifies this`activeIndex
      ensures activeIndex ==
        if IndexOf(tabs, activeId) >= 0 then IndexOf(tabs, activeId) else old(activeIndex)
    {
      var index := Find(activeId);
      if index >= 0 {
        activeIndex := index;
      }
    }

    method Move(id: string, target: int) returns (ok: bool)
      modifies this
      ensures (St(), ok) == MoveSpec(old(St()), id, target)
    {
      if TrimSpace(id) == "" || target < 0 || target >= |tabs| {
        return false;
      }
      var from := Find(id);
      if from < 0 || from == target || tabs[from].pinned != tabs[target].pinned {
        return false;
      }
      var activeId := "";
      if 0 <= activeIndex < |tabs| {
        activeId := tabs[activeIndex].id;
      }
      var state := tabs[from];
      ShiftThenPut(tabs, from, target);
      if from < target {
        tabs := tabs[..from] + tabs[from + 1..target + 1] + tabs[target..];
      } else {
        tabs := tabs[..target + 1] + tabs[target..from] + tabs[from + 1..];
      }
      tabs := tabs[target := state];
      FocusOn(activeId);
      return true;
    }

    method MoveActive(delta: int) returns (ok: bool)
      modifies this
      ensures (St(), ok) == MoveActiveSpec(old(St()), delta)
    {
      if (delta != -1 && delta != 1) || activeIndex < 0 || activeIndex >= |tabs| {
        return false;
      }
      ok := Move(tabs[activeIndex].id, activeIndex + delta);
    }

    method SetAttention(id: string) returns (ok: bool)
      modifies this
      ensures (St(), ok) == SetAttentionSpec(old(St()), id)
    {
      if TrimSpace(id) == "" {
        return false;
      }
      var index := Find(id);
      if index < 0 || tabs[index].muted {
        return false;
      }
      tabs := tabs[index := tabs[index].(attention := true)];
      return true;
    }

    method SetBellMuted(id: string, muted: bool) returns (ok: bool)
      modifies this
      ensures (St(), ok) == SetBellMutedSpec(old(St()), id, muted)
    {
      if TrimSpace(id) == "" {
        return false;
      }
      var index := Find(id);
      if index < 0 {
        return false;
      }
      tabs := tabs[index := tabs[index].(muted := muted)];
      if muted {
        tabs := tabs[index := tabs[index].(attention := false)];
      }
      assert tabs == old(tabs)[index := tabs[index]];
      return true;
    }

    method SetActiveDraft(draft: string) returns (ok: bool)
      modifies this
      ensures (St(), ok) == WriteActiveSpec(old(St()), Draft(draft))
    {
      if activeIndex < 0 || activeIndex >= |tabs| {
        return false;
      }
      var tab := tabs[activeIndex];
      tabs := tabs[activeIndex := tab.(content := tab.content.(draft := draft))];
      return true;
    }

    method SetActiveOutput(output: string) returns (ok: bool)
      modifies this
      ensures (St(), ok) == WriteActiveSpec(old(St()), Output(output))
    {
      if activeIndex < 0 || activeIndex >= |tabs| {
        return false;
      }
      var tab := tabs[activeIndex];
      tabs := tabs[activeIndex := tab.(content := tab.content.(output := output))];
      return true;
    }

    method AppendActiveOutput(output: string) returns (ok: bool)
      modifies this
      ensures (St(), ok) == WriteActiveSpec(old(St()), MoreOutput(output))
    {
      if activeIndex < 0 || activeIndex >= |tabs| {
        return false;
      }
      var tab := tabs[activeIndex];
      tabs := tabs[activeIndex := tab.(content := tab.content.(output := tab.content.output + output))];
      return true;
    }

    method AppendOutput(id: string, output: string) returns (ok: bool)
      modifies this
      ensures (St(), ok) == WriteSpec(old(St()), id, MoreOutput(output))
    {
      var index := Find(id);
      if index < 0 {
        return false;
      }
      var tab := tabs[index];
      tabs := tabs[index := tab.(content := tab.content.(output := tab.content.output + output))];
      return true;
    }

    method SetTerminalTitle(id: string, title: string) returns (ok: bool)
      modifies this
      ensures (St(), ok) == WriteSpec(old(St()), id, TerminalTitle(title))
    {
      if TrimSpace(id) == "" {
        return false;
      }
      var index := Find(id);
      if index < 0 {
        return false;
      }
      var tab := tabs[index];
      tabs := tabs[index := tab.(content := tab.content.(terminalTitle := TrimSpace(title)))];
      return true;
    }

    method SetCustomTitle(id: string, title: string) returns (ok: bool)
      modifies this
      ensures (St(), ok) == WriteSpec(old(St()), id, CustomTitle(title))
    {
      if TrimSpace(id) == "" {
        return false;
      }
      var index := Find(id);
      if index < 0 {
        return false;
      }
      var tab := tabs[index];
      tabs := tabs[index := tab.(content := tab.content.(customTitle := TrimSpace(title)))];
      return true;
    }

    method SetWorkingDirectory(id: string, directory: string) returns (ok: bool)
      modifies this
      ensures (St(), ok) == WriteSpec(old(St()), id, Directory(directory))
    {
      if TrimSpace(id) == "" || TrimSpace(directory) == "" {
        return false;
      }
      var index := Find(id);
      if index < 0 {
        return false;
      }
      tabs := tabs[index := tabs[index].(directory := TrimSpace(directory))];
      return true;
    }

    method SetInputLocked(id: string, locked: bool) returns (ok: bool)
      modifies this
      ensures (St(), ok) == WriteSpec(old(St()), id, InputLocked(locked))
    {
      if TrimSpace(id) == "" {
        return false;
      }
      var index := Find(id);
      if index < 0 {
        return false;
      }
      var tab := tabs[index];
      tabs := tabs[index := tab.(content := tab.content.(inputLocked := locked))];
      return true;
    }

    method PinnedBoundary() returns (boundary: nat)
      ensures boundary == Boundary(tabs)
    {
      boundary := 0;
      while boundary < |tabs| && tabs[boundary].pinned
        invariant 0 <= boundary <= |tabs|
        invariant forall i :: 0 <= i < boundary ==> tabs[i].pinned
      {
        boundary := boundary + 1;
      }
    }

    method SetPinned(id: string, pinned: bool) returns (ok: bool)
      modifies this
      ensures (St(), ok) == SetPinnedSpec(old(St()), id, pinned)
    {
      if TrimSpace(id) == "" {
        return false;
      }
      var activeId := "";
      if 0 <= activeIndex < |tabs| {
        activeId := tabs[activeIndex].id;
      }
      var index := Find(id);
      if index < 0 {
        return false;
      }
      if tabs[index].pinned == pinned {
        return true;
      }
      var state := tabs[index].(pinned := pinned);
      tabs := tabs[..index] + tabs[index + 1..];
      var boundary := PinnedBoundary();
      tabs := tabs[..boundary] + [state] + tabs[boundary..];
      FocusOn(activeId);
      return true;
    }

    method BeginRun(runId: string) returns (ok: bool)
      modifies this
      ensures (St(), ok) == BeginRunSpec(old(St()), runId)
    {
      if activeIndex < 0 || activeIndex >= |tabs| || TrimSpace(runId) == "" {
        return false;
      }
      var state := tabs[activeIndex];
      if state.status.Running? {
        return false;
      }
      tabs := tabs[activeIndex := state.(status := Running, runId := runId)];
      return true;
    }

    method FinishRun(runId: string, status: Status) returns (ok: bool)
      modifies this
      ensures (St(), ok) == FinishRunSpec(old(St()), runId, status)
    {
      if TrimSpace(runId) == "" {
        return false;
      }
      var index := 0;
      while index < |tabs|
        invariant 0 <= index <= |tabs| && St() == old(St())
        invariant RunIndexFrom(tabs, runId, 0) == RunIndexFrom(tabs, runId, index)
      {
        var state := tabs[index];
        if state.runId == runId && state.status.Running? {
          tabs := tabs[index := state.(status := status, runId := "")];
          return true;
        }
        index := index + 1;
      }
      return false;
    }

    method Close(at: int) returns (ok: bool)
      modifies this
      ensures (St(), ok) == CloseSpec(old(St()), at)
    {
      var index := at;
      if index < 0 || index >= |tabs| || tabs[index].status.Running? || tabs[index].pinned {
        return false;
      }
      var closedProfile := tabs[index].profile;
      var wasActive := index == activeIndex;
      tabs := tabs[..index] + tabs[index + 1..];
      closedProfiles := closedProfiles + [closedProfile];
      if |closedProfiles| > MAX_CLOSED {
        closedProfiles := closedProfiles[|closedProfiles| - MAX_CLOSED..];
      }
      if |tabs| == 0 {
        activeIndex := -1;
        return true;
      }
      if wasActive {
        if index >= |tabs| {
          index := |tabs| - 1;
        }
        activeIndex := index;
      } else if index < activeIndex {
        activeIndex := activeIndex - 1;
      }
      return true;
    }

    method ReopenLastClosed(welcome: string) returns (index: int, created: bool)
      modifies this
      ensures (St(), index, created) == ReopenSpec(old(St()), welcome)
    {
      if |closedProfiles| == 0 {
        return -1, false;
      }
      var last := |closedProfiles| - 1;
      var profile := closedProfiles[last];
      closedProfiles := closedProfiles[..last];
      index, created := Open(profile, welcome);
      if !created {
        closedProfiles := closedProfiles + [profile];
        assert closedProfiles == old(closedProfiles);
      }
    }

    method DuplicateActive(welcome: string) returns (index: int, created: bool)
      modifies this
      ensures (St(), index, created) == DuplicateSpec(old(St()), welcome)
    {
      if activeIndex < 0 || activeIndex >= |tabs| {
        return -1, false;
      }
      var active := tabs[activeIndex];
      var profile := active.profile;
      if active.directory != "" {
        profile := profile.(workingDir := active.directory);
      }
      index, created := Open(profile, welcome);
      if created && active.directory != "" {
        tabs := tabs[index := tabs[index].(directory := active.directory)];
      }
    }
  }
}
