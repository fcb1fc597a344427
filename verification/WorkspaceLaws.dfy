/** What every sequence of workspace operations keeps, and what reordering,
    closing and reopening leave alone. */
module WorkspaceLaws {
  import opened Text
  import opened Profiles
  import opened Workspace

  // ---------------------------------------------------------------------------
  // The invariant
  // ---------------------------------------------------------------------------

  ghost predicate Issued(id: string, nextId: nat) {
    exists k: nat :: 1 <= k <= nextId && id == RuntimeName(k)
  }

  ghost predicate TabOk(t: Tab, nextId: nat) {
    && Issued(t.id, nextId)
    && !Blank(t.profile.id) && t.profileId == t.profile.id && t.instance >= 1
    && (t.status.Running? <==> t.runId != "")
    && (t.runId != "" ==> !Blank(t.runId))
    && (t.muted ==> !t.attention)
  }

  predicate Apart(a: Tab, b: Tab) {
    a.id != b.id && (a.profileId == b.profileId ==> a.instance != b.instance)
  }

  ghost predicate AllApart(tabs: seq<Tab>) {
    forall i, j :: 0 <= i < j < |tabs| ==> Apart(tabs[i], tabs[j])
  }

  ghost predicate PinnedFirst(tabs: seq<Tab>) {
    forall i, j :: 0 <= i < j < |tabs| && tabs[j].pinned ==> tabs[i].pinned
  }

  ghost predicate Inv(s: State) {
    && (forall i :: 0 <= i < |s.tabs| ==> TabOk(s.tabs[i], s.nextId))
    && AllApart(s.tabs)
    && PinnedFirst(s.tabs)
    && (if s.tabs == [] then s.active == -1 else HasActive(s))
    && |s.closed| <= MAX_CLOSED
    && (forall i :: 0 <= i < |s.closed| ==> !Blank(s.closed[i].id))
  }

  datatype Op =
    | Open(profile: Profile, welcome: string)
    | Select(index: int)
    | Move(id: string, target: int)
    | MoveActive(delta: int)
    | SetAttention(id: string)
    | SetBellMuted(id: string, muted: bool)
    | SetPinned(id: string, pinned: bool)
    | WriteActive(field: Field)
    | Write(id: string, field: Field)
    | BeginRun(runId: string)
    | FinishRun(runId: string, status: Status)
    | Close(index: int)
    | ReopenLastClosed(welcome: string)
    | DuplicateActive(welcome: string)

  /** The only caller of FinishRun passes a final status. */
  predicate Legal(op: Op) { op.FinishRun? ==> !op.status.Running? }

  function Do(s: State, op: Op): State {
    match op
    case Open(profile, welcome) => OpenSpec(s, profile, welcome).0
    case Select(index) => SelectSpec(s, index).0
    case Move(id, target) => MoveSpec(s, id, target).0
    case MoveActive(delta) => MoveActiveSpec(s, delta).0
    case SetAttention(id) => SetAttentionSpec(s, id).0
    case SetBellMuted(id, muted) => SetBellMutedSpec(s, id, muted).0
    case SetPinned(id, pinned) => SetPinnedSpec(s, id, pinned).0
    case WriteActive(field) => WriteActiveSpec(s, field).0
    case Write(id, field) => WriteSpec(s, id, field).0
    case BeginRun(runId) => BeginRunSpec(s, runId).0
    case FinishRun(runId, status) => FinishRunSpec(s, runId, status).0
    case Close(index) => CloseSpec(s, index).0
    case ReopenLastClosed(welcome) => ReopenSpec(s, welcome).0
    case DuplicateActive(welcome) => DuplicateSpec(s, welcome).0
  }

  function DoAll(s: State, ops: seq<Op>): State
    decreases |ops|
  {
    if ops == [] then s else DoAll(Do(s, ops[0]), ops[1..])
  }

  // ---------------------------------------------------------------------------
  // Facts about positions
  // ---------------------------------------------------------------------------

  lemma UniqueIndex(tabs: seq<Tab>, i: nat)
    requires AllApart(tabs) && i < |tabs|
    ensures IndexOf(tabs, tabs[i].id) == i
  {
    assert forall j :: 0 <= j < i ==> Apart(tabs[j], tabs[i]);
  }

  lemma BoundaryIsThreshold(tabs: seq<Tab>)
    requires PinnedFirst(tabs)
    ensures forall i :: 0 <= i < |tabs| ==> (tabs[i].pinned <==> i < Boundary(tabs))
  {
  }

  /** Where the element now at i was before it was reinserted at to. */
  function OldIndex(from: nat, to: nat, i: nat): nat {
    if i == to then from
    else
      var k := if i < to then i else i - 1;
      if k < from then k else k + 1
  }

  function NewIndex(from: nat, to: nat, j: nat): nat { OldIndex(to, from, j) }

  lemma ReinsertAt<T>(s: seq<T>, from: nat, to: nat, y: T)
    requires from < |s| && to < |s|
    ensures var all := InsertAt(RemoveAt(s, from), to, y);
      && |all| == |s| && all[to] == y
      && (forall i :: 0 <= i < |s| && i != to ==> all[i] == s[OldIndex(from, to, i)])
      && (forall j :: 0 <= j < |s| && j != from ==> all[NewIndex(from, to, j)] == s[j])
  {
    var rest := RemoveAt(s, from);
    assert forall i :: 0 <= i < |rest| ==> rest[i] == s[if i < from then i else i + 1];
  }

  /** y, which differs from the rest just as tabs[from] did, replaces it at to. */
  lemma ReinsertKeepsApart(tabs: seq<Tab>, from: nat, to: nat, y: Tab)
    requires AllApart(tabs) && from < |tabs| && to < |tabs|
    requires y.id == tabs[from].id && y.profileId == tabs[from].profileId && y.instance == tabs[from].instance
    ensures AllApart(InsertAt(RemoveAt(tabs, from), to, y))
  {
    var all := InsertAt(RemoveAt(tabs, from), to, y);
    ReinsertAt(tabs, from, to, y);
    forall i, j | 0 <= i < j < |all| ensures Apart(all[i], all[j]) {
      var p, q := OldIndex(from, to, i), OldIndex(from, to, j);
      assert Apart(tabs[if p < q then p else q], tabs[if p < q then q else p]);
    }
  }

  lemma RemoveShape<T>(s: seq<T>, i: nat)
    requires i < |s|
    ensures |RemoveAt(s, i)| == |s| - 1
    ensures forall k :: 0 <= k < i ==> RemoveAt(s, i)[k] == s[k]
    ensures forall k :: i <= k < |s| - 1 ==> RemoveAt(s, i)[k] == s[k + 1]
  {
  }

  lemma RemoveKeeps(s: State, index: nat)
    requires Inv(s) && index < |s.tabs|
    ensures var tabs := RemoveAt(s.tabs, index); AllApart(tabs) && PinnedFirst(tabs)
  {
    RemoveShape(s.tabs, index);
  }

  /** After a reordering the focus is on the tab that was active. */
  lemma RefocusKeepsActive(s: State, tabs: seq<Tab>)
    requires HasActive(s) && AllApart(tabs)
    requires exists i :: 0 <= i < |tabs| && tabs[i].id == s.tabs[s.active].id
    ensures var t := Refocus(s, tabs);
      HasActive(t) && t.tabs == tabs && t.tabs[t.active].id == s.tabs[s.active].id
  {
  }

  // ---------------------------------------------------------------------------
  // Every operation keeps the invariant
  // ---------------------------------------------------------------------------

  lemma IssuedMonotone(id: string, m: nat, n: nat)
    requires Issued(id, m) && m <= n
    ensures Issued(id, n)
  {
  }

  lemma FreshIsApart(id: string, n: nat)
    requires Issued(id, n)
    ensures id != RuntimeName(n + 1)
  {
    var k: nat :| 1 <= k <= n && id == RuntimeName(k);
    if id == RuntimeName(n + 1) {
      SuffixInjective("runtime-", k, n + 1);
    }
  }

  lemma OpenKeepsInv(s: State, profile: Profile, welcome: string)
    requires Inv(s)
    ensures Inv(OpenSpec(s, profile, welcome).0)
  {
    var t := OpenSpec(s, profile, welcome).0;
    if !Blank(profile.id) {
      var tab := t.tabs[|s.tabs|];
      forall i | 0 <= i < |s.tabs| ensures TabOk(t.tabs[i], t.nextId) && Apart(t.tabs[i], tab) {
        IssuedMonotone(s.tabs[i].id, s.nextId, t.nextId);
        FreshIsApart(s.tabs[i].id, s.nextId);
      }
      assert Issued(tab.id, t.nextId);
    }
  }

  lemma ReorderKeepsInv(s: State, from: nat, to: nat, y: Tab)
    requires Inv(s) && from < |s.tabs| && to < |s.tabs| && TabOk(y, s.nextId)
    requires y.id == s.tabs[from].id && y.profileId == s.tabs[from].profileId && y.instance == s.tabs[from].instance
    requires PinnedFirst(InsertAt(RemoveAt(s.tabs, from), to, y))
    ensures var t := Refocus(s, InsertAt(RemoveAt(s.tabs, from), to, y));
      Inv(t) && HasActive(t) && t.tabs[t.active].id == s.tabs[s.active].id
  {
    var tabs := InsertAt(RemoveAt(s.tabs, from), to, y);
    ReinsertKeepsApart(s.tabs, from, to, y);
    ReinsertAt(s.tabs, from, to, y);
    assert tabs[NewIndex(from, to, s.active)].id == s.tabs[s.active].id;
    RefocusKeepsActive(s, tabs);
    forall i | 0 <= i < |tabs| ensures TabOk(tabs[i], s.nextId) {
      if i != to { assert TabOk(s.tabs[OldIndex(from, to, i)], s.nextId); }
    }
  }

  lemma MoveKeepsPinnedFirst(tabs: seq<Tab>, from: nat, to: nat)
    requires PinnedFirst(tabs) && from < |tabs| && to < |tabs| && tabs[from].pinned == tabs[to].pinned
    ensures PinnedFirst(InsertAt(RemoveAt(tabs, from), to, tabs[from]))
  {
    BoundaryIsThreshold(tabs);
    var all := InsertAt(RemoveAt(tabs, from), to, tabs[from]);
    ReinsertAt(tabs, from, to, tabs[from]);
    forall i | 0 <= i < |all| ensures all[i].pinned <==> i < Boundary(tabs) {
      if i != to { assert all[i] == tabs[OldIndex(from, to, i)]; }
    }
  }

  lemma MoveKeepsInv(s: State, id: string, target: int)
    requires Inv(s)
    ensures Inv(MoveSpec(s, id, target).0)
  {
    if CanMove(s, id, target) {
      var from := IndexOf(s.tabs, id);
      MoveKeepsPinnedFirst(s.tabs, from, target);
      ReorderKeepsInv(s, from, target, s.tabs[from]);
    }
  }

  lemma InsertAtBoundary(rest: seq<Tab>, y: Tab)
    requires PinnedFirst(rest)
    ensures PinnedFirst(InsertAt(rest, Boundary(rest), y))
  {
    BoundaryIsThreshold(rest);
    var b := Boundary(rest);
    var all := InsertAt(rest, b, y);
    forall i | 0 <= i < |all| && i != b ensures all[i].pinned <==> i < b {
      assert all[i] == rest[if i < b then i else i - 1];
    }
  }

  lemma SetPinnedKeepsInv(s: State, id: string, pinned: bool)
    requires Inv(s)
    ensures Inv(SetPinnedSpec(s, id, pinned).0)
  {
    var i := IndexOf(s.tabs, id);
    if !Blank(id) && i >= 0 && s.tabs[i].pinned != pinned {
      var rest := RemoveAt(s.tabs, i);
      RemoveKeeps(s, i);
      InsertAtBoundary(rest, s.tabs[i].(pinned := pinned));
      ReorderKeepsInv(s, i, Boundary(rest), s.tabs[i].(pinned := pinned));
    }
  }

  /** Rewriting one tab without touching what tells tabs apart. */
  lemma UpdateKeepsInv(s: State, i: nat, y: Tab)
    requires Inv(s) && i < |s.tabs| && TabOk(y, s.nextId)
    requires y.id == s.tabs[i].id && y.profileId == s.tabs[i].profileId
    requires y.instance == s.tabs[i].instance && y.pinned == s.tabs[i].pinned
    ensures Inv(s.(tabs := s.tabs[i := y]))
  {
    var tabs := s.tabs[i := y];
    forall p, q | 0 <= p < q < |tabs| ensures Apart(tabs[p], tabs[q]) {
      assert Apart(s.tabs[p], s.tabs[q]);
    }
  }

  lemma CloseKeepsInv(s: State, index: int)
    requires Inv(s)
    ensures Inv(CloseSpec(s, index).0)
  {
    if CanClose(s, index) {
      RemoveKeeps(s, index);
      var t := CloseSpec(s, index).0;
      forall i | 0 <= i < |t.tabs| ensures TabOk(t.tabs[i], t.nextId) {
        assert TabOk(s.tabs[if i < index then i else i + 1], s.nextId);
      }
    }
  }

  lemma DuplicateKeepsInv(s: State, welcome: string)
    requires Inv(s)
    ensures Inv(DuplicateSpec(s, welcome).0)
  {
    if HasActive(s) {
      var tab := s.tabs[s.active];
      var profile := if tab.directory == "" then tab.profile else tab.profile.(workingDir := tab.directory);
      OpenKeepsInv(s, profile, welcome);
      var (t, index, created) := OpenSpec(s, profile, welcome);
      if created && tab.directory != "" {
        UpdateKeepsInv(t, index, t.tabs[index].(directory := tab.directory));
      }
    }
  }

  lemma MoveActiveKeepsInv(s: State, delta: int)
    requires Inv(s)
    ensures Inv(MoveActiveSpec(s, delta).0)
  {
    if HasActive(s) { MoveKeepsInv(s, s.tabs[s.active].id, s.active + delta); }
  }

  lemma ReopenKeepsInv(s: State, welcome: string)
    requires Inv(s)
    ensures Inv(ReopenSpec(s, welcome).0)
  {
    if s.closed != [] {
      var last := |s.closed| - 1;
      OpenKeepsInv(s.(closed := s.closed[..last]), s.closed[last], welcome);
    }
  }

  lemma SelectKeepsInv(s: State, index: int)
    requires Inv(s)
    ensures Inv(SelectSpec(s, index).0)
  {
    if 0 <= index < |s.tabs| {
      UpdateKeepsInv(s.(active := index), index, s.tabs[index].(attention := false));
    }
  }

  lemma BellKeepsInv(s: State, id: string, muted: bool)
    requires Inv(s)
    ensures Inv(SetAttentionSpec(s, id).0) && Inv(SetBellMutedSpec(s, id, muted).0)
  {
    var i := IndexOf(s.tabs, id);
    if i >= 0 {
      if !s.tabs[i].muted { UpdateKeepsInv(s, i, s.tabs[i].(attention := true)); }
      UpdateKeepsInv(s, i, s.tabs[i].(muted := muted, attention := !muted && s.tabs[i].attention));
    }
  }

  lemma WriteKeepsInv(s: State, i: int, field: Field)
    requires Inv(s)
    ensures Inv(WriteAt(s, i, field).0)
  {
    if 0 <= i < |s.tabs| { UpdateKeepsInv(s, i, Written(s.tabs[i], field)); }
  }

  lemma RunKeepsTabs(s: State, runId: string, status: Status)
    requires Inv(s) && !status.Running?
    ensures Inv(BeginRunSpec(s, runId).0) && Inv(FinishRunSpec(s, runId, status).0)
  {
    var i := RunIndexFrom(s.tabs, runId, 0);
    if i >= 0 { UpdateKeepsInv(s, i, s.tabs[i].(status := status, runId := "")); }
    if BeginRunSpec(s, runId).1 {
      UpdateKeepsInv(s, s.active, s.tabs[s.active].(status := Running, runId := runId));
    }
  }

  lemma StepKeepsInv(s: State, op: Op)
    requires Inv(s) && Legal(op)
    ensures Inv(Do(s, op))
  {
    hide Inv;
    hide OpenSpec, MoveSpec, MoveActiveSpec, SetPinnedSpec, CloseSpec, ReopenSpec, DuplicateSpec;
    hide SelectSpec, SetAttentionSpec, SetBellMutedSpec, WriteAt, BeginRunSpec, FinishRunSpec;
    match op {
      case Open(profile, welcome) => OpenKeepsInv(s, profile, welcome);
      case Select(index) => SelectKeepsInv(s, index);
      case Move(id, target) => MoveKeepsInv(s, id, target);
      case MoveActive(delta) => MoveActiveKeepsInv(s, delta);
      case SetAttention(id) => BellKeepsInv(s, id, false);
      case SetBellMuted(id, muted) => BellKeepsInv(s, id, muted);
      case SetPinned(id, pinned) => SetPinnedKeepsInv(s, id, pinned);
      case WriteActive(field) => WriteKeepsInv(s, s.active, field);
      case Write(id, field) => WriteKeepsInv(s, IndexOf(s.tabs, id), field);
      case BeginRun(runId) => RunKeepsTabs(s, runId, Idle);
      case FinishRun(runId, status) => RunKeepsTabs(s, runId, status);
      case Close(index) => CloseKeepsInv(s, index);
      case ReopenLastClosed(welcome) => ReopenKeepsInv(s, welcome);
      case DuplicateActive(welcome) => DuplicateKeepsInv(s, welcome);
    }
  }

  /** Every run of the workspace keeps the invariant. */
  lemma {:induction false} RunKeepsInv(s: State, ops: seq<Op>)
    requires Inv(s) && forall op :: op in ops ==> Legal(op)
    ensures Inv(DoAll(s, ops))
    decreases |ops|
  {
    if ops == [] {
    } else {
      StepKeepsInv(s, ops[0]);
      RunKeepsInv(Do(s, ops[0]), ops[1..]);
    }
  }

  // ---------------------------------------------------------------------------
  // Identities are never reused
  // ---------------------------------------------------------------------------

  predicate IsOpen(s: State, id: string) {
    exists i :: 0 <= i < |s.tabs| && s.tabs[i].id == id
  }

  /** Every open id of t was open in s already or was issued after s. */
  ghost predicate OnlyNewIds(s: State, t: State) {
    && s.nextId <= t.nextId
    && forall i :: 0 <= i < |t.tabs| ==> IsOpen(s, t.tabs[i].id) || !Issued(t.tabs[i].id, s.nextId)
  }

  lemma AllOpen(s: State)
    ensures forall i :: 0 <= i < |s.tabs| ==> IsOpen(s, s.tabs[i].id)
  {
  }

  /** The operations that only rewrite one tab. */
  predicate InPlace(op: Op) {
    op.Select? || op.SetAttention? || op.SetBellMuted? || op.WriteActive? || op.Write? || op.BeginRun? || op.FinishRun?
  }

  /** t has the tabs of s, with other contents and marks. */
  predicate SameTabs(s: State, t: State) {
    && |t.tabs| == |s.tabs| && t.nextId == s.nextId
    && forall i :: 0 <= i < |s.tabs| ==> t.tabs[i].id == s.tabs[i].id
  }

  /** And the same tabs run. */
  predicate SameTabsRun(s: State, t: State) {
    && SameTabs(s, t)
    && forall i :: 0 <= i < |s.tabs| ==>
         t.tabs[i].status == s.tabs[i].status && t.tabs[i].runId == s.tabs[i].runId
  }

  lemma WriteKeepsTabs(s: State, i: int, field: Field)
    ensures SameTabsRun(s, WriteAt(s, i, field).0)
  {
  }

  lemma BellKeepsTabs(s: State, id: string, muted: bool)
    ensures SameTabsRun(s, SetAttentionSpec(s, id).0) && SameTabsRun(s, SetBellMutedSpec(s, id, muted).0)
  {
  }

  lemma SelectKeepsTabs(s: State, index: int)
    ensures SameTabsRun(s, SelectSpec(s, index).0)
  {
  }

  lemma RunsKeepTabs(s: State, runId: string, status: Status)
    ensures SameTabs(s, BeginRunSpec(s, runId).0) && SameTabs(s, FinishRunSpec(s, runId, status).0)
  {
  }

  lemma InPlaceKeepsTabs(s: State, op: Op)
    requires InPlace(op)
    ensures SameTabs(s, Do(s, op))
    ensures !op.BeginRun? && !op.FinishRun? ==> SameTabsRun(s, Do(s, op))
  {
    hide OpenSpec, MoveSpec, MoveActiveSpec, SetPinnedSpec, CloseSpec, ReopenSpec, DuplicateSpec;
    hide SelectSpec, SetAttentionSpec, SetBellMutedSpec, WriteAt, BeginRunSpec, FinishRunSpec;
    match op {
      case Select(index) => SelectKeepsTabs(s, index);
      case SetAttention(id) => BellKeepsTabs(s, id, false);
      case SetBellMuted(id, muted) => BellKeepsTabs(s, id, muted);
      case WriteActive(field) => WriteKeepsTabs(s, s.active, field);
      case Write(id, field) => WriteKeepsTabs(s, IndexOf(s.tabs, id), field);
      case BeginRun(runId) => RunsKeepTabs(s, runId, Idle);
      case FinishRun(runId, status) => RunsKeepTabs(s, runId, status);
      case _ =>
    }
  }

  lemma InPlaceOnlyNewIds(s: State, op: Op)
    requires InPlace(op)
    ensures OnlyNewIds(s, Do(s, op))
  {
    hide Do;
    AllOpen(s);
    InPlaceKeepsTabs(s, op);
  }

  lemma CloseOnlyNewIds(s: State, index: int)
    ensures OnlyNewIds(s, CloseSpec(s, index).0)
  {
    AllOpen(s);
  }

  lemma OpenOnlyNewIds(s: State, profile: Profile, welcome: string)
    requires Inv(s)
    ensures OnlyNewIds(s, OpenSpec(s, profile, welcome).0)
  {
    AllOpen(s);
    if Issued(RuntimeName(s.nextId + 1), s.nextId) {
      FreshIsApart(RuntimeName(s.nextId + 1), s.nextId);
    }
  }

  lemma ReinsertOnlyNewIds(s: State, from: nat, to: nat, y: Tab)
    requires from < |s.tabs| && to < |s.tabs| && y.id == s.tabs[from].id
    ensures OnlyNewIds(s, Refocus(s, InsertAt(RemoveAt(s.tabs, from), to, y)))
  {
    ReinsertAt(s.tabs, from, to, y);
    AllOpen(s);
  }

  lemma MoveOnlyNewIds(s: State, id: string, target: int)
    ensures OnlyNewIds(s, MoveSpec(s, id, target).0)
  {
    AllOpen(s);
    if CanMove(s, id, target) {
      var from := IndexOf(s.tabs, id);
      ReinsertOnlyNewIds(s, from, target, s.tabs[from]);
    }
  }

  lemma MoveActiveOnlyNewIds(s: State, delta: int)
    ensures OnlyNewIds(s, MoveActiveSpec(s, delta).0)
  {
    AllOpen(s);
    if HasActive(s) { MoveOnlyNewIds(s, s.tabs[s.active].id, s.active + delta); }
  }

  lemma SetPinnedOnlyNewIds(s: State, id: string, pinned: bool)
    ensures OnlyNewIds(s, SetPinnedSpec(s, id, pinned).0)
  {
    AllOpen(s);
    var i := IndexOf(s.tabs, id);
    if i >= 0 && s.tabs[i].pinned != pinned {
      ReinsertOnlyNewIds(s, i, Boundary(RemoveAt(s.tabs, i)), s.tabs[i].(pinned := pinned));
    }
  }

  lemma ReopenOnlyNewIds(s: State, welcome: string)
    requires Inv(s)
    ensures OnlyNewIds(s, ReopenSpec(s, welcome).0)
  {
    AllOpen(s);
    if s.closed != [] {
      var last := |s.closed| - 1;
      var r := s.(closed := s.closed[..last]);
      OpenOnlyNewIds(r, s.closed[last], welcome);
      assert forall id :: IsOpen(r, id) == IsOpen(s, id);
    }
  }

  lemma DuplicateOnlyNewIds(s: State, welcome: string)
    requires Inv(s)
    ensures OnlyNewIds(s, DuplicateSpec(s, welcome).0)
  {
    AllOpen(s);
    if HasActive(s) {
      var tab := s.tabs[s.active];
      var profile := if tab.directory == "" then tab.profile else tab.profile.(workingDir := tab.directory);
      OpenOnlyNewIds(s, profile, welcome);
    }
  }

  lemma StepOnlyNewIds(s: State, op: Op)
    requires Inv(s)
    ensures OnlyNewIds(s, Do(s, op))
  {
    hide Inv, OnlyNewIds, OpenSpec, MoveSpec, MoveActiveSpec, SetPinnedSpec, CloseSpec, ReopenSpec, DuplicateSpec;
    hide SelectSpec, SetAttentionSpec, SetBellMutedSpec, WriteAt, BeginRunSpec, FinishRunSpec;
    match op {
      case Open(profile, welcome) => OpenOnlyNewIds(s, profile, welcome);
      case Move(id, target) => MoveOnlyNewIds(s, id, target);
      case MoveActive(delta) => MoveActiveOnlyNewIds(s, delta);
      case SetPinned(id, pinned) => SetPinnedOnlyNewIds(s, id, pinned);
      case ReopenLastClosed(welcome) => ReopenOnlyNewIds(s, welcome);
      case DuplicateActive(welcome) => DuplicateOnlyNewIds(s, welcome);
      case Close(index) => CloseOnlyNewIds(s, index);
      case _ => InPlaceOnlyNewIds(s, op);
    }
  }

  /** Once an id has been issued and its tab is gone, no run brings it back. */
  lemma {:induction false} IdsNeverReused(s: State, ops: seq<Op>, id: string)
    requires Inv(s) && (forall op :: op in ops ==> Legal(op))
    requires Issued(id, s.nextId) && !IsOpen(s, id)
    ensures !IsOpen(DoAll(s, ops), id)
    decreases |ops|
  {
    if ops == [] {
    } else {
      var t := Do(s, ops[0]);
      StepKeepsInv(s, ops[0]);
      StepOnlyNewIds(s, ops[0]);
      IssuedMonotone(id, s.nextId, t.nextId);
      IdsNeverReused(t, ops[1..], id);
    }
  }

  // ---------------------------------------------------------------------------
  // Reordering
  // ---------------------------------------------------------------------------

  /** From s to t one tab went from from to to and became y; the others kept
      order and fields, and the same tab is active. */
  ghost predicate Reordered(s: State, t: State, from: int, to: int, y: Tab) {
    && 0 <= from < |s.tabs| && 0 <= to < |t.tabs| == |s.tabs|
    && t.tabs[to] == y
    && RemoveAt(t.tabs, to) == RemoveAt(s.tabs, from)
    && multiset(t.tabs) == multiset(s.tabs) - multiset{s.tabs[from]} + multiset{y}
    && HasActive(s) && HasActive(t) && t.tabs[t.active].id == s.tabs[s.active].id
    && t.nextId == s.nextId && t.closed == s.closed
  }

  lemma ReinsertReorders(s: State, from: nat, to: nat, y: Tab)
    requires Inv(s) && from < |s.tabs| && to < |s.tabs|
    requires y.id == s.tabs[from].id && y.profileId == s.tabs[from].profileId && y.instance == s.tabs[from].instance
    ensures Reordered(s, Refocus(s, InsertAt(RemoveAt(s.tabs, from), to, y)), from, to, y)
  {
    var tabs := InsertAt(RemoveAt(s.tabs, from), to, y);
    ReinsertKeepsApart(s.tabs, from, to, y);
    ReinsertKeepsRest(s.tabs, from, to, y);
    ReinsertAt(s.tabs, from, to, y);
    assert tabs[NewIndex(from, to, s.active)].id == s.tabs[s.active].id;
    RefocusKeepsActive(s, tabs);
  }

  /** A move succeeds exactly inside one partition, pinned or ordinary; then it
      only reorders. */
  lemma MoveReorders(s: State, id: string, target: int)
    requires Inv(s)
    ensures var (t, ok) := MoveSpec(s, id, target);
      var from := IndexOf(s.tabs, id);
      && (ok <==>
            && IsOpen(s, id) && 0 <= target < |s.tabs| && s.tabs[target].id != id
            && (target < Boundary(s.tabs) <==> from < Boundary(s.tabs)))
      && (!ok ==> t == s)
      && (ok ==> Reordered(s, t, from, target, s.tabs[from]))
  {
    var from := IndexOf(s.tabs, id);
    BoundaryIsThreshold(s.tabs);
    if IsOpen(s, id) { OpenIdIsNotBlank(s, id); }
    if 0 <= target < |s.tabs| { UniqueIndex(s.tabs, target); }
    if CanMove(s, id, target) { ReinsertReorders(s, from, target, s.tabs[from]); }
  }

  lemma OpenIdIsNotBlank(s: State, id: string)
    requires Inv(s) && IsOpen(s, id)
    ensures !Blank(id)
  {
    var i :| 0 <= i < |s.tabs| && s.tabs[i].id == id;
    var k: nat :| 1 <= k <= s.nextId && id == RuntimeName(k);
    assert id[0] == 'r';
    BlankIsAllSpaces(id);
  }

  lemma ReinsertKeepsRest<T>(s: seq<T>, from: nat, to: nat, y: T)
    requires from < |s| && to < |s|
    ensures var all := InsertAt(RemoveAt(s, from), to, y);
      && RemoveAt(all, to) == RemoveAt(s, from)
      && multiset(all) == multiset(s) - multiset{s[from]} + multiset{y}
  {
    var rest := RemoveAt(s, from);
    TakeOut(s, from);
    TakeOut(InsertAt(rest, to, y), to);
    PutIn(rest, to, y);
  }

  lemma TakeOut<T>(s: seq<T>, i: nat)
    requires i < |s|
    ensures multiset(s) == multiset(RemoveAt(s, i)) + multiset{s[i]}
  {
    assert s == s[..i] + [s[i]] + s[i + 1..];
  }

  lemma PutIn<T>(rest: seq<T>, to: nat, y: T)
    requires to <= |rest|
    ensures RemoveAt(InsertAt(rest, to, y), to) == rest && InsertAt(rest, to, y)[to] == y
  {
    var all := InsertAt(rest, to, y);
    assert all[..to] == rest[..to] && all[to + 1..] == rest[to..];
  }

  /** Pinning or unpinning changes that field alone and moves the tab to the
      border of the pinned prefix. */
  lemma SetPinnedReorders(s: State, id: string, pinned: bool)
    requires Inv(s)
    ensures var (t, ok) := SetPinnedSpec(s, id, pinned);
      var from := IndexOf(s.tabs, id);
      && (ok <==> IsOpen(s, id))
      && (!ok || s.tabs[from].pinned == pinned ==> t == s)
      && (ok && s.tabs[from].pinned != pinned ==>
            Reordered(s, t, from, if pinned then Boundary(s.tabs) else Boundary(s.tabs) - 1,
                      s.tabs[from].(pinned := pinned)))
  {
    hide Inv, Reordered, Boundary, Blank, Refocus;
    var i := IndexOf(s.tabs, id);
    if IsOpen(s, id) {
      OpenIdIsNotBlank(s, id);
      if s.tabs[i].pinned != pinned {
        var rest := RemoveAt(s.tabs, i);
        BoundaryWithout(s, i);
        ReinsertReorders(s, i, Boundary(rest), s.tabs[i].(pinned := pinned));
      }
    }
  }

  lemma BoundaryWithout(s: State, i: nat)
    requires Inv(s) && i < |s.tabs|
    ensures var b := Boundary(RemoveAt(s.tabs, i));
      b == Boundary(s.tabs) - (if s.tabs[i].pinned then 1 else 0) && b < |s.tabs|
  {
    RemoveKeeps(s, i);
    BoundaryAfterRemove(s.tabs, i);
  }

  lemma BoundaryAfterRemove(tabs: seq<Tab>, i: nat)
    requires PinnedFirst(tabs) && i < |tabs|
    ensures Boundary(RemoveAt(tabs, i)) == Boundary(tabs) - if tabs[i].pinned then 1 else 0
  {
    BoundaryIsThreshold(tabs);
    RemoveShape(tabs, i);
    ThresholdIsBoundary(RemoveAt(tabs, i), Boundary(tabs) - if tabs[i].pinned then 1 else 0);
  }

  lemma {:induction false} ThresholdIsBoundary(tabs: seq<Tab>, b: nat)
    requires b <= |tabs| && forall k :: 0 <= k < |tabs| ==> (tabs[k].pinned <==> k < b)
    ensures Boundary(tabs) == b
  {
    if b > 0 { ThresholdIsBoundary(tabs[1..], b - 1); }
  }

  // ---------------------------------------------------------------------------
  // Closing and reopening
  // ---------------------------------------------------------------------------

  /** A tab closes exactly when it is neither running nor pinned.  The others
      keep order and fields; closing a background tab keeps the active one, and
      closing the active tab activates its right neighbour, or the last tab. */
  lemma CloseRemovesOne(s: State, index: int)
    requires Inv(s)
    ensures var (t, ok) := CloseSpec(s, index);
      && (ok <==> 0 <= index < |s.tabs| && !s.tabs[index].status.Running? && !s.tabs[index].pinned)
      && (!ok ==> t == s)
      && (ok ==>
            && t.tabs == RemoveAt(s.tabs, index)
            && !IsOpen(t, s.tabs[index].id)
            && t.closed != [] && t.closed[|t.closed| - 1] == s.tabs[index].profile
            && (index != s.active ==> HasActive(t) && t.tabs[t.active] == s.tabs[s.active])
            && (index == s.active && index + 1 < |s.tabs| ==>
                  HasActive(t) && t.tabs[t.active] == s.tabs[index + 1])
            && (index == s.active && index + 1 == |s.tabs| ==> t.active == |t.tabs| - 1))
  {
    var t := CloseSpec(s, index).0;
    if CanClose(s, index) { RemovedIsNotOpen(s, t, index); }
  }

  lemma RemovedIsNotOpen(s: State, t: State, index: nat)
    requires AllApart(s.tabs) && index < |s.tabs| && t.tabs == RemoveAt(s.tabs, index)
    ensures !IsOpen(t, s.tabs[index].id)
  {
    forall i | 0 <= i < |t.tabs| ensures t.tabs[i].id != s.tabs[index].id {
      var j := if i < index then i else i + 1;
      assert t.tabs[i] == s.tabs[j];
      assert Apart(s.tabs[if j < index then j else index], s.tabs[if j < index then index else j]);
    }
  }

  /** The close history is last in, first out: reopening opens a fresh, idle,
      active tab for the most recently closed profile and forgets that one. */
  lemma ReopenUndoesClose(s: State, index: int, welcome: string)
    requires Inv(s) && CanClose(s, index)
    ensures var (t, at, created) := ReopenSpec(CloseSpec(s, index).0, welcome);
      && created && at == |s.tabs| - 1 == t.active
      && t.tabs[..at] == RemoveAt(s.tabs, index)
      && t.tabs[at].profile == s.tabs[index].profile
      && t.tabs[at].status.Idle? && t.tabs[at].id != s.tabs[index].id
      && t.closed == (if |s.closed| == MAX_CLOSED then s.closed[1..] else s.closed)
  {
    var c := CloseSpec(s, index).0;
    var t := ReopenSpec(c, welcome).0;
    assert TabOk(s.tabs[index], s.nextId);
    FreshIsApart(s.tabs[index].id, s.nextId);
    assert c.closed[..|c.closed| - 1] == t.closed;
  }
}
