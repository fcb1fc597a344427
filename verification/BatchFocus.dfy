/** Which tab is active after a batch close (guis/terminal_context_menu.go,
    closeSessionBatch): every close of the active tab hands the focus on. */
module BatchFocus {
  import opened Text
  import opened Profiles
  import opened Workspace
  import opened WorkspaceLaws
  import opened BatchClose

  // ---------------------------------------------------------------------------
  // The heir of the active tab
  // ---------------------------------------------------------------------------

  /** The first tab at or after from that is kept, or |tabs|. */
  function NextKept(tabs: seq<Tab>, mode: Mode, target: int, from: nat): (k: nat)
    requires from <= |tabs|
    ensures from <= k <= |tabs| && (k < |tabs| ==> !Affected(tabs, mode, k, target))
    ensures forall i :: from <= i < k ==> Affected(tabs, mode, i, target)
    decreases |tabs| - from
  {
    if from == |tabs| || !Affected(tabs, mode, from, target) then from
    else NextKept(tabs, mode, target, from + 1)
  }

  /** The last tab in [from, to) that is kept, or from - 1. */
  function LastKept(tabs: seq<Tab>, mode: Mode, target: int, from: nat, to: nat): (k: int)
    requires from <= to <= |tabs|
    ensures from - 1 <= k < to && (k >= from ==> !Affected(tabs, mode, k, target))
    ensures forall i :: from <= i < to && k < i ==> Affected(tabs, mode, i, target)
  {
    if to == from then from - 1
    else if !Affected(tabs, mode, to - 1, target) then to - 1
    else LastKept(tabs, mode, target, from, to - 1)
  }

  /** Where the focus is once the affected tabs at from or later are closed: the
      active tab itself if it is still there, else the first kept tab on its
      right, else the last kept tab on its left. */
  function Heir(s: State, mode: Mode, target: int, from: nat): int
    requires HasActive(s) && from <= |s.tabs|
  {
    var a := s.active;
    if a < from || !Affected(s.tabs, mode, a, target) then a
    else
      var right := NextKept(s.tabs, mode, target, a + 1);
      if right < |s.tabs| then right else LastKept(s.tabs, mode, target, from, a)
  }

  lemma {:induction false} NextKeptIsFirst(tabs: seq<Tab>, mode: Mode, target: int, from: nat)
    requires from <= |tabs|
    ensures var kept, k := KeptFrom(tabs, mode, target, from), NextKept(tabs, mode, target, from);
      if kept == [] then k == |tabs| else k < |tabs| && kept[0] == tabs[k]
    decreases |tabs| - from
  {
    hide KeptFrom, Affected;
    if from == |tabs| {
      NothingKept(tabs, mode, target);
    } else {
      KeptUnfolds(tabs, mode, target, from);
      if Affected(tabs, mode, from, target) { NextKeptIsFirst(tabs, mode, target, from + 1); }
    }
  }

  lemma NothingKept(tabs: seq<Tab>, mode: Mode, target: int)
    ensures KeptFrom(tabs, mode, target, |tabs|) == []
  {
  }

  /** One more tab considered: either the heir is the same, or it was the tab at
      from, which is closed, and then the heir is its right neighbour in what is
      left, or with nothing on its right the tab before it. */
  lemma HeirStep(s: State, mode: Mode, target: int, from: nat)
    requires HasActive(s) && from < |s.tabs|
    ensures var before, after := Heir(s, mode, target, from + 1), Heir(s, mode, target, from);
      if before != from || !Affected(s.tabs, mode, from, target) then after == before
      else
        var right := NextKept(s.tabs, mode, target, from + 1);
        after == if right < |s.tabs| then right else from - 1
  {
    var a := s.active;
    if a > from && Affected(s.tabs, mode, a, target) && NextKept(s.tabs, mode, target, a + 1) == |s.tabs| {
      LastKeptStep(s.tabs, mode, target, from, a);
      if LastKept(s.tabs, mode, target, from + 1, a) == from {
        NothingOnTheRight(s.tabs, mode, target, from + 1);
      }
    }
  }

  lemma {:induction false} LastKeptStep(tabs: seq<Tab>, mode: Mode, target: int, from: nat, to: nat)
    requires from < to <= |tabs|
    ensures var k := LastKept(tabs, mode, target, from + 1, to);
      LastKept(tabs, mode, target, from, to) ==
        if k > from then k else if Affected(tabs, mode, from, target) then from - 1 else from
  {
    if to > from + 1 && Affected(tabs, mode, to - 1, target) {
      LastKeptStep(tabs, mode, target, from, to - 1);
    }
  }

  lemma NothingOnTheRight(tabs: seq<Tab>, mode: Mode, target: int, from: nat)
    requires from <= |tabs| && forall i :: from <= i < |tabs| ==> Affected(tabs, mode, i, target)
    ensures NextKept(tabs, mode, target, from) == |tabs|
  {
  }

  // ---------------------------------------------------------------------------
  // The focus during the reverse closing
  // ---------------------------------------------------------------------------

  /** r has the heir in focus; with no tab left it has no focus. */
  ghost predicate Focused(s: State, r: State, heir: int) {
    if heir < 0 then r.active == -1
    else heir < |s.tabs| && HasActive(r) && r.tabs[r.active] == s.tabs[heir]
  }

  lemma FocusElsewhere(s: State, r: State, from: nat, heir: int)
    requires Inv(s) && Inv(r) && from < |s.tabs| && from < |r.tabs| && r.tabs[from] == s.tabs[from]
    requires Focused(s, r, heir)
    ensures r.active == from <==> heir == from
  {
    UniqueIndex(s.tabs, from);
    UniqueIndex(r.tabs, from);
    if heir >= 0 {
      UniqueIndex(s.tabs, heir);
      UniqueIndex(r.tabs, r.active);
    }
  }

  /** Where the focus goes when the tab at from closes. */
  lemma CloseMovesFocus(r: State, from: nat)
    requires Inv(r) && from < |r.tabs| && CanClose(r, from)
    ensures HasActive(r)
    ensures var t := CloseById(r, r.tabs[from].id);
      if r.active != from then HasActive(t) && t.tabs[t.active] == r.tabs[r.active]
      else if from + 1 < |r.tabs| then HasActive(t) && t.tabs[t.active] == r.tabs[from + 1]
      else t.active == from - 1 && (from > 0 ==> HasActive(t) && t.tabs[t.active] == r.tabs[from - 1])
  {
    UniqueIndex(r.tabs, from);
    CloseRemovesOne(r, from);
    RemoveShape(r.tabs, from);
  }

  /** Closing the tab at from keeps the focus elsewhere, or hands it to the right
      neighbour, or else to the tab before. */
  lemma CloseHandsOn(s: State, r: State, mode: Mode, target: int, from: nat, heir: int)
    requires Inv(s) && from < |s.tabs| && TailClosed(s, r, mode, target, from + 1)
    requires Affected(s.tabs, mode, from, target) && !s.tabs[from].status.Running?
    requires Focused(s, r, heir)
    ensures var right := NextKept(s.tabs, mode, target, from + 1);
      Focused(s, CloseById(r, s.tabs[from].id),
              if heir != from then heir else if right < |s.tabs| then right else from - 1)
  {
    hide Inv, CloseById, KeptFrom, NextKept;
    var kept := KeptFrom(s.tabs, mode, target, from + 1);
    var right := NextKept(s.tabs, mode, target, from + 1);
    assert r.tabs == s.tabs[..from + 1] + kept && r.tabs[from] == s.tabs[from];
    FocusElsewhere(s, r, from, heir);
    NextKeptIsFirst(s.tabs, mode, target, from + 1);
    assert kept != [] ==> r.tabs[from + 1] == s.tabs[right];
    assert from > 0 ==> r.tabs[from - 1] == s.tabs[from - 1];
    CloseMovesFocus(r, from);
  }

  lemma {:induction false} FocusTail(s: State, mode: Mode, target: int, from: nat)
    requires Inv(s) && HasActive(s) && from <= |s.tabs| && !Blocked(s.tabs, mode, target)
    ensures Focused(s, CloseReverse(s, IdsFrom(s.tabs, mode, target, from)), Heir(s, mode, target, from))
    decreases |s.tabs| - from
  {
    hide Inv, CloseById, TailClosed, IdsFrom, CloseReverse, Focused, Heir, KeptFrom;
    if from == |s.tabs| {
      NothingToClose(s, mode, target);
      FocusStart(s, mode, target);
    } else {
      var r := CloseReverse(s, IdsFrom(s.tabs, mode, target, from + 1));
      FocusTail(s, mode, target, from + 1);
      CloseTail(s, mode, target, from + 1);
      CloseReverseStep(s, mode, target, from);
      HeirStep(s, mode, target, from);
      if Affected(s.tabs, mode, from, target) {
        CloseHandsOn(s, r, mode, target, from, Heir(s, mode, target, from + 1));
      }
    }
  }

  lemma FocusStart(s: State, mode: Mode, target: int)
    requires HasActive(s)
    ensures Focused(s, s, Heir(s, mode, target, |s.tabs|))
  {
  }

  /** After a batch close the active tab is the one that was active if it is
      kept, else the first kept tab on its right, else the last on its left. */
  lemma BatchCloseFocus(s: State, mode: Mode, target: int)
    requires Inv(s) && 0 <= target < |s.tabs| && !Blocked(s.tabs, mode, target)
    ensures HasActive(s)
    ensures var t, heir := CloseReverse(s, IdsFrom(s.tabs, mode, target, 0)), Heir(s, mode, target, 0);
      && 0 <= heir < |s.tabs| && !Affected(s.tabs, mode, heir, target)
      && HasActive(t) && t.tabs[t.active] == s.tabs[heir]
  {
    FocusTail(s, mode, target, 0);
    assert !Affected(s.tabs, mode, target, target);
  }

  // ---------------------------------------------------------------------------
  // Closing the others
  // ---------------------------------------------------------------------------

  /** Is the target active once every other unpinned tab is closed? */
  predicate ReachesTarget(s: State, target: int)
    requires HasActive(s) && 0 <= target < |s.tabs|
  {
    || s.active == target
    || (!s.tabs[s.active].pinned && (!s.tabs[target].pinned || target + 1 == Boundary(s.tabs)))
  }

  lemma {:induction false} LastKeptIs(tabs: seq<Tab>, mode: Mode, target: int, to: nat, k: nat)
    requires k < to <= |tabs| && !Affected(tabs, mode, k, target)
    requires forall i :: k < i < to ==> Affected(tabs, mode, i, target)
    ensures LastKept(tabs, mode, target, 0, to) == k
  {
    if to > k + 1 { LastKeptIs(tabs, mode, target, to - 1, k); }
  }

  lemma {:induction false} NextKeptIs(tabs: seq<Tab>, mode: Mode, target: int, from: nat, k: nat)
    requires from <= k < |tabs| && !Affected(tabs, mode, k, target)
    requires forall i :: from <= i < k ==> Affected(tabs, mode, i, target)
    ensures NextKept(tabs, mode, target, from) == k
    decreases k - from
  {
    if from < k { NextKeptIs(tabs, mode, target, from + 1, k); }
  }

  lemma OthersAffected(s: State, target: int)
    requires Inv(s)
    ensures forall i :: 0 <= i < |s.tabs| ==>
      (Affected(s.tabs, Others, i, target) <==> i != target && i >= Boundary(s.tabs))
    ensures forall i :: 0 <= i < |s.tabs| ==> (s.tabs[i].pinned <==> i < Boundary(s.tabs))
  {
    BoundaryIsThreshold(s.tabs);
  }

  lemma HeirIsTargetIff(s: State, target: int)
    requires Inv(s) && 0 <= target < |s.tabs|
    ensures HasActive(s)
    ensures Heir(s, Others, target, 0) == target <==> ReachesTarget(s, target)
  {
    hide Affected, NextKept, LastKept, Boundary;
    var a, b := s.active, Boundary(s.tabs);
    OthersAffected(s, target);
    if a != target && a >= b {
      if target > a {
        NextKeptIs(s.tabs, Others, target, a + 1, target);
      } else {
        NothingOnTheRight(s.tabs, Others, target, a + 1);
        LastKeptIs(s.tabs, Others, target, a, if target >= b then target else b - 1);
      }
    }
  }

  /** Closing every peer makes the target active by itself exactly when it was
      active, or the active tab goes and the target is unpinned or the last of
      the pinned tabs. */
  lemma ClosingPeersReachesTargetIff(s: State, target: int)
    requires Inv(s) && 0 <= target < |s.tabs| && !Blocked(s.tabs, Others, target)
    ensures HasActive(s)
    ensures var t := CloseReverse(s, IdsFrom(s.tabs, Others, target, 0));
      HasActive(t) && (t.tabs[t.active].id == s.tabs[target].id <==> ReachesTarget(s, target))
  {
    BatchCloseFocus(s, Others, target);
    HeirIsTargetIff(s, target);
    var heir := Heir(s, Others, target, 0);
    UniqueIndex(s.tabs, heir);
    UniqueIndex(s.tabs, target);
  }

  /** With the selection that follows the target is active in any case; without
      a native tab strip the selection does nothing. */
  lemma OthersFocusesTargetIff(s: State, target: int, native: bool)
    requires Inv(s) && 0 <= target < |s.tabs| && !Blocked(s.tabs, Others, target)
    ensures HasActive(s)
    ensures var id := s.tabs[target].id;
      var t := Activate(CloseReverse(s, IdsFrom(s.tabs, Others, target, 0)), id, native);
      Inv(t) && HasActive(t) && (t.tabs[t.active].id == id <==> native || ReachesTarget(s, target))
  {
    ClosingPeersReachesTargetIff(s, target);
    BatchCloseResult(s, Others, target);
    var t := CloseReverse(s, IdsFrom(s.tabs, Others, target, 0));
    var i :| 0 <= i < |t.tabs| && t.tabs[i] == s.tabs[target];
    UniqueIndex(t.tabs, i);
    SelectKeepsInv(t, i);
  }

  // ---------------------------------------------------------------------------
  // The target is not always reached
  // ---------------------------------------------------------------------------

  function PlainTab(p: Profile, n: nat, pinned: bool): Tab {
    Tab(RuntimeName(n), p.id, n, p, Content("", "", "", "", false), "", false, false, pinned, Idle, "")
  }

  /** A pinned active tab and two unpinned ones. */
  function ThreeTabs(p: Profile): State {
    State([PlainTab(p, 1, true), PlainTab(p, 2, false), PlainTab(p, 3, false)], 0, 3, [])
  }

  lemma NamesDiffer(m: nat, n: nat)
    requires m != n
    ensures RuntimeName(m) != RuntimeName(n)
  {
    if RuntimeName(m) == RuntimeName(n) { SuffixInjective("runtime-", m, n); }
  }

  lemma PlainTabIsOk(p: Profile, n: nat, pinned: bool, nextId: nat)
    requires !Blank(p.id) && 1 <= n <= nextId
    ensures TabOk(PlainTab(p, n, pinned), nextId)
  {
  }

  lemma ThreeTabsAreSound(p: Profile)
    requires !Blank(p.id)
    ensures Inv(ThreeTabs(p)) && !Blocked(ThreeTabs(p).tabs, Others, 1)
  {
    PlainTabIsOk(p, 1, true, 3);
    PlainTabIsOk(p, 2, false, 3);
    PlainTabIsOk(p, 3, false, 3);
    NamesDiffer(1, 2);
    NamesDiffer(1, 3);
    NamesDiffer(2, 3);
    hide TabOk, RuntimeName, Blank;
  }

  /** Closing the peers of the second tab leaves the pinned first one active. */
  lemma PinnedTabStaysActive(p: Profile)
    requires !Blank(p.id)
    ensures var s := ThreeTabs(p);
      var t := CloseReverse(s, IdsFrom(s.tabs, Others, 1, 0));
      && Inv(s) && !Blocked(s.tabs, Others, 1)
      && HasActive(t) && t.tabs[t.active] == s.tabs[0] && t.tabs[t.active].id != s.tabs[1].id
  {
    hide Inv, CloseReverse, IdsFrom, Blocked;
    var s := ThreeTabs(p);
    ThreeTabsAreSound(p);
    BatchCloseFocus(s, Others, 1);
    ClosingPeersReachesTargetIff(s, 1);
    assert Heir(s, Others, 1, 0) == 0;
  }
}
