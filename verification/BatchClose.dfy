/** Closing the other tabs, or those on one side (guis/terminal_context_menu.go).
    The ids are collected first; then each is looked up again in the shrinking
    workspace and closed, last one first. */
module BatchClose {
  import opened Workspace
  import opened WorkspaceLaws

  datatype Mode = Others | ToLeft | ToRight

  predicate InScope(mode: Mode, index: int, target: int) {
    index != target && !(mode.ToLeft? && index > target) && !(mode.ToRight? && index < target)
  }

  /** In scope, and not protected by a pin. */
  predicate Affected(tabs: seq<Tab>, mode: Mode, index: int, target: int)
    requires 0 <= index < |tabs|
  {
    InScope(mode, index, target) && !tabs[index].pinned
  }

  ghost predicate Blocked(tabs: seq<Tab>, mode: Mode, target: int) {
    exists i :: 0 <= i < |tabs| && Affected(tabs, mode, i, target) && tabs[i].status.Running?
  }

  function IdsFrom(tabs: seq<Tab>, mode: Mode, target: int, from: nat): seq<string>
    requires from <= |tabs|
    decreases |tabs| - from
  {
    if from == |tabs| then []
    else (if Affected(tabs, mode, from, target) then [tabs[from].id] else [])
         + IdsFrom(tabs, mode, target, from + 1)
  }

  /** What a batch close leaves of the tabs from from on. */
  function KeptFrom(tabs: seq<Tab>, mode: Mode, target: int, from: nat): seq<Tab>
    requires from <= |tabs|
    decreases |tabs| - from
  {
    if from == |tabs| then []
    else (if Affected(tabs, mode, from, target) then [] else [tabs[from]])
         + KeptFrom(tabs, mode, target, from + 1)
  }

  function CloseById(s: State, id: string): State {
    var i := IndexOf(s.tabs, id);
    if i >= 0 && !s.tabs[i].pinned then CloseSpec(s, i).0 else s
  }

  /** Closes ids one at a time, the last one first. */
  function CloseReverse(s: State, ids: seq<string>): State {
    if ids == [] then s else CloseById(CloseReverse(s, ids[1..]), ids[0])
  }

  /** activateSessionByID; native tells whether there is a native tab strip. */
  function Activate(s: State, id: string, native: bool): State {
    var i := IndexOf(s.tabs, id);
    if i < 0 || !native || i == s.active then s else SelectSpec(s, i).0
  }

  // ---------------------------------------------------------------------------
  // The imperative version
  // ---------------------------------------------------------------------------

  lemma IdsUnfold(tabs: seq<Tab>, mode: Mode, target: int, from: nat)
    requires from < |tabs|
    ensures var rest := IdsFrom(tabs, mode, target, from + 1);
      IdsFrom(tabs, mode, target, from) == if Affected(tabs, mode, from, target) then [tabs[from].id] + rest else rest
  {
    var rest := IdsFrom(tabs, mode, target, from + 1);
    assert [] + rest == rest;
  }

  lemma Regroup<T>(a: seq<T>, x: T, b: seq<T>)
    ensures a + ([x] + b) == (a + [x]) + b
  {
  }

  method BatchCloseSessionIds(w: SessionWorkspace, targetId: string, mode: Mode)
    returns (ids: seq<string>, ok: bool)
    ensures var target := IndexOf(w.tabs, targetId);
      if target < 0 || Blocked(w.tabs, mode, target) then ids == [] && !ok
      else ids == IdsFrom(w.tabs, mode, target, 0) && ok == (ids != [])
  {
    var target := w.Find(targetId);
    if target < 0 {
      return [], false;
    }
    hide IdsFrom, IndexOf, Affected, Blocked;
    ids := [];
    var states := w.tabs;
    var index := 0;
    while index < |states|
      invariant 0 <= index <= |states|
      invariant ids + IdsFrom(states, mode, target, index) == IdsFrom(states, mode, target, 0)
      invariant forall i :: 0 <= i < index ==>
        !(Affected(states, mode, i, target) && states[i].status.Running?)
    {
      var state := states[index];
      IdsUnfold(states, mode, target, index);
      AffectedMeans(states, mode, index, target);
      Regroup(ids, state.id, IdsFrom(states, mode, target, index + 1));
      if !(index == target || (mode.ToLeft? && index > target) || (mode.ToRight? && index < target))
        && !state.pinned
      {
        if state.status.Running? {
          RunningBlocks(states, mode, target, index);
          return [], false;
        }
        ids := ids + [state.id];
      }
      index := index + 1;
    }
    NoIdsLeft(states, mode, target);
    NothingBlocks(states, mode, target);
    ok := |ids| > 0;
  }

  lemma AffectedMeans(tabs: seq<Tab>, mode: Mode, index: int, target: int)
    requires 0 <= index < |tabs|
    ensures Affected(tabs, mode, index, target) <==>
      && !(index == target || (mode.ToLeft? && index > target) || (mode.ToRight? && index < target))
      && !tabs[index].pinned
  {
  }

  lemma RunningBlocks(tabs: seq<Tab>, mode: Mode, target: int, index: int)
    requires 0 <= index < |tabs| && Affected(tabs, mode, index, target) && tabs[index].status.Running?
    ensures Blocked(tabs, mode, target)
  {
  }

  lemma NothingBlocks(tabs: seq<Tab>, mode: Mode, target: int)
    requires forall i :: 0 <= i < |tabs| ==> !(Affected(tabs, mode, i, target) && tabs[i].status.Running?)
    ensures !Blocked(tabs, mode, target)
  {
  }

  lemma NoIdsLeft(tabs: seq<Tab>, mode: Mode, target: int)
    ensures IdsFrom(tabs, mode, target, |tabs|) == []
  {
  }

  method CloseSessionById(w: SessionWorkspace, id: string)
    modifies w
    ensures w.St() == CloseById(old(w.St()), id)
  {
    var index := w.Find(id);
    if index >= 0 && !w.tabs[index].pinned {
      var _ := w.Close(index);
    }
  }

  method CloseSessionBatch(w: SessionWorkspace, targetId: string, mode: Mode, native: bool)
    modifies w
    ensures var s := old(w.St());
      var target := IndexOf(s.tabs, targetId);
      var ids := if target < 0 then [] else IdsFrom(s.tabs, mode, target, 0);
      if ids == [] || Blocked(s.tabs, mode, target) then w.St() == s
      else
        var t := CloseReverse(s, ids);
        w.St() == if mode.Others? then Activate(t, targetId, native) else t
  {
    var ids, ok := BatchCloseSessionIds(w, targetId, mode);
    if !ok {
      return;
    }
    var index := |ids| - 1;
    while index >= 0
      invariant -1 <= index < |ids|
      invariant w.St() == CloseReverse(old(w.St()), ids[index + 1..])
    {
      assert ids[index..][1..] == ids[index + 1..];
      CloseSessionById(w, ids[index]);
      index := index - 1;
    }
    assert ids[0..] == ids;
    if mode.Others? {
      var at := w.Find(targetId);
      if at >= 0 && native && at != w.activeIndex {
        var _ := w.Select(at);
      }
    }
  }

  // ---------------------------------------------------------------------------
  // The result, although every close shifts the positions of the others
  // ---------------------------------------------------------------------------

  ghost predicate SameActive(s: State, t: State) {
    HasActive(s) && HasActive(t) && t.tabs[t.active] == s.tabs[s.active]
  }

  /** One more close: the tab at from goes, found by its id. */
  lemma CloseOneMore(r: State, from: nat)
    requires Inv(r) && from < |r.tabs| && CanClose(r, from)
    ensures var t := CloseById(r, r.tabs[from].id);
      && Inv(t) && t.tabs == RemoveAt(r.tabs, from) && t.nextId == r.nextId
      && (r.active != from ==> SameActive(r, t))
  {
    UniqueIndex(r.tabs, from);
    CloseKeepsInv(r, from);
    CloseRemovesOne(r, from);
  }

  /** If r's tab at from is s's, and some other tab is active in s and still in
      r, then r's tab at from is not the active one. */
  lemma ActiveElsewhere(s: State, r: State, from: nat)
    requires Inv(s) && from < |s.tabs| && from < |r.tabs| && r.tabs[from] == s.tabs[from]
    requires SameActive(s, r) && s.active != from
    ensures r.active != from
  {
    var lo, hi := if s.active < from then s.active else from, if s.active < from then from else s.active;
    assert Apart(s.tabs[lo], s.tabs[hi]);
  }

  lemma KeptStep(tabs: seq<Tab>, mode: Mode, target: int, from: nat)
    requires from < |tabs|
    ensures var kept, rest := KeptFrom(tabs, mode, target, from), KeptFrom(tabs, mode, target, from + 1);
      && (Affected(tabs, mode, from, target) ==>
            RemoveAt(tabs[..from + 1] + rest, from) == tabs[..from] + kept)
      && (!Affected(tabs, mode, from, target) ==> tabs[..from + 1] + rest == tabs[..from] + kept)
  {
    var rest := KeptFrom(tabs, mode, target, from + 1);
    KeptUnfolds(tabs, mode, target, from);
    hide KeptFrom, RemoveAt, Affected;
    SplitAround(tabs, from, rest);
  }

  lemma KeptUnfolds(tabs: seq<Tab>, mode: Mode, target: int, from: nat)
    requires from < |tabs|
    ensures var rest := KeptFrom(tabs, mode, target, from + 1);
      KeptFrom(tabs, mode, target, from) == if Affected(tabs, mode, from, target) then rest else [tabs[from]] + rest
  {
    var rest := KeptFrom(tabs, mode, target, from + 1);
    assert [] + rest == rest;
  }

  lemma SplitAround<T>(s: seq<T>, i: nat, rest: seq<T>)
    requires i < |s|
    ensures RemoveAt(s[..i + 1] + rest, i) == s[..i] + rest
    ensures s[..i + 1] + rest == s[..i] + ([s[i]] + rest)
  {
  }

  lemma CloseReverseStep(s: State, mode: Mode, target: int, from: nat)
    requires from < |s.tabs|
    ensures var t, r := CloseReverse(s, IdsFrom(s.tabs, mode, target, from)),
                        CloseReverse(s, IdsFrom(s.tabs, mode, target, from + 1));
      t == if Affected(s.tabs, mode, from, target) then CloseById(r, s.tabs[from].id) else r
  {
    var later := IdsFrom(s.tabs, mode, target, from + 1);
    if Affected(s.tabs, mode, from, target) {
      assert ([s.tabs[from].id] + later)[1..] == later;
    } else {
      assert [] + later == later;
    }
  }

  /** t is s after the affected tabs at from or later were closed. */
  ghost predicate TailClosed(s: State, t: State, mode: Mode, target: int, from: nat)
    requires from <= |s.tabs|
  {
    && Inv(t)
    && t.tabs == s.tabs[..from] + KeptFrom(s.tabs, mode, target, from)
    && (HasActive(s) && (s.active < from || !Affected(s.tabs, mode, s.active, target)) ==> SameActive(s, t))
  }

  /** The tabs up to from are still in place in r, so the tab is found there. */
  lemma TailStep(s: State, r: State, mode: Mode, target: int, from: nat)
    requires Inv(s) && from < |s.tabs| && TailClosed(s, r, mode, target, from + 1)
    ensures Affected(s.tabs, mode, from, target) && !s.tabs[from].status.Running? ==>
      TailClosed(s, CloseById(r, s.tabs[from].id), mode, target, from)
    ensures !Affected(s.tabs, mode, from, target) ==> TailClosed(s, r, mode, target, from)
  {
    KeptStep(s.tabs, mode, target, from);
    assert r.tabs[from] == s.tabs[from];
    if Affected(s.tabs, mode, from, target) && !s.tabs[from].status.Running? {
      CloseOneMore(r, from);
      if SameActive(s, r) && s.active != from { ActiveElsewhere(s, r, from); }
    }
  }

  lemma NothingToClose(s: State, mode: Mode, target: int)
    ensures CloseReverse(s, IdsFrom(s.tabs, mode, target, |s.tabs|)) == s
  {
  }

  lemma TailStart(s: State, mode: Mode, target: int)
    requires Inv(s)
    ensures TailClosed(s, s, mode, target, |s.tabs|)
  {
    assert s.tabs[..|s.tabs|] + [] == s.tabs;
  }

  lemma {:induction false} CloseTail(s: State, mode: Mode, target: int, from: nat)
    requires Inv(s) && from <= |s.tabs| && !Blocked(s.tabs, mode, target)
    ensures TailClosed(s, CloseReverse(s, IdsFrom(s.tabs, mode, target, from)), mode, target, from)
    decreases |s.tabs| - from
  {
    hide Inv, CloseById, TailClosed, IdsFrom, CloseReverse;
    if from == |s.tabs| {
      TailStart(s, mode, target);
      NothingToClose(s, mode, target);
    } else {
      CloseTail(s, mode, target, from + 1);
      TailStep(s, CloseReverse(s, IdsFrom(s.tabs, mode, target, from + 1)), mode, target, from);
      CloseReverseStep(s, mode, target, from);
    }
  }

  /** All or nothing: if an affected tab runs, nothing changes; otherwise the
      target, the pinned tabs and the tabs out of scope remain, in order and
      untouched, nothing else does, and the active tab stays active if it is
      among them. */
  lemma BatchCloseResult(s: State, mode: Mode, target: int)
    requires Inv(s) && 0 <= target < |s.tabs| && !Blocked(s.tabs, mode, target)
    ensures var t := CloseReverse(s, IdsFrom(s.tabs, mode, target, 0));
      && Inv(t)
      && t.tabs == KeptFrom(s.tabs, mode, target, 0)
      && s.tabs[target] in t.tabs
      && (!Affected(s.tabs, mode, s.active, target) ==>
            HasActive(t) && t.tabs[t.active] == s.tabs[s.active])
  {
    CloseTail(s, mode, target, 0);
    assert s.tabs[..0] + KeptFrom(s.tabs, mode, target, 0) == KeptFrom(s.tabs, mode, target, 0);
    KeptIsFilter(s.tabs, mode, target, 0);
  }

  /** KeptFrom keeps exactly the tabs that are not affected. */
  lemma {:induction false} KeptIsFilter(tabs: seq<Tab>, mode: Mode, target: int, from: nat)
    requires from <= |tabs|
    ensures forall i :: from <= i < |tabs| && !Affected(tabs, mode, i, target) ==>
      tabs[i] in KeptFrom(tabs, mode, target, from)
    ensures forall t :: t in KeptFrom(tabs, mode, target, from) ==>
      exists i :: from <= i < |tabs| && tabs[i] == t && !Affected(tabs, mode, i, target)
    decreases |tabs| - from
  {
    if from == |tabs| {
    } else {
      KeptIsFilter(tabs, mode, target, from + 1);
    }
  }

  /** To be closed: the unpinned tabs other than the target, or those of them on
      one side of it. */
  predicate Leaves(tabs: seq<Tab>, mode: Mode, i: int, target: int)
    requires 0 <= i < |tabs|
  {
    !tabs[i].pinned && match mode case Others => i != target case ToLeft => i < target case ToRight => i > target
  }

  lemma AffectedLeaves(tabs: seq<Tab>, mode: Mode, target: int)
    ensures forall i :: 0 <= i < |tabs| ==> (Affected(tabs, mode, i, target) <==> Leaves(tabs, mode, i, target))
  {
  }

  /** at are the positions from from on of the tabs that stay, in order. */
  ghost predicate Stays(tabs: seq<Tab>, mode: Mode, target: int, from: nat, at: seq<int>) {
    && (forall n :: 0 <= n < |at| ==> from <= at[n] < |tabs| && !Leaves(tabs, mode, at[n], target))
    && (forall m, n :: 0 <= m < n < |at| ==> at[m] < at[n])
    && (forall i :: from <= i < |tabs| && !Leaves(tabs, mode, i, target) ==> i in at)
  }

  /** kept are the tabs at these positions. */
  ghost predicate At(tabs: seq<Tab>, kept: seq<Tab>, at: seq<int>) {
    |kept| == |at| && forall n :: 0 <= n < |at| ==> 0 <= at[n] < |tabs| && kept[n] == tabs[at[n]]
  }

  lemma OneMoreAt(tabs: seq<Tab>, kept: seq<Tab>, at: seq<int>, from: nat)
    requires from < |tabs| && At(tabs, kept, at)
    ensures At(tabs, [tabs[from]] + kept, [from] + at)
  {
  }

  lemma StaysSkip(tabs: seq<Tab>, mode: Mode, target: int, from: nat, at: seq<int>)
    requires from < |tabs| && Stays(tabs, mode, target, from + 1, at) && Leaves(tabs, mode, from, target)
    ensures Stays(tabs, mode, target, from, at)
  {
    hide Leaves;
  }

  lemma StaysKeep(tabs: seq<Tab>, mode: Mode, target: int, from: nat, at: seq<int>)
    requires from < |tabs| && Stays(tabs, mode, target, from + 1, at) && !Leaves(tabs, mode, from, target)
    ensures Stays(tabs, mode, target, from, [from] + at)
  {
    hide Leaves;
    var more := [from] + at;
    forall n | 0 <= n < |more| ensures from <= more[n] < |tabs| && !Leaves(tabs, mode, more[n], target) {
      if n > 0 { assert more[n] == at[n - 1]; }
    }
    forall m, n | 0 <= m < n < |more| ensures more[m] < more[n] {
      assert more[n] == at[n - 1];
      if m > 0 { assert more[m] == at[m - 1]; }
    }
    forall i | from <= i < |tabs| && !Leaves(tabs, mode, i, target) ensures i in more {
      if i > from { assert i in at; }
    }
  }

  lemma {:induction false} KeptStays(tabs: seq<Tab>, mode: Mode, target: int, from: nat) returns (at: seq<int>)
    requires from <= |tabs|
    ensures Stays(tabs, mode, target, from, at) && At(tabs, KeptFrom(tabs, mode, target, from), at)
    decreases |tabs| - from
  {
    at := [];
    if from < |tabs| {
      hide Affected, Leaves, Stays, At, KeptFrom;
      at := KeptStays(tabs, mode, target, from + 1);
      AffectedLeaves(tabs, mode, target);
      KeptUnfolds(tabs, mode, target, from);
      if Leaves(tabs, mode, from, target) {
        StaysSkip(tabs, mode, target, from, at);
      } else {
        StaysKeep(tabs, mode, target, from, at);
        OneMoreAt(tabs, KeptFrom(tabs, mode, target, from + 1), at, from);
        at := [from] + at;
      }
    }
  }

  /** Exactly the tabs in question leave, the others keep their order; if one in
      question runs, the close is blocked. */
  lemma BatchCloseLeaves(s: State, mode: Mode, target: int) returns (at: seq<int>)
    requires Inv(s) && 0 <= target < |s.tabs|
    ensures Blocked(s.tabs, mode, target) <==>
      exists i :: 0 <= i < |s.tabs| && Leaves(s.tabs, mode, i, target) && s.tabs[i].status.Running?
    ensures Stays(s.tabs, mode, target, 0, at)
    ensures var t := CloseReverse(s, IdsFrom(s.tabs, mode, target, 0));
      !Blocked(s.tabs, mode, target) ==> At(s.tabs, t.tabs, at)
  {
    AffectedLeaves(s.tabs, mode, target);
    at := KeptStays(s.tabs, mode, target, 0);
    hide CloseReverse, IdsFrom, KeptFrom;
    if !Blocked(s.tabs, mode, target) { BatchCloseResult(s, mode, target); }
  }
}
