/** The close history over many closes and reopenings
    (guis/session_workspace.go): last in, first out, up to its bound. */
module CloseHistory {
  import opened Profiles
  import opened Workspace
  import opened WorkspaceLaws

  /** The latest closed profiles, at most 20. */
  function Latest(profiles: seq<Profile>): seq<Profile> {
    if |profiles| > 20 then profiles[|profiles| - 20..] else profiles
  }

  predicate AllClose(s: State, at: seq<int>)
    decreases |at|
  {
    at == [] || (CanClose(s, at[0]) && AllClose(CloseSpec(s, at[0]).0, at[1..]))
  }

  function CloseEach(s: State, at: seq<int>): State
    decreases |at|
  {
    if at == [] then s else CloseEach(CloseSpec(s, at[0]).0, at[1..])
  }

  /** The profiles of the tabs that are closed, in order. */
  function ClosedProfiles(s: State, at: seq<int>): (profiles: seq<Profile>)
    requires AllClose(s, at)
    ensures |profiles| == |at|
    decreases |at|
  {
    if at == [] then [] else [s.tabs[at[0]].profile] + ClosedProfiles(CloseSpec(s, at[0]).0, at[1..])
  }

  /** Reopens once for every welcome text. */
  function ReopenEach(s: State, welcomes: seq<string>): State
    decreases |welcomes|
  {
    if welcomes == [] then s else ReopenEach(ReopenSpec(s, welcomes[0]).0, welcomes[1..])
  }

  // ---------------------------------------------------------------------------
  // Closing
  // ---------------------------------------------------------------------------

  lemma CloseOnce(s: State, index: int)
    requires Inv(s) && CanClose(s, index)
    ensures var t := CloseSpec(s, index).0; Inv(t) && t.closed == Latest(s.closed + [s.tabs[index].profile])
  {
    CloseKeepsInv(s, index);
  }

  lemma BoundIsKept(s: State)
    requires Inv(s)
    ensures Latest(s.closed) == s.closed
  {
  }

  lemma LatestOfLatest(a: seq<Profile>, b: seq<Profile>)
    ensures Latest(Latest(a) + b) == Latest(a + b)
  {
  }

  lemma LatestInTurn(a: seq<Profile>, x: Profile, b: seq<Profile>)
    ensures Latest(Latest(a + [x]) + b) == Latest(a + ([x] + b))
  {
    LatestOfLatest(a + [x], b);
    assert (a + [x]) + b == a + ([x] + b);
  }

  lemma {:induction false} CloseEachRemembers(s: State, at: seq<int>)
    requires Inv(s) && AllClose(s, at)
    ensures var t := CloseEach(s, at); Inv(t) && t.closed == Latest(s.closed + ClosedProfiles(s, at))
    decreases |at|
  {
    hide Inv, CloseSpec, Latest;
    if at == [] {
      BoundIsKept(s);
      assert s.closed + [] == s.closed;
    } else {
      var next, profile := CloseSpec(s, at[0]).0, s.tabs[at[0]].profile;
      CloseOnce(s, at[0]);
      CloseEachRemembers(next, at[1..]);
      LatestInTurn(s.closed, profile, ClosedProfiles(next, at[1..]));
    }
  }

  // ---------------------------------------------------------------------------
  // Reopening
  // ---------------------------------------------------------------------------

  /** t is s with new idle tabs for these profiles behind it. */
  predicate OpenedBehind(s: State, t: State, profiles: seq<Profile>) {
    && |t.tabs| == |s.tabs| + |profiles| && t.tabs[..|s.tabs|] == s.tabs
    && forall i :: |s.tabs| <= i < |t.tabs| ==>
         t.tabs[i].profile == profiles[i - |s.tabs|] && t.tabs[i].status.Idle?
  }

  function Backwards(profiles: seq<Profile>): (b: seq<Profile>)
    ensures |b| == |profiles|
  {
    if profiles == [] then [] else [profiles[|profiles| - 1]] + Backwards(profiles[..|profiles| - 1])
  }

  lemma ReopenOnce(s: State, welcome: string)
    requires Inv(s) && s.closed != []
    ensures var t := ReopenSpec(s, welcome).0; var last := |s.closed| - 1;
      Inv(t) && t.closed == s.closed[..last] && OpenedBehind(s, t, [s.closed[last]])
  {
    ReopenKeepsInv(s, welcome);
  }

  lemma OpenedInTurn(s: State, t: State, u: State, first: Profile, rest: seq<Profile>)
    requires OpenedBehind(s, t, [first]) && OpenedBehind(t, u, rest)
    ensures OpenedBehind(s, u, [first] + rest)
  {
    var n := |s.tabs|;
    assert u.tabs[..n] == u.tabs[..n + 1][..n];
    forall i | n <= i < |u.tabs|
      ensures u.tabs[i].profile == ([first] + rest)[i - n] && u.tabs[i].status.Idle?
    {
      if i == n { assert u.tabs[n] == u.tabs[..n + 1][n]; }
    }
  }

  lemma BackwardsStep(closed: seq<Profile>, n: nat)
    requires n < |closed|
    ensures var last := |closed| - 1;
      && Backwards(closed[n..]) == [closed[last]] + Backwards(closed[..last][n..])
      && closed[..last][..n] == closed[..n]
  {
    var last := |closed| - 1;
    assert closed[n..][..last - n] == closed[..last][n..];
  }

  lemma {:induction false} ReopenEachOpens(s: State, welcomes: seq<string>)
    requires Inv(s) && |welcomes| <= |s.closed|
    ensures var n := |s.closed| - |welcomes|; var t := ReopenEach(s, welcomes);
      Inv(t) && t.closed == s.closed[..n] && OpenedBehind(s, t, Backwards(s.closed[n..]))
    decreases |welcomes|
  {
    hide Inv, ReopenSpec, OpenedBehind, Backwards;
    var n := |s.closed| - |welcomes|;
    if welcomes == [] {
      NothingOpened(s);
      assert s.closed[n..] == [] && s.closed[..n] == s.closed;
    } else {
      var t := ReopenSpec(s, welcomes[0]).0;
      ReopenOnce(s, welcomes[0]);
      ReopenEachOpens(t, welcomes[1..]);
      BackwardsStep(s.closed, n);
      OpenedInTurn(s, t, ReopenEach(t, welcomes[1..]), s.closed[|s.closed| - 1], Backwards(t.closed[n..]));
    }
  }

  lemma NothingOpened(s: State)
    ensures OpenedBehind(s, s, Backwards([]))
  {
    assert s.tabs[..|s.tabs|] == s.tabs;
  }

  lemma LatestEnd(a: seq<Profile>, b: seq<Profile>, k: nat)
    requires k <= |b| && k <= 20
    ensures var all := Latest(a + b); k <= |all| && all[|all| - k..] == b[|b| - k..]
  {
  }

  /** Closing any number of tabs and reopening as many, but at most 20,
      opens their profiles again, the last one closed first, and leaves of the
      older history what the bound allows. */
  lemma CloseHistoryIsLifo(s: State, at: seq<int>, welcomes: seq<string>)
    requires Inv(s) && AllClose(s, at) && |welcomes| <= |at| && |welcomes| <= 20
    ensures var closed, k := ClosedProfiles(s, at), |welcomes|;
      var t := CloseEach(s, at);
      var u := ReopenEach(t, welcomes);
      var history := Latest(s.closed + closed);
      && Inv(u) && k <= |history|
      && OpenedBehind(t, u, Backwards(closed[|closed| - k..]))
      && u.closed == history[..|history| - k]
  {
    hide Inv, Latest, CloseEach, ReopenEach, AllClose, ClosedProfiles, OpenedBehind, Backwards;
    CloseEachRemembers(s, at);
    LatestEnd(s.closed, ClosedProfiles(s, at), |welcomes|);
    ReopenEachOpens(CloseEach(s, at), welcomes);
  }
}
