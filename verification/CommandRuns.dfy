/** The command-run registry of the application (guis/guis.go) next to the
    workspace.  A command is launched by runAsync, runs on its own goroutine and
    comes back once, on the GUI thread, with its final status. */
module CommandRuns {
  import opened Outcomes
  import opened Text
  import opened Profiles
  import opened Workspace
  import opened WorkspaceLaws

  /** A launched command: its session and its number in the registry. */
  datatype Launch = Launch(session: string, run: nat)

  datatype AppState = AppState(ws: State, runs: map<string, nat>, runId: nat)

  function Token(l: Launch): string { l.session + ":" + Decimal(l.run) }

  function BeginSpec(a: AppState, rawSession: string): (AppState, Option<nat>) {
    var session := TrimSpace(rawSession);
    if session == "" || session in a.runs then (a, None)
    else (a.(runs := a.runs[session := a.runId + 1], runId := a.runId + 1), Some(a.runId + 1))
  }

  function FinishSpec(a: AppState, l: Launch): (AppState, bool) {
    if l.session !in a.runs || a.runs[l.session] != l.run then (a, false)
    else (a.(runs := a.runs - {l.session}), true)
  }

  /** The tab to run in: the active one if it is the profile's, else a new one. */
  function EnsureSpec(s: State, profile: Profile, welcome: string): (State, Option<string>) {
    if Blank(profile.id) then (s, None)
    else if HasActive(s) && s.tabs[s.active].profileId == profile.id then (s, Some(s.tabs[s.active].id))
    else
      var t := OpenSpec(s, profile, welcome).0;
      if HasActive(t) && t.tabs[t.active].profileId == profile.id
      then (t, Some(t.tabs[t.active].id)) else (t, None)
  }

  function RunSpec(a: AppState, profile: Profile, welcome: string): (AppState, Option<Launch>) {
    var (ws, session) := EnsureSpec(a.ws, profile, welcome);
    var b := a.(ws := ws);
    if session.None? then (b, None)
    else
      var (c, run) := BeginSpec(b, session.value);
      if run.None? then (c, None)
      else
        var l := Launch(session.value, run.value);
        var (t, began) := BeginRunSpec(c.ws, Token(l));
        if began then (c.(ws := t), Some(l))
        else (FinishSpec(c, l).0, None)
  }

  function CompleteSpec(a: AppState, l: Launch, status: Status): (AppState, bool) {
    var (b, known) := FinishSpec(a, l);
    if !known then (a, false)
    else (b.(ws := FinishRunSpec(b.ws, Token(l), status).0), true)
  }

  // ---------------------------------------------------------------------------
  // In place
  // ---------------------------------------------------------------------------

  class App {
    const sessions: SessionWorkspace
    var runs: map<string, nat>
    var runId: nat

    ghost function St(): AppState
      reads this, sessions
    {
      AppState(sessions.St(), runs, runId)
    }

    constructor ()
      ensures St() == AppState(EMPTY, map[], 0) && fresh(sessions)
    {
      sessions := new SessionWorkspace();
      runs, runId := map[], 0;
    }

    method BeginCommandRunForSession(rawSession: string) returns (run: Option<nat>)
      modifies this
      ensures (St(), run) == BeginSpec(old(St()), rawSession)
    {
      var session := TrimSpace(rawSession);
      if session == "" {
        return None;
      }
      if session in runs {
        return None;
      }
      runId := runId + 1;
      runs := runs[session := runId];
      return Some(runId);
    }

    method FinishCommandRun(session: string, id: nat) returns (ok: bool)
      modifies this
      ensures (St(), ok) == FinishSpec(old(St()), Launch(session, id))
    {
      if session !in runs || runs[session] != id {
        return false;
      }
      runs := runs - {session};
      return true;
    }

    method EnsureRuntimeSession(profile: Profile, welcome: string) returns (session: Option<string>)
      modifies sessions
      ensures (sessions.St(), session) == EnsureSpec(old(sessions.St()), profile, welcome)
    {
      if TrimSpace(profile.id) == "" {
        return None;
      }
      var i := sessions.activeIndex;
      if 0 <= i < |sessions.tabs| && sessions.tabs[i].profileId == profile.id {
        return Some(sessions.tabs[i].id);
      }
      var _, _ := sessions.Open(profile, welcome);
      i := sessions.activeIndex;
      if 0 <= i < |sessions.tabs| && sessions.tabs[i].profileId == profile.id {
        return Some(sessions.tabs[i].id);
      }
      return None;
    }

    /** The GUI-thread part of runAsync; the result is the command to start. */
    method RunAsync(profile: Profile, welcome: string) returns (launch: Option<Launch>)
      modifies this, sessions
      ensures (St(), launch) == RunSpec(old(St()), profile, welcome)
    {
      var session := EnsureRuntimeSession(profile, welcome);
      if session.None? {
        return None;
      }
      var run := BeginCommandRunForSession(session.value);
      if run.None? {
        return None;
      }
      var l := Launch(session.value, run.value);
      var began := sessions.BeginRun(Token(l));
      if !began {
        var _ := FinishCommandRun(l.session, l.run);
        return None;
      }
      return Some(l);
    }

    /** The callback a launched command hands to AfterFlush. */
    method Complete(l: Launch, status: Status) returns (known: bool)
      modifies this, sessions
      ensures (St(), known) == CompleteSpec(old(St()), l, status)
    {
      known := FinishCommandRun(l.session, l.run);
      if known {
        var _ := sessions.FinishRun(Token(l), status);
      }
    }
  }

  // ---------------------------------------------------------------------------
  // The two registries agree
  // ---------------------------------------------------------------------------

  predicate RunsAs(t: Tab, id: string, token: string) {
    t.id == id && t.status.Running? && t.runId == token
  }

  /** Some tab with this id is running under this token. */
  ghost predicate RunsIn(s: State, id: string, token: string) {
    exists i :: 0 <= i < |s.tabs| && RunsAs(s.tabs[i], id, token)
  }

  /** A tab runs exactly when the registry holds its id with its token. */
  ghost predicate Agree(a: AppState) {
    forall id, token :: RunsIn(a.ws, id, token) <==> id in a.runs && token == Token(Launch(id, a.runs[id]))
  }

  /** inflight are the launched commands that have not come back yet. */
  datatype World = World(app: AppState, inflight: set<Launch>, finished: seq<Launch>)

  const START := World(AppState(EMPTY, map[], 0), {}, [])

  /** The registry holds exactly the commands under way; the finished ones are
      distinct and older. */
  ghost predicate Ledger(runs: map<string, nat>, runId: nat, inflight: set<Launch>, finished: seq<Launch>) {
    && (forall l :: l in inflight <==> l.session in runs && runs[l.session] == l.run)
    && (forall id :: id in runs ==> runs[id] <= runId)
    && (forall i :: 0 <= i < |finished| ==> finished[i].run <= runId && finished[i] !in inflight)
    && (forall i, j :: 0 <= i < j < |finished| ==> finished[i] != finished[j])
  }

  lemma LedgerBegin(runs: map<string, nat>, runId: nat, inflight: set<Launch>, finished: seq<Launch>, id: string)
    requires Ledger(runs, runId, inflight, finished) && id !in runs
    ensures Ledger(runs[id := runId + 1], runId + 1, inflight + {Launch(id, runId + 1)}, finished)
  {
  }

  lemma LedgerFinish(runs: map<string, nat>, runId: nat, inflight: set<Launch>, finished: seq<Launch>, l: Launch)
    requires Ledger(runs, runId, inflight, finished) && l in inflight
    ensures Ledger(runs - {l.session}, runId, inflight - {l}, finished + [l])
  {
  }

  ghost predicate WorldInv(w: World) {
    && Inv(w.app.ws)
    && Agree(w.app)
    && Ledger(w.app.runs, w.app.runId, w.inflight, w.finished)
  }

  lemma TokenInjective(l: Launch, m: Launch)
    requires Token(l) == Token(m)
    ensures l == m
  {
    DecimalRoundTrip(l.run);
    DecimalRoundTrip(m.run);
    LastSeparator(l.session, Decimal(l.run), m.session, Decimal(m.run), ':');
    DecimalInjective(l.run, m.run);
  }

  lemma TokenIsNotBlank(l: Launch)
    ensures !Blank(Token(l)) && Token(l) != ""
  {
    assert Token(l)[|l.session|] == ':';
    BlankIsAllSpaces(Token(l));
  }

  /** Operations other than BeginRun and FinishRun start and stop nothing:
      opening adds an idle tab, closing refuses running tabs. */
  lemma OtherOpsKeepRuns(s: State, op: Op, id: string, token: string)
    requires !op.BeginRun? && !op.FinishRun?
    ensures RunsIn(Do(s, op), id, token) <==> RunsIn(s, id, token)
  {
    match op {
      case Open(profile, welcome) => OpenKeepsRuns(s, profile, welcome, id, token);
      case Move(x, target) => MoveKeepsRuns(s, x, target, id, token);
      case MoveActive(delta) => MoveActiveKeepsRuns(s, delta, id, token);
      case SetPinned(x, pinned) => SetPinnedKeepsRuns(s, x, pinned, id, token);
      case Close(index) => CloseKeepsRuns(s, index, id, token);
      case ReopenLastClosed(welcome) => ReopenKeepsRuns(s, welcome, id, token);
      case DuplicateActive(welcome) => DuplicateKeepsRuns(s, welcome, id, token);
      case _ => InPlaceKeepsRuns(s, op, id, token);
    }
  }

  lemma SameTabsSameRuns(s: State, t: State, id: string, token: string)
    requires |s.tabs| == |t.tabs|
    requires forall i :: 0 <= i < |s.tabs| ==>
      && t.tabs[i].id == s.tabs[i].id
      && t.tabs[i].status == s.tabs[i].status && t.tabs[i].runId == s.tabs[i].runId
    ensures RunsIn(t, id, token) <==> RunsIn(s, id, token)
  {
    if RunsIn(s, id, token) {
      var i :| 0 <= i < |s.tabs| && RunsAs(s.tabs[i], id, token);
      assert RunsAs(t.tabs[i], id, token);
    }
  }

  lemma InPlaceKeepsRuns(s: State, op: Op, id: string, token: string)
    requires InPlace(op) && !op.BeginRun? && !op.FinishRun?
    ensures RunsIn(Do(s, op), id, token) <==> RunsIn(s, id, token)
  {
    hide Do, RunsIn;
    InPlaceKeepsTabs(s, op);
    SameTabsSameRuns(s, Do(s, op), id, token);
  }

  lemma OpenKeepsRuns(s: State, profile: Profile, welcome: string, id: string, token: string)
    ensures RunsIn(OpenSpec(s, profile, welcome).0, id, token) <==> RunsIn(s, id, token)
  {
    var t := OpenSpec(s, profile, welcome).0;
    if RunsIn(s, id, token) {
      var i :| 0 <= i < |s.tabs| && RunsAs(s.tabs[i], id, token);
      assert t.tabs[i] == s.tabs[i];
    }
  }

  lemma DuplicateKeepsRuns(s: State, welcome: string, id: string, token: string)
    ensures RunsIn(DuplicateSpec(s, welcome).0, id, token) <==> RunsIn(s, id, token)
  {
    if HasActive(s) {
      var tab := s.tabs[s.active];
      var profile := if tab.directory == "" then tab.profile else tab.profile.(workingDir := tab.directory);
      OpenKeepsRuns(s, profile, welcome, id, token);
      SameTabsSameRuns(OpenSpec(s, profile, welcome).0, DuplicateSpec(s, welcome).0, id, token);
    }
  }

  /** Positions change, but each other tab keeps a position and so its run. */
  lemma PermutedRuns(s: State, t: State, from: nat, to: nat, id: string, token: string)
    requires from < |s.tabs| == |t.tabs| && to < |t.tabs|
    requires forall j :: 0 <= j < |s.tabs| && j != from ==> t.tabs[NewIndex(from, to, j)] == s.tabs[j]
    requires RunsAs(t.tabs[to], id, token) == RunsAs(s.tabs[from], id, token)
    requires RunsIn(s, id, token)
    ensures RunsIn(t, id, token)
  {
    var j :| 0 <= j < |s.tabs| && RunsAs(s.tabs[j], id, token);
    assert RunsAs(t.tabs[NewIndex(from, to, j)], id, token);
  }

  lemma ReinsertKeepsRuns(s: State, t: State, from: nat, to: nat, y: Tab, id: string, token: string)
    requires from < |s.tabs| && to < |s.tabs| && t.tabs == InsertAt(RemoveAt(s.tabs, from), to, y)
    requires RunsAs(y, id, token) == RunsAs(s.tabs[from], id, token)
    ensures RunsIn(t, id, token) <==> RunsIn(s, id, token)
  {
    ReinsertAt(s.tabs, from, to, y);
    if RunsIn(s, id, token) { PermutedRuns(s, t, from, to, id, token); }
    if RunsIn(t, id, token) { PermutedRuns(t, s, to, from, id, token); }
  }

  lemma MoveKeepsRuns(s: State, x: string, target: int, id: string, token: string)
    ensures RunsIn(MoveSpec(s, x, target).0, id, token) <==> RunsIn(s, id, token)
  {
    if CanMove(s, x, target) {
      var from := IndexOf(s.tabs, x);
      ReinsertKeepsRuns(s, MoveSpec(s, x, target).0, from, target, s.tabs[from], id, token);
    }
  }

  lemma MoveActiveKeepsRuns(s: State, delta: int, id: string, token: string)
    ensures RunsIn(MoveActiveSpec(s, delta).0, id, token) <==> RunsIn(s, id, token)
  {
    if HasActive(s) { MoveKeepsRuns(s, s.tabs[s.active].id, s.active + delta, id, token); }
  }

  lemma ReopenKeepsRuns(s: State, welcome: string, id: string, token: string)
    ensures RunsIn(ReopenSpec(s, welcome).0, id, token) <==> RunsIn(s, id, token)
  {
    if s.closed != [] {
      var last := |s.closed| - 1;
      OpenKeepsRuns(s.(closed := s.closed[..last]), s.closed[last], welcome, id, token);
    }
  }

  lemma SetPinnedKeepsRuns(s: State, x: string, pinned: bool, id: string, token: string)
    ensures RunsIn(SetPinnedSpec(s, x, pinned).0, id, token) <==> RunsIn(s, id, token)
  {
    var i := IndexOf(s.tabs, x);
    if !Blank(x) && i >= 0 && s.tabs[i].pinned != pinned {
      ReinsertKeepsRuns(s, SetPinnedSpec(s, x, pinned).0, i, Boundary(RemoveAt(s.tabs, i)),
                        s.tabs[i].(pinned := pinned), id, token);
    }
  }

  lemma CloseKeepsRuns(s: State, index: int, id: string, token: string)
    ensures RunsIn(CloseSpec(s, index).0, id, token) <==> RunsIn(s, id, token)
  {
    if CanClose(s, index) {
      var t := CloseSpec(s, index).0;
      RemoveShape(s.tabs, index);
      if RunsIn(s, id, token) {
        var i :| 0 <= i < |s.tabs| && RunsAs(s.tabs[i], id, token);
        assert RunsAs(t.tabs[if i < index then i else i - 1], id, token);
      }
      if RunsIn(t, id, token) {
        var i :| 0 <= i < |t.tabs| && RunsAs(t.tabs[i], id, token);
        assert RunsAs(s.tabs[if i < index then i else i + 1], id, token);
      }
    }
  }

  lemma OpsKeepAgreement(a: AppState, op: Op)
    requires Inv(a.ws) && Agree(a) && !op.BeginRun? && !op.FinishRun?
    ensures Agree(a.(ws := Do(a.ws, op)))
  {
    forall id, token
      ensures RunsIn(Do(a.ws, op), id, token) <==> id in a.runs && token == Token(Launch(id, a.runs[id]))
    {
      OtherOpsKeepRuns(a.ws, op, id, token);
    }
  }

  lemma EnsureFindsActive(s: State, profile: Profile, welcome: string)
    requires Inv(s)
    ensures var (t, session) := EnsureSpec(s, profile, welcome);
      && (session.None? <==> Blank(profile.id))
      && (t == s || t == OpenSpec(s, profile, welcome).0)
      && Inv(t)
      && (session.Some? ==> HasActive(t) && t.tabs[t.active].id == session.value
                            && t.tabs[t.active].profileId == profile.id)
  {
    OpenKeepsInv(s, profile, welcome);
  }

  lemma SessionIdIsTrimmed(s: State, i: nat)
    requires Inv(s) && i < |s.tabs|
    ensures TrimSpace(s.tabs[i].id) == s.tabs[i].id && s.tabs[i].id != ""
  {
    var id := s.tabs[i].id;
    var k: nat :| 1 <= k <= s.nextId && id == RuntimeName(k);
    DecimalRoundTrip(k);
    assert id[|id| - 1] == Decimal(k)[|Decimal(k)| - 1];
    assert id[0] == 'r';
    TrimSpaceShape(id);
  }

  /** Starting the run on the active tab, which the registry does not hold yet. */
  lemma BeginKeepsAgreement(a: AppState, l: Launch)
    requires Inv(a.ws) && Agree(a) && HasActive(a.ws)
    requires l.session == a.ws.tabs[a.ws.active].id && l.session !in a.runs
    ensures var (t, began) := BeginRunSpec(a.ws, Token(l));
      began && Inv(t) && Agree(a.(ws := t, runs := a.runs[l.session := l.run]))
  {
    var i, token := a.ws.active, Token(l);
    TokenIsNotBlank(l);
    assert !RunsIn(a.ws, l.session, a.ws.tabs[i].runId);
    RunKeepsTabs(a.ws, token, Stopped);
    var t := BeginRunSpec(a.ws, token).0;
    var b := a.(ws := t, runs := a.runs[l.session := l.run]);
    forall id, tok
      ensures RunsIn(t, id, tok) <==> id in b.runs && tok == Token(Launch(id, b.runs[id]))
    {
      if id == l.session {
        UniqueIndex(a.ws.tabs, i);
        assert t.tabs[i].id == id;
        if RunsIn(t, id, tok) {
          var j :| 0 <= j < |t.tabs| && RunsAs(t.tabs[j], id, tok);
          UniqueIndex(a.ws.tabs, j);
        }
      } else {
        OthersRunOn(a.ws, t, i, id, tok);
        assert RunsIn(a.ws, id, tok) <==> id in a.runs && tok == Token(Launch(id, a.runs[id]));
      }
    }
  }

  /** Rewriting tab i leaves the runs of the tabs with other ids alone. */
  lemma OthersRunOn(s: State, t: State, i: nat, id: string, token: string)
    requires i < |s.tabs| && |t.tabs| == |s.tabs| && s.tabs[i].id == t.tabs[i].id != id
    requires forall j :: 0 <= j < |s.tabs| && j != i ==> t.tabs[j] == s.tabs[j]
    ensures RunsIn(t, id, token) <==> RunsIn(s, id, token)
  {
    if RunsIn(s, id, token) {
      var j :| 0 <= j < |s.tabs| && RunsAs(s.tabs[j], id, token);
      assert t.tabs[j] == s.tabs[j];
    }
    if RunsIn(t, id, token) {
      var j :| 0 <= j < |t.tabs| && RunsAs(t.tabs[j], id, token);
      assert s.tabs[j] == t.tabs[j];
    }
  }

  /** runAsync is refused exactly for a profile without id or a session that is
      already running; otherwise it launches, so that the branch taking the
      registration back is never reached when the registries agree. */
  lemma RunLaunches(a: AppState, profile: Profile, welcome: string)
    requires Inv(a.ws) && Agree(a)
    ensures var (b, launch) := RunSpec(a, profile, welcome);
      var (ws, session) := EnsureSpec(a.ws, profile, welcome);
      && (launch.Some? <==> session.Some? && session.value !in a.runs)
      && Inv(b.ws) && Agree(b)
      && (launch.None? ==> b == a.(ws := ws))
      && (launch.Some? ==>
            && launch.value == Launch(session.value, a.runId + 1)
            && b.runs == a.runs[session.value := a.runId + 1] && b.runId == a.runId + 1)
  {
    var (ws, session) := EnsureSpec(a.ws, profile, welcome);
    EnsureFindsActive(a.ws, profile, welcome);
    OpsKeepAgreement(a, Open(profile, welcome));
    if session.Some? {
      SessionIdIsTrimmed(ws, ws.active);
      if session.value !in a.runs {
        BeginKeepsAgreement(a.(ws := ws), Launch(session.value, a.runId + 1));
      }
    }
  }

  /** A registration under a trimmed id takes the next number; a blank id and one
      that is registered are refused. */
  lemma BeginRegisters(a: AppState, rawSession: string)
    ensures var (b, run) := BeginSpec(a, rawSession);
      var id := TrimSpace(rawSession);
      if id == "" || id in a.runs.Keys then b == a && run.None?
      else
        && run == Some(a.runId + 1) && b.ws == a.ws && b.runId == a.runId + 1
        && b.runs.Keys == a.runs.Keys + {id} && b.runs[id] == a.runId + 1
        && forall other :: other in a.runs.Keys ==> b.runs[other] == a.runs[other]
  {
  }

  /** t is s with the tab at i running under this token. */
  predicate RunningAt(s: State, t: State, i: int, token: string) {
    && 0 <= i < |s.tabs|
    && t == s.(tabs := s.tabs[i := s.tabs[i].(status := Running, runId := token)])
  }

  /** A command goes to the active tab if that is the profile's, and is refused
      if it is running. */
  lemma RunUsesActiveTab(a: AppState, profile: Profile, welcome: string)
    requires Inv(a.ws) && Agree(a) && 0 <= a.ws.active < |a.ws.tabs|
    requires a.ws.tabs[a.ws.active].profileId == profile.id
    ensures var (b, launch) := RunSpec(a, profile, welcome);
      var tab := a.ws.tabs[a.ws.active];
      if tab.status.Running? then b == a && launch.None?
      else
        && launch == Some(Launch(tab.id, a.runId + 1))
        && RunningAt(a.ws, b.ws, a.ws.active, tab.id + ":" + Decimal(a.runId + 1))
        && b.runs == a.runs[tab.id := a.runId + 1] && b.runId == a.runId + 1
  {
    hide Agree, RunsIn;
    var tab := a.ws.tabs[a.ws.active];
    assert TabOk(tab, a.ws.nextId);
    RunningIffRegistered(a, a.ws.active);
    SessionIdIsTrimmed(a.ws, a.ws.active);
    TokenIsNotBlank(Launch(tab.id, a.runId + 1));
  }

  lemma RunningIffRegistered(a: AppState, i: nat)
    requires Inv(a.ws) && Agree(a) && i < |a.ws.tabs|
    ensures a.ws.tabs[i].status.Running? <==> a.ws.tabs[i].id in a.runs
  {
    var tab := a.ws.tabs[i];
    if tab.status.Running? {
      assert RunsAs(tab, tab.id, tab.runId);
      assert RunsIn(a.ws, tab.id, tab.runId);
    }
    if tab.id in a.runs {
      assert RunsIn(a.ws, tab.id, Token(Launch(tab.id, a.runs[tab.id])));
      var j :| 0 <= j < |a.ws.tabs| && RunsAs(a.ws.tabs[j], tab.id, Token(Launch(tab.id, a.runs[tab.id])));
      UniqueIndex(a.ws.tabs, i);
      UniqueIndex(a.ws.tabs, j);
    }
  }

  lemma NewIdIsNotOpen(s: State, profile: Profile, welcome: string)
    requires Inv(s) && !Blank(profile.id)
    ensures var t := OpenSpec(s, profile, welcome).0; !IsOpen(s, t.tabs[|s.tabs|].id)
  {
    var t, n := OpenSpec(s, profile, welcome).0, |s.tabs|;
    OpenKeepsInv(s, profile, welcome);
    forall i | 0 <= i < n ensures s.tabs[i].id != t.tabs[n].id {
      assert Apart(t.tabs[i], t.tabs[n]);
    }
  }

  /** Otherwise one tab is opened behind the others, and the command runs there;
      a profile without an id changes nothing. */
  lemma RunOpensTab(a: AppState, profile: Profile, welcome: string)
    requires Inv(a.ws) && Agree(a)
    requires 0 <= a.ws.active < |a.ws.tabs| ==> a.ws.tabs[a.ws.active].profileId != profile.id
    ensures var (b, launch) := RunSpec(a, profile, welcome);
      var n := |a.ws.tabs|;
      if TrimSpace(profile.id) == "" then b == a && launch.None?
      else
        && |b.ws.tabs| == n + 1 && b.ws.tabs[..n] == a.ws.tabs && b.ws.active == n
        && b.ws.tabs[n].profile == profile && !IsOpen(a.ws, b.ws.tabs[n].id)
        && launch == Some(Launch(b.ws.tabs[n].id, a.runId + 1))
        && b.ws.tabs[n].status.Running? && b.ws.tabs[n].runId == b.ws.tabs[n].id + ":" + Decimal(a.runId + 1)
        && b.runs == a.runs[b.ws.tabs[n].id := a.runId + 1]
  {
    if !Blank(profile.id) {
      var t := OpenSpec(a.ws, profile, welcome).0;
      var n := |a.ws.tabs|;
      OpenKeepsInv(a.ws, profile, welcome);
      OpsKeepAgreement(a, Open(profile, welcome));
      RunningIffRegistered(a.(ws := t), n);
      SessionIdIsTrimmed(t, n);
      TokenIsNotBlank(Launch(t.tabs[n].id, a.runId + 1));
      NewIdIsNotOpen(a.ws, profile, welcome);
      hide Agree, RunsIn, Inv, TabOk, RuntimeName, NextInstance, IsOpen, TrimSpace, Decimal;
    }
  }

  /** The completion of a launched command finds its own tab and sets its final
      status there and nowhere else. */
  lemma CompletionFindsItsTab(a: AppState, l: Launch, status: Status)
    requires Inv(a.ws) && Agree(a) && !status.Running?
    requires l.session in a.runs && a.runs[l.session] == l.run
    ensures var (b, known) := CompleteSpec(a, l, status);
      && known && Inv(b.ws) && Agree(b)
      && b.runs == a.runs - {l.session} && b.runId == a.runId
      && (exists i ::
            && 0 <= i < |a.ws.tabs| && a.ws.tabs[i].id == l.session && a.ws.tabs[i].status.Running?
            && b.ws == a.ws.(tabs := a.ws.tabs[i := a.ws.tabs[i].(status := status, runId := "")]))
  {
    var token := Token(l);
    TokenIsNotBlank(l);
    assert RunsIn(a.ws, l.session, token);
    var i := RunIndexFrom(a.ws.tabs, token, 0);
    assert RunsIn(a.ws, a.ws.tabs[i].id, token);
    TokenInjective(l, Launch(a.ws.tabs[i].id, a.runs[a.ws.tabs[i].id]));
    assert a.ws.tabs[i].id == l.session;
    RunKeepsTabs(a.ws, token, status);
    var b := CompleteSpec(a, l, status).0;
    forall id, tok
      ensures RunsIn(b.ws, id, tok) <==> id in b.runs && tok == Token(Launch(id, b.runs[id]))
    {
      if id == l.session {
        forall j | 0 <= j < |b.ws.tabs| && b.ws.tabs[j].id == id ensures j == i {
          UniqueIndex(a.ws.tabs, i);
          UniqueIndex(a.ws.tabs, j);
        }
      } else {
        OthersRunOn(a.ws, b.ws, i, id, tok);
        assert RunsIn(a.ws, id, tok) <==> id in a.runs && tok == Token(Launch(id, a.runs[id]));
      }
    }
  }

  // ---------------------------------------------------------------------------
  // Every run of the application
  // ---------------------------------------------------------------------------

  datatype Event =
    | Run(profile: Profile, welcome: string)
    | Complete(launch: Launch, status: Status)
    | Tabs(op: Op)

  predicate Enabled(w: World, e: Event) {
    match e
    case Run(_, _) => true
    case Complete(l, status) => l in w.inflight && !status.Running?
    case Tabs(op) => !op.BeginRun? && !op.FinishRun?
  }

  function Apply(w: World, e: Event): World
    requires Enabled(w, e)
  {
    match e
    case Run(profile, welcome) =>
      var (a, launch) := RunSpec(w.app, profile, welcome);
      w.(app := a, inflight := w.inflight + if launch.Some? then {launch.value} else {})
    case Complete(l, status) =>
      w.(app := CompleteSpec(w.app, l, status).0, inflight := w.inflight - {l}, finished := w.finished + [l])
    case Tabs(op) => w.(app := w.app.(ws := Do(w.app.ws, op)))
  }

  ghost predicate Feasible(w: World, es: seq<Event>)
    decreases |es|
  {
    es == [] || (Enabled(w, es[0]) && Feasible(Apply(w, es[0]), es[1..]))
  }

  ghost function Execute(w: World, es: seq<Event>): World
    requires Feasible(w, es)
    decreases |es|
  {
    if es == [] then w else Execute(Apply(w, es[0]), es[1..])
  }

  lemma RunKeepsWorld(w: World, profile: Profile, welcome: string)
    requires WorldInv(w)
    ensures WorldInv(Apply(w, Run(profile, welcome)))
  {
    hide Inv, Agree, Ledger, EnsureSpec;
    RunLaunches(w.app, profile, welcome);
    assert w.inflight + {} == w.inflight;
    var session := EnsureSpec(w.app.ws, profile, welcome).1;
    if session.Some? && session.value !in w.app.runs {
      LedgerBegin(w.app.runs, w.app.runId, w.inflight, w.finished, session.value);
    }
  }

  lemma CompleteKeepsWorld(w: World, l: Launch, status: Status)
    requires WorldInv(w) && Enabled(w, Complete(l, status))
    ensures WorldInv(Apply(w, Complete(l, status)))
  {
    LedgerFinish(w.app.runs, w.app.runId, w.inflight, w.finished, l);
    CompletionFindsItsTab(w.app, l, status);
  }

  lemma StepKeepsWorld(w: World, e: Event)
    requires WorldInv(w) && Enabled(w, e)
    ensures WorldInv(Apply(w, e))
  {
    match e {
      case Run(profile, welcome) => RunKeepsWorld(w, profile, welcome);
      case Complete(l, status) => CompleteKeepsWorld(w, l, status);
      case Tabs(op) =>
        OpsKeepAgreement(w.app, op);
        StepKeepsInv(w.app.ws, op);
    }
  }

  lemma {:induction false} ExecuteKeepsWorld(w: World, es: seq<Event>)
    requires WorldInv(w) && Feasible(w, es)
    ensures WorldInv(Execute(w, es))
    decreases |es|
  {
    if es == [] {
    } else {
      StepKeepsWorld(w, es[0]);
      ExecuteKeepsWorld(Apply(w, es[0]), es[1..]);
    }
  }

  /** In every reachable state a tab runs exactly when the registry holds it
      with its token, the registry holds exactly the commands still under way,
      every such command has its tab, and no command has finished twice. */
  lemma RegistriesAgree(es: seq<Event>)
    requires Feasible(START, es)
    ensures var w := Execute(START, es);
      && Agree(w.app)
      && (forall l :: l in w.inflight <==> l.session in w.app.runs && w.app.runs[l.session] == l.run)
      && (forall id :: id in w.app.runs ==> IsOpen(w.app.ws, id))
      && (forall i, j :: 0 <= i < j < |w.finished| ==> w.finished[i] != w.finished[j])
  {
    ExecuteKeepsWorld(START, es);
    var w := Execute(START, es);
    forall id | id in w.app.runs ensures IsOpen(w.app.ws, id) {
      assert RunsIn(w.app.ws, id, Token(Launch(id, w.app.runs[id])));
    }
  }

  /** A completion that has run already, or never was launched, changes nothing. */
  lemma StaleCompletionIsIgnored(es: seq<Event>, l: Launch, status: Status)
    requires Feasible(START, es) && l !in Execute(START, es).inflight
    ensures var a := Execute(START, es).app; CompleteSpec(a, l, status) == (a, false)
  {
    ExecuteKeepsWorld(START, es);
  }
}
