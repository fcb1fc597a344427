/** interactiveRuntimeRegistry (guis/interactive_runtime.go): which transport
    owns which terminal tab.  Replace takes the lock twice and starts the new
    transport in between, so it races with Close, Release and CloseAll. */
module RuntimeRegistry {
  import opened Outcomes
  import opened Text

  /** Identity of an interactive session object. */
  type Transport = nat

  datatype Outcome = Succeeded | NotFound | Exists | StartFailed

  /** A runtime id after strings.TrimSpace. */
  datatype RuntimeId = RuntimeId(text: string)

  const NO_ID := RuntimeId("")

  function Key(raw: string): RuntimeId { RuntimeId(TrimSpace(raw)) }

  type Table = map<RuntimeId, Transport>

  /** Second lock of Replace: only the transport seen first may be superseded. */
  predicate MaySwap(m: Table, id: RuntimeId, previous: Transport) {
    id in m && m[id] == previous
  }

  /** The table, and how often each transport has been cancelled. */
  datatype Registry = Registry(runtimes: Table, cancels: multiset<Transport>)

  function StartSpec(r: Registry, id: RuntimeId, t: Transport, starts: bool): (Registry, Outcome) {
    if id == NO_ID then (r, NotFound)
    else if id in r.runtimes then (r, Exists)
    else if !starts then (r, StartFailed)
    else (r.(runtimes := r.runtimes[id := t]), Succeeded)
  }

  function ReplaceSpec(r: Registry, id: RuntimeId, t: Transport, starts: bool): (Registry, Outcome) {
    if id == NO_ID || id !in r.runtimes then (r, NotFound)
    else if !starts then (r, StartFailed)
    else (Registry(r.runtimes[id := t], r.cancels + multiset{r.runtimes[id]}), Succeeded)
  }

  function CloseSpec(r: Registry, id: RuntimeId): (Registry, bool) {
    if id !in r.runtimes then (r, false)
    else (Registry(r.runtimes - {id}, r.cancels + multiset{r.runtimes[id]}), true)
  }

  function ReleaseSpec(r: Registry, id: RuntimeId, t: Transport): (Registry, bool) {
    if !MaySwap(r.runtimes, id, t) then (r, false)
    else (Registry(r.runtimes - {id}, r.cancels + multiset{t}), true)
  }

  class InteractiveRuntimeRegistry {
    var runtimes: Table
    /** The transports whose cancel function has been called, in order. */
    var cancelled: seq<Transport>

    ghost function Now(): Registry
      reads this
    {
      Registry(runtimes, multiset(cancelled))
    }

    constructor ()
      ensures runtimes == map[] && cancelled == []
    {
      runtimes, cancelled := map[], [];
    }

    /** starts tells what session.Start returns. */
    method Start(rawId: string, session: Transport, starts: bool) returns (r: Outcome)
      modifies this
      ensures var id := Key(rawId);
        && (r == NotFound <==> id == NO_ID)
        && (r == Exists <==> id != NO_ID && id in old(runtimes))
        && (r == StartFailed <==> id != NO_ID && id !in old(runtimes) && !starts)
        && runtimes == (if r.Succeeded? then old(runtimes)[id := session] else old(runtimes))
      ensures cancelled == old(cancelled)
      ensures (Now(), r) == StartSpec(old(Now()), Key(rawId), session, starts)
    {
      var id := Key(rawId);
      if id == NO_ID {
        return NotFound;
      }
      if id in runtimes {
        return Exists;
      }
      if !starts {
        return StartFailed;
      }
      runtimes := runtimes[id := session];
      return Succeeded;
    }

    method Lookup(rawId: string) returns (found: Option<Transport>)
      ensures var id := Key(rawId);
        found == if id in runtimes then Some(runtimes[id]) else None
    {
      var id := Key(rawId);
      if id in runtimes {
        return Some(runtimes[id]);
      }
      return None;
    }

    /** The second critical section of Replace, with the cancel that follows. */
    method Publish(rawId: string, previous: Transport, session: Transport) returns (r: Outcome)
      modifies this
      ensures var id := Key(rawId);
        if MaySwap(old(runtimes), id, previous) then
          r.Succeeded? && runtimes == old(runtimes)[id := session] && cancelled == old(cancelled) + [previous]
        else
          r.Exists? && runtimes == old(runtimes) && cancelled == old(cancelled) + [session]
    {
      var id := Key(rawId);
      if id !in runtimes || runtimes[id] != previous {
        cancelled := cancelled + [session];
        return Exists;
      }
      runtimes := runtimes[id := session];
      cancelled := cancelled + [previous];
      return Succeeded;
    }

    /** Replace without interference between its two critical sections: the
        successor is in place exactly when it could be started, and then the
        superseded transport alone is cancelled. */
    method Replace(rawId: string, session: Transport, starts: bool) returns (r: Outcome)
      modifies this
      ensures var id := Key(rawId);
        && (r == Succeeded <==> id != NO_ID && id in old(runtimes) && starts)
        && (r == NotFound <==> id == NO_ID || id !in old(runtimes))
        && (r == StartFailed <==> id != NO_ID && id in old(runtimes) && !starts)
        && (r == Succeeded ==>
              && runtimes == old(runtimes)[id := session]
              && cancelled == old(cancelled) + [old(runtimes)[id]])
        && (r != Succeeded ==> runtimes == old(runtimes) && cancelled == old(cancelled))
      ensures (Now(), r) == ReplaceSpec(old(Now()), Key(rawId), session, starts)
    {
      if Key(rawId) == NO_ID {
        return NotFound;
      }
      var previous := Lookup(rawId);
      if previous.None? {
        return NotFound;
      }
      if !starts {
        return StartFailed;
      }
      r := Publish(rawId, previous.value, session);
    }

    method Close(rawId: string) returns (closed: bool)
      modifies this
      ensures var id := Key(rawId);
        && closed == (id in old(runtimes))
        && runtimes == old(runtimes) - {id}
        && cancelled == old(cancelled) + (if closed then [old(runtimes)[id]] else [])
      ensures (Now(), closed) == CloseSpec(old(Now()), Key(rawId))
    {
      var id := Key(rawId);
      if id !in runtimes {
        return false;
      }
      cancelled := cancelled + [runtimes[id]];
      runtimes := runtimes - {id};
      return true;
    }

    /** Empties the table and cancels what was in it, in map order. */
    method CloseAll()
      modifies this
      ensures runtimes == map[]
      ensures old(cancelled) <= cancelled && |cancelled| == |old(cancelled)| + |old(runtimes)|
      ensures forall id :: id in old(runtimes) ==>
        old(runtimes)[id] in cancelled[|old(cancelled)|..]
    {
      var taken := runtimes;
      runtimes := map[];
      while taken != map[]
        invariant runtimes == map[] && taken.Keys <= old(runtimes).Keys
        invariant old(cancelled) <= cancelled
        invariant |cancelled| + |taken| == |old(cancelled)| + |old(runtimes)|
        invariant forall id :: id in taken ==> taken[id] == old(runtimes)[id]
        invariant forall id :: id in old(runtimes) && id !in taken ==>
          old(runtimes)[id] in cancelled[|old(cancelled)|..]
        decreases |taken|
      {
        var id :| id in taken;
        assert taken[id] == old(runtimes)[id];
        var before := cancelled;
        cancelled := cancelled + [taken[id]];
        taken := taken - {id};
        assert cancelled[|old(cancelled)|..] == before[|old(cancelled)|..] + [old(runtimes)[id]];
      }
    }

    method Release(rawId: string, session: Transport) returns (released: bool)
      modifies this
      ensures var id := Key(rawId);
        && released == MaySwap(old(runtimes), id, session)
        && runtimes == (if released then old(runtimes) - {id} else old(runtimes))
        && cancelled == old(cancelled) + (if released then [session] else [])
      ensures (Now(), released) == ReleaseSpec(old(Now()), Key(rawId), session)
    {
      var id := Key(rawId);
      if id !in runtimes || runtimes[id] != session {
        return false;
      }
      runtimes := runtimes - {id};
      cancelled := cancelled + [session];
      return true;
    }
  }

  // ---------------------------------------------------------------------------
  // Every interleaving
  // ---------------------------------------------------------------------------

  type Thread = nat

  /** What a thread is in the middle of.  Looked and Launched are Replace before
      and after session.Start; Cancelling still has to cancel the transports. */
  datatype Task =
    | Looked(id: RuntimeId, previous: Transport, next: Transport)
    | Launched(id: RuntimeId, previous: Transport, next: Transport)
    | Cancelling(todo: set<Transport>)
  {
    /** The started transports this task alone is responsible for. */
    function Holds(): set<Transport> {
      match this
      case Looked(_, _, _) => {}
      case Launched(_, _, next) => {next}
      case Cancelling(todo) => todo
    }
  }

  datatype World = World(
    runtimes: Table,
    tasks: map<Thread, Task>,
    started: set<Transport>,
    cancels: multiset<Transport>)

  const START := World(map[], map[], {}, multiset{})

  datatype Event =
    | StartNew(id: RuntimeId, session: Transport, ok: bool)
    | ReplaceLook(th: Thread, id: RuntimeId, session: Transport)
    | ReplaceStart(th: Thread, ok: bool)
    | ReplacePublish(th: Thread)
    | CloseTake(th: Thread, id: RuntimeId)
    | CloseAllTake(th: Thread)
    | Release(id: RuntimeId, session: Transport)
    | Cancel(th: Thread, session: Transport)

  predicate Enabled(w: World, e: Event) {
    match e
    case StartNew(_, _, _) => true
    case ReplaceLook(th, _, _) => th !in w.tasks
    case ReplaceStart(th, _) => th in w.tasks && w.tasks[th].Looked?
    case ReplacePublish(th) => th in w.tasks && w.tasks[th].Launched?
    case CloseTake(th, _) => th !in w.tasks
    case CloseAllTake(th) => th !in w.tasks
    case Release(_, _) => true
    // CloseAll cancels in Go's map order, which is arbitrary.
    case Cancel(th, t) => th in w.tasks && w.tasks[th].Cancelling? && t in w.tasks[th].todo
  }

  function WithTask(tasks: map<Thread, Task>, th: Thread, todo: set<Transport>): map<Thread, Task> {
    if todo == {} then tasks - {th} else tasks[th := Cancelling(todo)]
  }

  /** A session object starts at most once: both transports refuse a second
      Start (terminal/ssh_pty.go, terminal/local_pty_unix.go). */
  function Apply(w: World, e: Event): World
    requires Enabled(w, e)
  {
    match e
    case StartNew(id, t, ok) =>
      if id == NO_ID || id in w.runtimes || !ok || t in w.started then w
      else w.(runtimes := w.runtimes[id := t], started := w.started + {t})
    case ReplaceLook(th, id, t) =>
      if id == NO_ID || id !in w.runtimes then w
      else w.(tasks := w.tasks[th := Looked(id, w.runtimes[id], t)])
    case ReplaceStart(th, ok) =>
      var task := w.tasks[th];
      if !ok || task.next in w.started then w.(tasks := w.tasks - {th})
      else w.(tasks := w.tasks[th := Launched(task.id, task.previous, task.next)],
              started := w.started + {task.next})
    case ReplacePublish(th) =>
      var task := w.tasks[th];
      if MaySwap(w.runtimes, task.id, task.previous)
      then w.(runtimes := w.runtimes[task.id := task.next],
              tasks := w.tasks[th := Cancelling({task.previous})])
      else w.(tasks := w.tasks[th := Cancelling({task.next})])
    case CloseTake(th, id) =>
      if id !in w.runtimes then w
      else w.(runtimes := w.runtimes - {id}, tasks := w.tasks[th := Cancelling({w.runtimes[id]})])
    case CloseAllTake(th) =>
      w.(runtimes := map[], tasks := WithTask(w.tasks, th, w.runtimes.Values))
    case Release(id, t) =>
      if MaySwap(w.runtimes, id, t)
      then w.(runtimes := w.runtimes - {id}, cancels := w.cancels + multiset{t})
      else w
    case Cancel(th, t) =>
      w.(tasks := WithTask(w.tasks, th, w.tasks[th].todo - {t}), cancels := w.cancels + multiset{t})
  }

  ghost predicate Feasible(w: World, es: seq<Event>)
    decreases |es|
  {
    es == [] || (Enabled(w, es[0]) && Feasible(Apply(w, es[0]), es[1..]))
  }

  ghost function Execute(w: World, es: seq<Event>): World
    requires Feasible(w, es)
    decreases |es|
  {
    if es == [] then w else Execute(Apply(w, es[0]), es[1..])
  }

  // ---------------------------------------------------------------------------
  // Ownership
  // ---------------------------------------------------------------------------

  /** Where a started transport is. */
  datatype Place = InTable(id: RuntimeId) | WithThread(th: Thread) | Done

  type Placement = map<Transport, Place>

  ghost predicate TablePlaced(w: World, p: Placement) {
    && (forall id :: id in w.runtimes ==> w.runtimes[id] in p && p[w.runtimes[id]] == InTable(id))
    && (forall t :: t in p && p[t].InTable? ==> p[t].id in w.runtimes && w.runtimes[p[t].id] == t)
  }

  ghost predicate TasksPlaced(w: World, p: Placement) {
    && (forall th, t :: th in w.tasks && t in w.tasks[th].Holds() ==> t in p && p[t] == WithThread(th))
    && (forall t :: t in p && p[t].WithThread? ==> p[t].th in w.tasks && t in w.tasks[p[t].th].Holds())
  }

  /** p says where every started transport is.  As p is a function, a transport
      is in one place only: under one id, with one thread, or cancelled once. */
  ghost predicate Placed(w: World, p: Placement) {
    && p.Keys == w.started
    && TablePlaced(w, p)
    && TasksPlaced(w, p)
    && (forall t :: w.cancels[t] == if t in p && p[t].Done? then 1 else 0)
    && (forall th :: th in w.tasks && w.tasks[th].Cancelling? ==> w.tasks[th].todo != {})
  }

  /** Where the transports are after e. */
  function Move(w: World, p: Placement, e: Event): Placement
    requires Enabled(w, e)
  {
    var v := Apply(w, e);
    match e
    case StartNew(id, t, ok) =>
      if id == NO_ID || id in w.runtimes || !ok || t in w.started then p else p[t := InTable(id)]
    case ReplaceLook(_, _, _) => p
    case ReplaceStart(th, ok) =>
      if !ok || w.tasks[th].next in w.started then p else p[w.tasks[th].next := WithThread(th)]
    case ReplacePublish(th) =>
      var task := w.tasks[th];
      if MaySwap(w.runtimes, task.id, task.previous)
      then p[task.next := InTable(task.id)][task.previous := WithThread(th)]
      else p
    case CloseTake(th, id) =>
      if id !in w.runtimes then p else p[w.runtimes[id] := WithThread(th)]
    case CloseAllTake(th) =>
      map t | t in p :: if p[t].InTable? then WithThread(th) else p[t]
    case Release(id, t) =>
      if MaySwap(w.runtimes, id, t) then p[t := Done] else p
    case Cancel(_, t) => p[t := Done]
  }

  lemma StartKeepsPlaced(w: World, p: Placement, id: RuntimeId, t: Transport, ok: bool)
    requires Placed(w, p)
    ensures Placed(Apply(w, StartNew(id, t, ok)), Move(w, p, StartNew(id, t, ok)))
  {
  }

  lemma ReplaceStartKeepsPlaced(w: World, p: Placement, th: Thread, ok: bool)
    requires Placed(w, p) && Enabled(w, ReplaceStart(th, ok))
    ensures Placed(Apply(w, ReplaceStart(th, ok)), Move(w, p, ReplaceStart(th, ok)))
  {
  }

  lemma PublishKeepsTable(w: World, p: Placement, th: Thread)
    requires Placed(w, p) && Enabled(w, ReplacePublish(th))
    ensures TablePlaced(Apply(w, ReplacePublish(th)), Move(w, p, ReplacePublish(th)))
  {
    assert w.tasks[th].next in w.tasks[th].Holds();
  }

  lemma PublishKeepsTasks(w: World, p: Placement, th: Thread)
    requires Placed(w, p) && Enabled(w, ReplacePublish(th))
    ensures TasksPlaced(Apply(w, ReplacePublish(th)), Move(w, p, ReplacePublish(th)))
  {
    var task := w.tasks[th];
    var v, q := Apply(w, ReplacePublish(th)), Move(w, p, ReplacePublish(th));
    assert task.Holds() == {task.next};
    var left := if MaySwap(w.runtimes, task.id, task.previous) then task.previous else task.next;
    assert v.tasks == w.tasks[th := Cancelling({left})];
    forall t | t in q && q[t].WithThread?
      ensures q[t].th in v.tasks && t in v.tasks[q[t].th].Holds()
    {
      if t != left { assert q[t] == p[t]; }
    }
    forall x, t | x in v.tasks && t in v.tasks[x].Holds()
      ensures t in q && q[t] == WithThread(x)
    {
      if x != th { assert v.tasks[x] == w.tasks[x] && p[t] == WithThread(x); }
    }
  }

  lemma PublishKeepsPlaced(w: World, p: Placement, th: Thread)
    requires Placed(w, p) && Enabled(w, ReplacePublish(th))
    ensures Placed(Apply(w, ReplacePublish(th)), Move(w, p, ReplacePublish(th)))
  {
    PublishKeepsTable(w, p, th);
    PublishKeepsTasks(w, p, th);
    assert w.tasks[th].next in w.tasks[th].Holds();
    var v, q := Apply(w, ReplacePublish(th)), Move(w, p, ReplacePublish(th));
    assert q.Keys == p.Keys == w.started;
    forall t ensures v.cancels[t] == if t in q && q[t].Done? then 1 else 0 {
    }
  }

  lemma CloseKeepsPlaced(w: World, p: Placement, th: Thread, id: RuntimeId)
    requires Placed(w, p) && Enabled(w, CloseTake(th, id))
    ensures Placed(Apply(w, CloseTake(th, id)), Move(w, p, CloseTake(th, id)))
  {
  }

  lemma CloseAllKeepsPlaced(w: World, p: Placement, th: Thread)
    requires Placed(w, p) && Enabled(w, CloseAllTake(th))
    ensures Placed(Apply(w, CloseAllTake(th)), Move(w, p, CloseAllTake(th)))
  {
  }

  lemma ReleaseKeepsPlaced(w: World, p: Placement, id: RuntimeId, t: Transport)
    requires Placed(w, p)
    ensures Placed(Apply(w, Release(id, t)), Move(w, p, Release(id, t)))
  {
  }

  lemma CancelKeepsPlaced(w: World, p: Placement, th: Thread, t: Transport)
    requires Placed(w, p) && Enabled(w, Cancel(th, t))
    ensures Placed(Apply(w, Cancel(th, t)), Move(w, p, Cancel(th, t)))
  {
    assert t in w.tasks[th].Holds();
    var v, q := Apply(w, Cancel(th, t)), Move(w, p, Cancel(th, t));
    forall u | u in q && q[u].WithThread?
      ensures q[u].th in v.tasks && u in v.tasks[q[u].th].Holds()
    {
      assert u != t && q[u] == p[u] && u in w.tasks[p[u].th].Holds();
      if q[u].th == th {
        assert u in w.tasks[th].todo - {t};
        assert v.tasks == w.tasks[th := Cancelling(w.tasks[th].todo - {t})];
      }
    }
    assert TasksPlaced(v, q);
  }

  lemma StepKeepsPlaced(w: World, p: Placement, e: Event)
    requires Placed(w, p) && Enabled(w, e)
    ensures Placed(Apply(w, e), Move(w, p, e))
  {
    match e {
      case StartNew(id, t, ok) => StartKeepsPlaced(w, p, id, t, ok);
      case ReplaceLook(th, id, t) =>
      case ReplaceStart(th, ok) => ReplaceStartKeepsPlaced(w, p, th, ok);
      case ReplacePublish(th) => PublishKeepsPlaced(w, p, th);
      case CloseTake(th, id) => CloseKeepsPlaced(w, p, th, id);
      case CloseAllTake(th) => CloseAllKeepsPlaced(w, p, th);
      case Release(id, t) => ReleaseKeepsPlaced(w, p, id, t);
      case Cancel(th, t) => CancelKeepsPlaced(w, p, th, t);
    }
  }

  lemma {:induction false} ExecuteKeepsPlaced(w: World, p: Placement, es: seq<Event>) returns (q: Placement)
    requires Placed(w, p) && Feasible(w, es)
    ensures Placed(Execute(w, es), q)
    decreases |es|
  {
    if es == [] {
      q := p;
    } else {
      StepKeepsPlaced(w, p, es[0]);
      q := ExecuteKeepsPlaced(Apply(w, es[0]), Move(w, p, es[0]), es[1..]);
    }
  }

  // ---------------------------------------------------------------------------
  // Main results
  // ---------------------------------------------------------------------------

  ghost predicate CurrentUnder(w: World, t: Transport, id: RuntimeId) {
    id in w.runtimes && w.runtimes[id] == t
  }

  ghost predicate HeldBy(w: World, t: Transport, th: Thread) {
    th in w.tasks && t in w.tasks[th].Holds()
  }

  /** t is current under one id, or the business of one thread, or cancelled
      once; these exclude each other, and nothing else is current or cancelled. */
  ghost predicate AccountedFor(w: World, t: Transport) {
    && (t in w.started <==>
          || (exists id :: CurrentUnder(w, t, id))
          || (exists th :: HeldBy(w, t, th))
          || w.cancels[t] == 1)
    && w.cancels[t] <= 1
    && (forall id, jd :: CurrentUnder(w, t, id) && CurrentUnder(w, t, jd) ==> id == jd)
    && (forall th, uh :: HeldBy(w, t, th) && HeldBy(w, t, uh) ==> th == uh)
    && (forall id, th :: !(CurrentUnder(w, t, id) && HeldBy(w, t, th)))
    && (w.cancels[t] == 1 ==> forall id :: !CurrentUnder(w, t, id))
    && (w.cancels[t] == 1 ==> forall th :: !HeldBy(w, t, th))
  }

  lemma PlacedIsAccountedFor(w: World, p: Placement, t: Transport)
    requires Placed(w, p)
    ensures AccountedFor(w, t)
  {
    if t in w.started {
      match p[t] {
        case InTable(id) => assert CurrentUnder(w, t, id);
        case WithThread(th) => assert HeldBy(w, t, th);
        case Done =>
      }
    }
  }

  /** However the calls interleave, no started transport is lost or cancelled
      twice. */
  lemma EveryTransportAccountedFor(es: seq<Event>)
    requires Feasible(START, es)
    ensures forall t :: AccountedFor(Execute(START, es), t)
  {
    var p := ExecuteKeepsPlaced(START, map[], es);
    forall t ensures AccountedFor(Execute(START, es), t) {
      PlacedIsAccountedFor(Execute(START, es), p, t);
    }
  }

  /** Once no call is in progress nothing leaks: what was started and is not
      current has been cancelled, exactly once. */
  lemma NothingLeaks(es: seq<Event>)
    requires Feasible(START, es) && Execute(START, es).tasks == map[]
    ensures var w := Execute(START, es);
      forall t :: w.cancels[t] == if t in w.started && t !in w.runtimes.Values then 1 else 0
  {
    var w := Execute(START, es);
    var p := ExecuteKeepsPlaced(START, map[], es);
    forall t
      ensures w.cancels[t] == if t in w.started && t !in w.runtimes.Values then 1 else 0
    {
      if t in p && p[t].InTable? {
        assert t in w.runtimes.Values;
      }
    }
  }

  /** t has been superseded, closed or released, and no Replace is about to
      publish it. */
  ghost predicate Gone(w: World, t: Transport) {
    && t in w.started
    && (forall id :: !CurrentUnder(w, t, id))
    && (forall th :: th in w.tasks && w.tasks[th].Launched? ==> w.tasks[th].next != t)
  }

  lemma StepKeepsGone(w: World, p: Placement, e: Event, t: Transport)
    requires Placed(w, p) && Enabled(w, e) && Gone(w, t)
    ensures Gone(Apply(w, e), t)
  {
    var v := Apply(w, e);
    forall id ensures !CurrentUnder(v, t, id) {
      assert !CurrentUnder(w, t, id);
    }
  }

  /** A superseded transport never becomes current again. */
  lemma {:induction false} GoneForever(w: World, p: Placement, es: seq<Event>, t: Transport)
    requires Placed(w, p) && Feasible(w, es) && Gone(w, t)
    ensures Gone(Execute(w, es), t)
    decreases |es|
  {
    if es == [] {
    } else {
      StepKeepsPlaced(w, p, es[0]);
      StepKeepsGone(w, p, es[0], t);
      GoneForever(Apply(w, es[0]), Move(w, p, es[0]), es[1..], t);
    }
  }

  /** The transport a Replace saw first is still in place or has gone. */
  ghost predicate SeenIsFresh(w: World) {
    forall th :: th in w.tasks && !w.tasks[th].Cancelling? ==>
      CurrentUnder(w, w.tasks[th].previous, w.tasks[th].id) || Gone(w, w.tasks[th].previous)
  }

  /** A current transport that a step takes out of the table is gone. */
  lemma LeavingIsForGood(w: World, p: Placement, e: Event, id: RuntimeId, t: Transport)
    requires Placed(w, p) && Enabled(w, e) && CurrentUnder(w, t, id)
    requires !CurrentUnder(Apply(w, e), t, id)
    ensures Gone(Apply(w, e), t)
  {
    var v := Apply(w, e);
    assert p[t] == InTable(id);
    assert forall x :: x in w.tasks ==> t !in w.tasks[x].Holds();
    forall x | x in v.tasks && v.tasks[x].Launched? ensures v.tasks[x].next != t {
      assert x in w.tasks && w.tasks[x] == v.tasks[x];
      assert w.tasks[x].next in w.tasks[x].Holds();
    }
    forall jd ensures !CurrentUnder(v, t, jd) {
      if jd in w.runtimes && w.runtimes[jd] == t {
        assert jd == id;
      } else if e.ReplacePublish? {
        assert w.tasks[e.th].next in w.tasks[e.th].Holds();
      }
    }
  }

  /** A successful Replace supersedes the previous transport for good: at any
      later time its own Release, from the delayed exit callback, changes nothing. */
  lemma SupersededReleaseIsHarmless(w: World, p: Placement, th: Thread, es: seq<Event>, id: RuntimeId)
    requires Placed(w, p) && Enabled(w, ReplacePublish(th))
    requires MaySwap(w.runtimes, w.tasks[th].id, w.tasks[th].previous)
    requires Feasible(Apply(w, ReplacePublish(th)), es)
    ensures var v := Execute(Apply(w, ReplacePublish(th)), es);
      Apply(v, Release(id, w.tasks[th].previous)) == v
  {
    var e, t := ReplacePublish(th), w.tasks[th].previous;
    assert w.tasks[th].next in w.tasks[th].Holds();
    LeavingIsForGood(w, p, e, w.tasks[th].id, t);
    StepKeepsPlaced(w, p, e);
    GoneForever(Apply(w, e), Move(w, p, e), es, t);
    assert !CurrentUnder(Execute(Apply(w, e), es), t, id);
  }

  lemma StepKeepsSeen(w: World, p: Placement, e: Event)
    requires Placed(w, p) && Enabled(w, e) && SeenIsFresh(w)
    ensures SeenIsFresh(Apply(w, e))
  {
    var v := Apply(w, e);
    forall th | th in v.tasks && !v.tasks[th].Cancelling?
      ensures CurrentUnder(v, v.tasks[th].previous, v.tasks[th].id) || Gone(v, v.tasks[th].previous)
    {
      var t, id := v.tasks[th].previous, v.tasks[th].id;
      if th !in w.tasks {
        assert CurrentUnder(v, t, id);
      } else if Gone(w, t) {
        StepKeepsGone(w, p, e, t);
      } else if !CurrentUnder(v, t, id) {
        LeavingIsForGood(w, p, e, id, t);
      }
    }
  }

  lemma {:induction false} ExecuteKeepsSeen(w: World, p: Placement, es: seq<Event>)
    requires Placed(w, p) && Feasible(w, es) && SeenIsFresh(w)
    ensures SeenIsFresh(Execute(w, es))
    decreases |es|
  {
    if es == [] {
    } else {
      StepKeepsPlaced(w, p, es[0]);
      StepKeepsSeen(w, p, es[0]);
      ExecuteKeepsSeen(Apply(w, es[0]), Move(w, p, es[0]), es[1..]);
    }
  }

  /** Replace fails at its second lock exactly when the transport it set out to
      supersede has meanwhile gone for good; then the table stays as it is. */
  lemma PublishFailsOnlyWhenOvertaken(es: seq<Event>, th: Thread)
    requires Feasible(START, es) && Enabled(Execute(START, es), ReplacePublish(th))
    ensures var w := Execute(START, es);
      var task := w.tasks[th];
      var v := Apply(w, ReplacePublish(th));
      && (MaySwap(w.runtimes, task.id, task.previous) <==> !Gone(w, task.previous))
      && (Gone(w, task.previous) ==> v.runtimes == w.runtimes && HeldBy(v, task.next, th))
      && (!Gone(w, task.previous) ==>
            v.runtimes == w.runtimes[task.id := task.next] && HeldBy(v, task.previous, th))
  {
    var w := Execute(START, es);
    var _ := ExecuteKeepsPlaced(START, map[], es);
    ExecuteKeepsSeen(START, map[], es);
    var task := w.tasks[th];
    assert MaySwap(w.runtimes, task.id, task.previous)
      <==> CurrentUnder(w, task.previous, task.id);
  }
}
