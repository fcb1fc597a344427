/** The GUI output batcher (guis/guis.go).

    Worker goroutines hand text to a batcher that keeps at most one GUI callback
    outstanding.  The lock is dropped between taking the text, appending it and
    re-checking, and the GUI toolkit is asked for a callback outside the lock.
    The class holds the four critical sections; the state machine below it
    interleaves them in every possible way. */
module OutputBatcher {

  /** Identity of a function handed to AfterFlush. */
  type Callback = nat

  /** The fields protected by the mutex. */
  datatype Core = Core(pending: string, after: seq<Callback>, scheduled: bool)

  const EMPTY_CORE := Core("", [], false)

  function EnqueueCore(c: Core, text: string): (Core, bool) {
    if text == "" then (c, false)
    else (c.(pending := c.pending + text, scheduled := true), !c.scheduled)
  }

  function AfterFlushCore(c: Core, fn: Callback): (Core, bool) {
    (c.(after := c.after + [fn], scheduled := true), !c.scheduled)
  }

  function RecheckCore(c: Core): (Core, bool, seq<Callback>) {
    if c.pending != "" then (c, true, [])
    else (c.(after := [], scheduled := false), false, c.after)
  }

  class GuiOutputBatcher {
    var pending: string
    var after: seq<Callback>
    var scheduled: bool

    ghost function State(): Core
      reads this
    {
      Core(pending, after, scheduled)
    }

    constructor ()
      ensures State() == EMPTY_CORE
    {
      pending, after, scheduled := "", [], false;
    }

    /** Critical section of Enqueue; the caller schedules a drain iff told to. */
    method Enqueue(text: string) returns (mustSchedule: bool)
      modifies this
      ensures (State(), mustSchedule) == EnqueueCore(old(State()), text)
    {
      if text == "" {
        return false;
      }
      pending := pending + text;
      if scheduled {
        return false;
      }
      scheduled := true;
      return true;
    }

    /** Critical section of AfterFlush. */
    method AfterFlush(fn: Callback) returns (mustSchedule: bool)
      modifies this
      ensures (State(), mustSchedule) == AfterFlushCore(old(State()), fn)
    {
      after := after + [fn];
      if scheduled {
        return false;
      }
      scheduled := true;
      return true;
    }

    /** First critical section of drain. */
    method TakeText() returns (text: string)
      modifies this
      ensures text == old(pending) && State() == old(State()).(pending := "")
    {
      text := pending;
      pending := "";
    }

    /** Second critical section of drain: either ask for one more drain, or
        hand out the callbacks and release the single scheduling slot. */
    method Recheck() returns (mustSchedule: bool, callbacks: seq<Callback>)
      modifies this
      ensures (State(), mustSchedule, callbacks) == RecheckCore(old(State()))
    {
      if |pending| > 0 {
        return true, [];
      }
      callbacks := after;
      after := [];
      scheduled := false;
      mustSchedule := false;
    }
  }

  // ---------------------------------------------------------------------------
  // Every interleaving
  // ---------------------------------------------------------------------------

  /** Where the GUI thread is.  Appending holds the text taken from the batcher;
      Rescheduling is past the second unlock but has not called schedule yet. */
  datatype Gui =
    | Idle
    | Appending(text: string)
    | Rechecking
    | Rescheduling
    | Running(left: seq<Callback>)
  {
    predicate Draining() { Appending? || Rechecking? || Rescheduling? }
    function InFlight(): string { if Appending? then text else "" }
    function Left(): seq<Callback> { if Running? then left else [] }
  }

  /** fn was registered when exactly the text before had been enqueued. */
  datatype Registration = Registration(fn: Callback, before: string)
  /** fn ran when exactly the text onScreen had been appended. */
  datatype Firing = Firing(fn: Callback, onScreen: string)

  /** owed counts the threads between unlocking and calling schedule; queued
      counts the drains the toolkit still has to run.  enqueued, registered,
      fired, calls and drains record the history of the run. */
  datatype World = World(
    core: Core, owed: nat, queued: nat, gui: Gui, screen: string,
    enqueued: string, registered: seq<Registration>, fired: seq<Firing>,
    calls: nat, drains: nat)

  const START := World(EMPTY_CORE, 0, 0, Idle, "", "", [], [], 0, 0)

  datatype Event =
    | Enqueue(text: string)   // any thread, critical section of Enqueue
    | AfterFlush(fn: Callback) // any thread, critical section of AfterFlush
    | CallSchedule            // a thread that owes a schedule performs it
    | StartDrain              // the toolkit starts a queued drain: first section
    | AppendText              // drain appends what it took
    | Recheck                 // drain: second section
    | Reschedule              // drain performs the schedule it owes
    | Fire                    // drain runs the next callback
    | Return                  // drain returns to the event loop
  {
    predicate IsCall() { (Enqueue? && text != "") || AfterFlush? }
    predicate IsInternal() { !Enqueue? && !AfterFlush? }
  }

  predicate Enabled(w: World, e: Event) {
    match e
    case Enqueue(_) => true
    case AfterFlush(_) => true
    case CallSchedule => w.owed > 0
    case StartDrain => w.queued > 0 && w.gui.Idle?
    case AppendText => w.gui.Appending?
    case Recheck => w.gui.Rechecking?
    case Reschedule => w.gui.Rescheduling?
    case Fire => w.gui.Running? && w.gui.left != []
    case Return => w.gui.Running? && w.gui.left == []
  }

  function Apply(w: World, e: Event): World
    requires Enabled(w, e)
  {
    match e
    case Enqueue(text) =>
      var (core, must) := EnqueueCore(w.core, text);
      w.(core := core, owed := w.owed + (if must then 1 else 0),
         enqueued := w.enqueued + text, calls := w.calls + (if text == "" then 0 else 1))
    case AfterFlush(fn) =>
      var (core, must) := AfterFlushCore(w.core, fn);
      w.(core := core, owed := w.owed + (if must then 1 else 0),
         registered := w.registered + [Registration(fn, w.enqueued)], calls := w.calls + 1)
    case CallSchedule => w.(owed := w.owed - 1, queued := w.queued + 1)
    case StartDrain =>
      w.(core := w.core.(pending := ""), queued := w.queued - 1,
         gui := Appending(w.core.pending), drains := w.drains + 1)
    case AppendText => w.(gui := Rechecking, screen := w.screen + w.gui.text)
    case Recheck =>
      var (core, again, callbacks) := RecheckCore(w.core);
      w.(core := core, gui := if again then Rescheduling else Running(callbacks))
    case Reschedule => w.(gui := Idle, queued := w.queued + 1)
    case Fire =>
      w.(gui := Running(w.gui.left[1..]), fired := w.fired + [Firing(w.gui.left[0], w.screen)])
    case Return => w.(gui := Idle)
  }

  /** es can happen in this order from w. */
  ghost predicate Feasible(w: World, es: seq<Event>)
    decreases |es|
  {
    es == [] || (Enabled(w, es[0]) && Feasible(Apply(w, es[0]), es[1..]))
  }

  ghost function Execute(w: World, es: seq<Event>): World
    requires Feasible(w, es)
    decreases |es|
  {
    if es == [] then w else Execute(Apply(w, es[0]), es[1..])
  }

  // ---------------------------------------------------------------------------
  // The invariant
  // ---------------------------------------------------------------------------

  /** The number of drains that are owed, queued or before their last unlock. */
  function Outstanding(w: World): nat {
    w.owed + w.queued + if w.gui.Draining() then 1 else 0
  }

  function Names(rs: seq<Registration>): seq<Callback> {
    seq(|rs|, i requires 0 <= i < |rs| => rs[i].fn)
  }

  function FiredNames(fs: seq<Firing>): seq<Callback> {
    seq(|fs|, i requires 0 <= i < |fs| => fs[i].fn)
  }

  /** A wake-up that is not yet paid for by a started drain. */
  function Credit(w: World): nat {
    (if w.owed + w.queued > 0 || w.gui.Rescheduling? then 1 else 0)
    + (if (w.gui.Appending? || w.gui.Rechecking?) && w.core.pending != "" then 1 else 0)
  }

  ghost predicate Slot(w: World) {
    && Outstanding(w) == (if w.core.scheduled then 1 else 0)
    && (!w.core.scheduled ==> w.core.pending == "" && w.core.after == [])
  }

  ghost predicate TextKept(w: World) {
    w.screen + w.gui.InFlight() + w.core.pending == w.enqueued
  }

  ghost predicate CallbacksKept(w: World) {
    && Names(w.registered) == FiredNames(w.fired) + w.gui.Left() + w.core.after
    && (forall i :: 0 <= i < |w.registered| ==> w.registered[i].before <= w.enqueued)
    && (forall i :: 0 <= i < |w.fired| + |w.gui.Left()| ==> w.registered[i].before <= w.screen)
    && (forall i :: 0 <= i < |w.fired| ==>
          w.registered[i].before <= w.fired[i].onScreen <= w.screen)
  }

  ghost predicate Inv(w: World) {
    && Slot(w)
    && TextKept(w)
    && |w.registered| == |w.fired| + |w.gui.Left()| + |w.core.after|
    && CallbacksKept(w)
    && w.drains + Credit(w) <= w.calls
  }

  lemma StepKeepsSlot(w: World, e: Event)
    requires Inv(w) && Enabled(w, e)
    ensures Slot(Apply(w, e))
  {
  }

  lemma StepKeepsText(w: World, e: Event)
    requires Inv(w) && Enabled(w, e)
    ensures TextKept(Apply(w, e))
  {
    match e {
      case Enqueue(text) =>
        assert w.screen + w.gui.InFlight() + (w.core.pending + text)
            == (w.screen + w.gui.InFlight() + w.core.pending) + text;
      case _ =>
    }
  }

  lemma StepKeepsCallbacks(w: World, e: Event)
    requires Inv(w) && Enabled(w, e)
    ensures var v := Apply(w, e);
      |v.registered| == |v.fired| + |v.gui.Left()| + |v.core.after| && CallbacksKept(v)
  {
    var v := Apply(w, e);
    match e {
      case AfterFlush(fn) =>
        assert Names(v.registered) == Names(w.registered) + [fn];
      case Fire =>
        assert FiredNames(v.fired) == FiredNames(w.fired) + [w.gui.left[0]];
        assert w.gui.left == [w.gui.left[0]] + v.gui.left;
      case Recheck =>
        assert w.core.pending == "" ==> w.screen == w.enqueued;
      case _ =>
    }
  }

  lemma StepKeepsCredit(w: World, e: Event)
    requires Inv(w) && Enabled(w, e)
    ensures var v := Apply(w, e); v.drains + Credit(v) <= v.calls
  {
  }

  lemma StepKeepsInv(w: World, e: Event)
    requires Inv(w) && Enabled(w, e)
    ensures Inv(Apply(w, e))
  {
    StepKeepsSlot(w, e);
    StepKeepsText(w, e);
    StepKeepsCallbacks(w, e);
    StepKeepsCredit(w, e);
  }

  lemma {:induction false} ExecuteKeepsInv(w: World, es: seq<Event>)
    requires Inv(w) && Feasible(w, es)
    ensures Inv(Execute(w, es))
    decreases |es|
  {
    if es == [] {
    } else {
      StepKeepsInv(w, es[0]);
      ExecuteKeepsInv(Apply(w, es[0]), es[1..]);
    }
  }

  // ---------------------------------------------------------------------------
  // Main results
  // ---------------------------------------------------------------------------

  /** The text the run handed to Enqueue, in the order the lock was taken. */
  function TextOf(es: seq<Event>): string {
    if es == [] then "" else
      (if es[0].Enqueue? then es[0].text else "") + TextOf(es[1..])
  }

  lemma {:induction false} EnqueuedIsTextOf(w: World, es: seq<Event>)
    requires Feasible(w, es)
    ensures Execute(w, es).enqueued == w.enqueued + TextOf(es)
    decreases |es|
  {
    if es == [] {
    } else {
      var head := if es[0].Enqueue? then es[0].text else "";
      assert Apply(w, es[0]).enqueued == w.enqueued + head;
      EnqueuedIsTextOf(Apply(w, es[0]), es[1..]);
      assert (w.enqueued + head) + TextOf(es[1..]) == w.enqueued + (head + TextOf(es[1..]));
    }
  }

  /** Nothing is lost, duplicated or reordered, whatever the interleaving. */
  lemma TextConservation(es: seq<Event>)
    requires Feasible(START, es)
    ensures var w := Execute(START, es);
      w.screen + w.gui.InFlight() + w.core.pending == TextOf(es)
  {
    hide Feasible, Execute, TextOf, Slot, CallbacksKept;
    StartKeepsInv();
    ExecuteKeepsInv(START, es);
    EnqueuedIsTextOf(START, es);
  }

  lemma StartKeepsInv()
    ensures Inv(START)
  {
  }

  /** scheduled is set exactly while one drain is owed, queued or before its
      final unlock, never more than one, and otherwise nothing waits. */
  lemma OneDrainOutstanding(es: seq<Event>)
    requires Feasible(START, es)
    ensures var w := Execute(START, es);
      && (w.core.scheduled <==> Outstanding(w) == 1)
      && Outstanding(w) <= 1
      && (w.core.pending != "" || w.core.after != [] ==> Outstanding(w) == 1)
  {
    ExecuteKeepsInv(START, es);
  }

  /** What the run registered with AfterFlush: each function, in lock order,
      with the text enqueued before it. */
  function RegistrationsOf(es: seq<Event>, before: string): seq<Registration> {
    if es == [] then []
    else if es[0].Enqueue? then RegistrationsOf(es[1..], before + es[0].text)
    else if es[0].AfterFlush? then
      [Registration(es[0].fn, before)] + RegistrationsOf(es[1..], before)
    else RegistrationsOf(es[1..], before)
  }

  lemma {:induction false} RegisteredIsRegistrationsOf(w: World, es: seq<Event>)
    requires Feasible(w, es)
    ensures Execute(w, es).registered == w.registered + RegistrationsOf(es, w.enqueued)
    decreases |es|
  {
    if es == [] {
    } else {
      var v := Apply(w, es[0]);
      RegisteredIsRegistrationsOf(v, es[1..]);
      if es[0].AfterFlush? {
        var r := Registration(es[0].fn, w.enqueued);
        assert (w.registered + [r]) + RegistrationsOf(es[1..], v.enqueued)
            == w.registered + ([r] + RegistrationsOf(es[1..], v.enqueued));
      }
    }
  }

  /** Callbacks run at most once and in registration order, and each runs only
      when all text enqueued before its registration is on the screen. */
  lemma CallbacksAfterTheirText(es: seq<Event>)
    requires Feasible(START, es)
    ensures var w := Execute(START, es);
      var rs := RegistrationsOf(es, "");
      && |w.fired| <= |rs|
      && (forall i :: 0 <= i < |w.fired| ==>
            && w.fired[i].fn == rs[i].fn
            && rs[i].before <= w.fired[i].onScreen <= w.screen)
  {
    ExecuteKeepsInv(START, es);
    RegisteredIsRegistrationsOf(START, es);
    var w := Execute(START, es);
    assert w.registered == RegistrationsOf(es, "");
    forall i | 0 <= i < |w.fired|
      ensures w.fired[i].fn == w.registered[i].fn
    {
      assert FiredNames(w.fired)[i] == Names(w.registered)[i];
    }
  }

  function CallCount(es: seq<Event>): nat {
    if es == [] then 0 else (if es[0].IsCall() then 1 else 0) + CallCount(es[1..])
  }

  function DrainCount(es: seq<Event>): nat {
    if es == [] then 0 else (if es[0].StartDrain? then 1 else 0) + DrainCount(es[1..])
  }

  lemma {:induction false} CountersAreCounts(w: World, es: seq<Event>)
    requires Feasible(w, es)
    ensures Execute(w, es).calls == w.calls + CallCount(es)
    ensures Execute(w, es).drains == w.drains + DrainCount(es)
    decreases |es|
  {
    if es == [] {
    } else {
      CountersAreCounts(Apply(w, es[0]), es[1..]);
    }
  }

  /** The GUI thread is never woken more often than the batcher was called. */
  lemma DrainsAreBounded(es: seq<Event>)
    requires Feasible(START, es)
    ensures DrainCount(es) <= CallCount(es)
  {
    ExecuteKeepsInv(START, es);
    CountersAreCounts(START, es);
  }

  /** Nothing more can happen until somebody calls the batcher again. */
  predicate Quiescent(w: World) {
    w.owed == 0 && w.queued == 0 && w.gui.Idle?
  }

  /** How many internal steps are left. */
  function Rank(w: World): nat {
    var clear := w.core.pending == "";
    6 * w.owed + 5 * w.queued + |w.core.after|
    + match w.gui
      case Idle => 0
      case Appending(_) => if clear then 3 else 9
      case Rechecking => if clear then 2 else 8
      case Rescheduling => 7
      case Running(left) => |left| + 1
  }

  /** No wake-up is lost: while text or a callback is still to be delivered the
      machine can move, every internal move uses up rank, and once it is out of
      moves everything enqueued is on the screen and every callback has run. */
  lemma NoLostWakeUp(w: World)
    requires Inv(w)
    ensures Quiescent(w) <==> forall e: Event | e.IsInternal() :: !Enabled(w, e)
    ensures forall e: Event | e.IsInternal() && Enabled(w, e) :: Rank(Apply(w, e)) < Rank(w)
    ensures Quiescent(w) ==>
      w.screen == w.enqueued && FiredNames(w.fired) == Names(w.registered)
  {
    assert Enabled(w, CallSchedule) <==> w.owed > 0;
    assert Enabled(w, StartDrain) <==> w.queued > 0 && w.gui.Idle?;
    assert Enabled(w, AppendText) <==> w.gui.Appending?;
    assert Enabled(w, Recheck) <==> w.gui.Rechecking?;
    assert Enabled(w, Reschedule) <==> w.gui.Rescheduling?;
    assert Enabled(w, Fire) || Enabled(w, Return) <==> w.gui.Running?;
  }

  /** Left alone, the batcher delivers everything within Rank(w) steps. */
  lemma {:induction false} EventuallyDelivers(w: World) returns (es: seq<Event>)
    requires Inv(w)
    ensures Feasible(w, es) && |es| <= Rank(w)
    ensures forall e | e in es :: e.IsInternal()
    ensures var v := Execute(w, es);
      && Quiescent(v)
      && v.screen == w.enqueued
      && FiredNames(v.fired) == Names(w.registered)
    decreases Rank(w)
  {
    NoLostWakeUp(w);
    if Quiescent(w) {
      es := [];
    } else {
      var e: Event :| e.IsInternal() && Enabled(w, e);
      StepKeepsInv(w, e);
      var rest := EventuallyDelivers(Apply(w, e));
      es := [e] + rest;
      assert es[1..] == rest;
    }
  }
}
