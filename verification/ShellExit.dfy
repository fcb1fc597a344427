/** The exit callback of a shell (guis/interactive_gui.go, installInteractiveSession):
    it gives the transport back to the registry and writes the exit text only if
    the registry still held it.  The output batcher of the shell and the registry
    shared by all shells take their steps in any order. */
module ShellExit {
  import B = OutputBatcher
  import R = RuntimeRegistry
  import opened InteractiveDrain

  /** The callback of one shell, the id of its tab and its transport. */
  datatype Shell = Shell(exit: B.Callback, id: R.RuntimeId, transport: R.Transport)

  /** exits records what was on the screen each time the exit text was written. */
  datatype World = World(out: B.World, registry: R.World, exits: seq<string>)

  const START := World(B.START, R.START, [])

  datatype Event = Output(b: B.Event) | Registry(r: R.Event)

  predicate Enabled(w: World, e: Event) {
    match e case Output(b) => B.Enabled(w.out, b) case Registry(r) => R.Enabled(w.registry, r)
  }

  predicate FiresExit(shell: Shell, w: World, b: B.Event)
    requires B.Enabled(w.out, b)
  {
    b.Fire? && w.out.gui.left[0] == shell.exit
  }

  function Apply(shell: Shell, w: World, e: Event): World
    requires Enabled(w, e)
  {
    match e
    case Registry(r) => w.(registry := R.Apply(w.registry, r))
    case Output(b) =>
      var next := w.(out := B.Apply(w.out, b));
      if !FiresExit(shell, w, b) then next
      else
        var released := R.MaySwap(w.registry.runtimes, shell.id, shell.transport);
        next.(registry := R.Apply(w.registry, R.Release(shell.id, shell.transport)),
              exits := w.exits + if released then [w.out.screen] else [])
  }

  ghost predicate Feasible(shell: Shell, w: World, es: seq<Event>)
    decreases |es|
  {
    es == [] || (Enabled(w, es[0]) && Feasible(shell, Apply(shell, w, es[0]), es[1..]))
  }

  ghost function Execute(shell: Shell, w: World, es: seq<Event>): World
    requires Feasible(shell, w, es)
    decreases |es|
  {
    if es == [] then w else Execute(shell, Apply(shell, w, es[0]), es[1..])
  }

  // ---------------------------------------------------------------------------
  // The exit text comes once, and last
  // ---------------------------------------------------------------------------

  function Outputs(es: seq<Event>): seq<B.Event> {
    if es == [] then [] else (if es[0].Output? then [es[0].b] else []) + Outputs(es[1..])
  }

  /** The batcher does not notice the registry. */
  lemma {:induction false} OutputsRun(shell: Shell, w: World, es: seq<Event>)
    requires Feasible(shell, w, es)
    ensures B.Feasible(w.out, Outputs(es))
    ensures Execute(shell, w, es).out == B.Execute(w.out, Outputs(es))
    decreases |es|
  {
    hide B.Enabled, B.Apply;
    if es != [] {
      OutputsRun(shell, Apply(shell, w, es[0]), es[1..]);
      if es[0].Output? {
        assert Outputs(es)[0] == es[0].b && Outputs(es)[1..] == Outputs(es[1..]);
      } else {
        assert Outputs(es) == Outputs(es[1..]);
      }
    }
  }

  /** Every exit text belongs to a firing of a callback with that screen. */
  ghost predicate ExitsFired(w: World) {
    && |w.exits| <= |w.out.fired|
    && forall x :: x in w.exits ==> exists i :: 0 <= i < |w.out.fired| && w.out.fired[i].onScreen == x
  }

  lemma StepKeepsExits(shell: Shell, w: World, e: Event)
    requires ExitsFired(w) && Enabled(w, e)
    ensures ExitsFired(Apply(shell, w, e))
  {
    var v := Apply(shell, w, e);
    assert w.out.fired <= v.out.fired;
    forall x | x in v.exits ensures exists i :: 0 <= i < |v.out.fired| && v.out.fired[i].onScreen == x {
      if x in w.exits {
        var i :| 0 <= i < |w.out.fired| && w.out.fired[i].onScreen == x;
        assert v.out.fired[i] == w.out.fired[i];
      } else {
        assert v.out.fired[|w.out.fired|].onScreen == x;
      }
    }
  }

  lemma {:induction false} ExecuteKeepsExits(shell: Shell, w: World, es: seq<Event>)
    requires Feasible(shell, w, es) && ExitsFired(w)
    ensures ExitsFired(Execute(shell, w, es))
    decreases |es|
  {
    if es != [] {
      StepKeepsExits(shell, w, es[0]);
      ExecuteKeepsExits(shell, Apply(shell, w, es[0]), es[1..]);
    }
  }

  /** However the output of the shell, the GUI and all users of the registry
      interleave, the exit text is written at most once, and only when the whole
      output of the shell is on the screen. */
  lemma ExitTextOnceAndLast(shell: Shell, chunks: seq<string>, es: seq<Event>)
    requires Feasible(shell, START, es) && CallsOf(Outputs(es)) <= DrainCalls(chunks, shell.exit)
    ensures var w := Execute(shell, START, es); w.exits == [] || w.exits == [Concat(chunks)]
  {
    OutputsRun(shell, START, es);
    ExecuteKeepsExits(shell, START, es);
    ExitAfterAllOutput(chunks, shell.exit, Outputs(es));
    var w := Execute(shell, START, es);
    if w.exits != [] {
      assert w.exits[0] in w.exits;
    }
  }

  // ---------------------------------------------------------------------------
  // A superseded shell is silent
  // ---------------------------------------------------------------------------

  /** Once the transport has been superseded, closed or released, no exit text is
      written for it, whatever happens. */
  lemma {:induction false} GoneShellIsSilent(shell: Shell, w: World, p: R.Placement, es: seq<Event>)
    requires R.Placed(w.registry, p) && R.Gone(w.registry, shell.transport) && Feasible(shell, w, es)
    ensures Execute(shell, w, es).exits == w.exits
    decreases |es|
  {
    hide R.Placed, R.Gone, R.Apply, R.Move, B.Apply;
    if es != [] {
      var v := Apply(shell, w, es[0]);
      if es[0].Registry? {
        R.StepKeepsPlaced(w.registry, p, es[0].r);
        R.StepKeepsGone(w.registry, p, es[0].r, shell.transport);
        GoneShellIsSilent(shell, v, R.Move(w.registry, p, es[0].r), es[1..]);
      } else {
        GoneCannotRelease(w.registry, shell.id, shell.transport);
        assert v.registry == w.registry && v.exits == w.exits;
        GoneShellIsSilent(shell, v, p, es[1..]);
      }
    }
  }

  lemma {:induction false} ExecuteKeepsPlaced(shell: Shell, w: World, p: R.Placement, es: seq<Event>)
    returns (q: R.Placement)
    requires R.Placed(w.registry, p) && Feasible(shell, w, es)
    ensures R.Placed(Execute(shell, w, es).registry, q)
    decreases |es|
  {
    hide R.Placed, R.Apply, R.Move, B.Apply;
    q := p;
    if es != [] {
      var e := es[0];
      if e.Registry? {
        R.StepKeepsPlaced(w.registry, p, e.r);
        q := R.Move(w.registry, p, e.r);
      } else if FiresExit(shell, w, e.b) {
        var release := R.Release(shell.id, shell.transport);
        R.StepKeepsPlaced(w.registry, p, release);
        q := R.Move(w.registry, p, release);
      }
      q := ExecuteKeepsPlaced(shell, Apply(shell, w, e), q, es[1..]);
    }
  }

  /** In particular from the start of the program on. */
  lemma SupersededShellIsSilent(shell: Shell, es: seq<Event>, later: seq<Event>)
    requires Feasible(shell, START, es)
    requires var w := Execute(shell, START, es);
      R.Gone(w.registry, shell.transport) && Feasible(shell, w, later)
    ensures var w := Execute(shell, START, es);
      Execute(shell, w, later).exits == w.exits
  {
    var p := ExecuteKeepsPlaced(shell, START, map[], es);
    GoneShellIsSilent(shell, Execute(shell, START, es), p, later);
  }

  lemma GoneCannotRelease(w: R.World, id: R.RuntimeId, t: R.Transport)
    requires R.Gone(w, t)
    ensures !R.MaySwap(w.runtimes, id, t) && R.Apply(w, R.Release(id, t)) == w
  {
    assert !R.CurrentUnder(w, t, id);
  }

  /** The exit text is written exactly when the callback finds its transport
      current, and then the transport is gone for good. */
  lemma ExitTextIffCurrent(shell: Shell, w: World, p: R.Placement, b: B.Event)
    requires R.Placed(w.registry, p) && B.Enabled(w.out, b) && FiresExit(shell, w, b)
    ensures var v := Apply(shell, w, Output(b));
      && (v.exits == w.exits + [w.out.screen] <==> R.CurrentUnder(w.registry, shell.transport, shell.id))
      && (v.exits == w.exits || R.Gone(v.registry, shell.transport))
  {
    var v := Apply(shell, w, Output(b));
    var e := R.Release(shell.id, shell.transport);
    if R.CurrentUnder(w.registry, shell.transport, shell.id) {
      assert !R.CurrentUnder(R.Apply(w.registry, e), shell.transport, shell.id);
      R.LeavingIsForGood(w.registry, p, e, shell.id, shell.transport);
    } else {
      assert v.exits == w.exits + [];
    }
  }
}
