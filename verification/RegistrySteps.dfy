/** The calls of the transport registry, undisturbed, are the steps that the
    interleavings are made of (guis/interactive_runtime.go). */
module RegistrySteps {
  import opened RuntimeRegistry

  ghost function View(w: World): Registry { Registry(w.runtimes, w.cancels) }

  lemma StartIsItsStep(w: World, id: RuntimeId, t: Transport, starts: bool)
    requires t !in w.started
    ensures var v := Apply(w, StartNew(id, t, starts));
      View(v) == StartSpec(View(w), id, t, starts).0 && v.tasks == w.tasks
  {
  }

  lemma ReleaseIsItsStep(w: World, id: RuntimeId, t: Transport)
    ensures var v := Apply(w, Release(id, t));
      View(v) == ReleaseSpec(View(w), id, t).0 && v.tasks == w.tasks
  {
  }

  lemma OneStep(w: World, e: Event, rest: seq<Event>)
    requires Enabled(w, e) && Feasible(Apply(w, e), rest)
    ensures Feasible(w, [e] + rest) && Execute(w, [e] + rest) == Execute(Apply(w, e), rest)
  {
    assert ([e] + rest)[1..] == rest;
  }

  function CloseSteps(w: World, th: Thread, id: RuntimeId): seq<Event> {
    [CloseTake(th, id)] + if id in w.runtimes then [Cancel(th, w.runtimes[id])] else []
  }

  /** Close takes the entry out and then cancels it. */
  lemma CloseIsItsSteps(w: World, th: Thread, id: RuntimeId)
    requires th !in w.tasks
    ensures Feasible(w, CloseSteps(w, th, id))
    ensures var v := Execute(w, CloseSteps(w, th, id));
      View(v) == CloseSpec(View(w), id).0 && v.tasks == w.tasks
  {
    var v := Apply(w, CloseTake(th, id));
    if id in w.runtimes {
      var t := w.runtimes[id];
      OneStep(v, Cancel(th, t), []);
      OneStep(w, CloseTake(th, id), [Cancel(th, t)] + []);
      assert [Cancel(th, t)] + [] == [Cancel(th, t)];
    } else {
      OneStep(w, CloseTake(th, id), []);
    }
  }

  function ReplaceSteps(w: World, th: Thread, id: RuntimeId, t: Transport, starts: bool): seq<Event> {
    [ReplaceLook(th, id, t)] +
    if id == NO_ID || id !in w.runtimes then []
    else [ReplaceStart(th, starts)] + if !starts then [] else [ReplacePublish(th)] + [Cancel(th, w.runtimes[id])]
  }

  /** Replace looks the entry up, starts the successor, publishes it and cancels
      the superseded transport; it stops where it fails. */
  lemma ReplaceIsItsSteps(w: World, th: Thread, id: RuntimeId, t: Transport, starts: bool)
    requires th !in w.tasks && t !in w.started
    ensures Feasible(w, ReplaceSteps(w, th, id, t, starts))
    ensures var v := Execute(w, ReplaceSteps(w, th, id, t, starts));
      View(v) == ReplaceSpec(View(w), id, t, starts).0 && v.tasks == w.tasks
  {
    var look, start, publish := ReplaceLook(th, id, t), ReplaceStart(th, starts), ReplacePublish(th);
    var w1 := Apply(w, look);
    if id == NO_ID || id !in w.runtimes {
      OneStep(w, look, []);
    } else {
      var w2 := Apply(w1, start);
      if !starts {
        OneStep(w1, start, []);
        OneStep(w, look, [start] + []);
      } else {
        var cancel := Cancel(th, w.runtimes[id]);
        var w3 := Apply(w2, publish);
        OneStep(w3, cancel, []);
        assert [cancel] + [] == [cancel];
        OneStep(w2, publish, [cancel]);
        OneStep(w1, start, [publish] + [cancel]);
        OneStep(w, look, [start] + ([publish] + [cancel]));
      }
    }
  }
}
