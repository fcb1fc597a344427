/** drainInteractiveOutput (guis/interactive_gui.go): one goroutine feeds the
    output of a transport to a batcher and then registers the exit callback. */
module InteractiveDrain {
  import opened OutputBatcher

  function Concat(chunks: seq<string>): string {
    if chunks == [] then "" else chunks[0] + Concat(chunks[1..])
  }

  /** The calls of the goroutine for the chunks, empty ones skipped. */
  function FeedCalls(chunks: seq<string>): seq<Event> {
    if chunks == [] then []
    else (if chunks[0] == "" then [] else [Enqueue(chunks[0])]) + FeedCalls(chunks[1..])
  }

  function DrainCalls(chunks: seq<string>, exit: Callback): seq<Event> {
    FeedCalls(chunks) + [AfterFlush(exit)]
  }

  lemma {:induction false} FeedCallsSnoc(chunks: seq<string>, last: string)
    ensures FeedCalls(chunks + [last])
         == FeedCalls(chunks) + (if last == "" then [] else [Enqueue(last)])
    ensures Concat(chunks + [last]) == Concat(chunks) + last
  {
    if chunks == [] {
      assert chunks + [last] == [last];
      assert FeedCalls([last][1..]) == [] && Concat([last][1..]) == "";
    } else {
      assert (chunks + [last])[1..] == chunks[1..] + [last];
      FeedCallsSnoc(chunks[1..], last);
      assert chunks[0] + (Concat(chunks[1..]) + last) == (chunks[0] + Concat(chunks[1..])) + last;
    }
  }

  /** The goroutine itself.  output is the transport's stream up to the close of
      its channel; the batcher gets all of it, and the exit callback last. */
  method DrainInteractiveOutput(output: seq<string>, batcher: GuiOutputBatcher, onExit: Callback)
    returns (calls: seq<Event>)
    modifies batcher
    ensures calls == DrainCalls(output, onExit)
    ensures batcher.pending == old(batcher.pending) + Concat(output)
    ensures batcher.after == old(batcher.after) + [onExit]
    ensures batcher.scheduled
  {
    calls := [];
    var i := 0;
    while i < |output|
      invariant 0 <= i <= |output|
      invariant calls == FeedCalls(output[..i])
      invariant batcher.pending == old(batcher.pending) + Concat(output[..i])
      invariant batcher.after == old(batcher.after)
    {
      assert output[..i + 1] == output[..i] + [output[i]];
      FeedCallsSnoc(output[..i], output[i]);
      if |output[i]| > 0 {
        var _ := batcher.Enqueue(output[i]);
        calls := calls + [Enqueue(output[i])];
      }
      i := i + 1;
    }
    assert output[..i] == output;
    var _ := batcher.AfterFlush(onExit);
    calls := calls + [AfterFlush(onExit)];
  }

  // ---------------------------------------------------------------------------
  // The goroutine against the GUI thread
  // ---------------------------------------------------------------------------

  function CallsOf(es: seq<Event>): seq<Event> {
    if es == [] then []
    else (if es[0].IsCall() then [es[0]] else []) + CallsOf(es[1..])
  }

  lemma {:induction false} OnlyCallsMatter(es: seq<Event>, before: string)
    ensures TextOf(CallsOf(es)) == TextOf(es)
    ensures RegistrationsOf(CallsOf(es), before) == RegistrationsOf(es, before)
  {
    if es == [] {
    } else {
      var text := if es[0].Enqueue? then es[0].text else "";
      OnlyCallsMatter(es[1..], before + text);
      assert before + "" == before;
      if es[0].IsCall() {
        assert CallsOf(es)[0] == es[0] && CallsOf(es)[1..] == CallsOf(es[1..]);
      } else {
        assert CallsOf(es) == CallsOf(es[1..]);
      }
    }
  }

  lemma {:induction false} FeedingRegistersNothing(chunks: seq<string>, exit: Callback, before: string)
    ensures forall n: nat | n <= |FeedCalls(chunks)| ::
      RegistrationsOf(FeedCalls(chunks)[..n], before) == []
    ensures RegistrationsOf(DrainCalls(chunks, exit), before)
         == [Registration(exit, before + Concat(chunks))]
    ensures TextOf(DrainCalls(chunks, exit)) == Concat(chunks)
  {
    if chunks == [] {
      assert before + "" == before;
      assert DrainCalls(chunks, exit)[1..] == [];
    } else {
      var rest := chunks[1..];
      FeedingRegistersNothing(rest, exit, before + chunks[0]);
      assert (before + chunks[0]) + Concat(rest) == before + Concat(chunks);
      if chunks[0] == "" {
        assert before + chunks[0] == before;
        assert FeedCalls(chunks) == FeedCalls(rest);
      } else {
        assert FeedCalls(chunks)[1..] == FeedCalls(rest);
        assert DrainCalls(chunks, exit)[1..] == DrainCalls(rest, exit);
        forall n: nat | n <= |FeedCalls(chunks)|
          ensures RegistrationsOf(FeedCalls(chunks)[..n], before) == []
        {
          if n > 0 {
            assert FeedCalls(chunks)[..n][1..] == FeedCalls(rest)[..n - 1];
          }
        }
      }
    }
  }

  lemma Squeeze(a: string, b: string, rest: string, all: string)
    requires all <= a <= b && b + rest == all
    ensures a == b == all
  {
    assert |all| <= |a| <= |b| <= |all|;
  }

  /** However the goroutine's calls interleave with the GUI thread, the exit
      callback runs at most once and only when every byte is on the screen. */
  lemma ExitAfterAllOutput(chunks: seq<string>, exit: Callback, es: seq<Event>)
    requires Feasible(START, es) && CallsOf(es) <= DrainCalls(chunks, exit)
    ensures var w := Execute(START, es);
      w.fired != [] ==> w.fired == [Firing(exit, Concat(chunks))] && w.screen == Concat(chunks)
  {
    hide Feasible, Execute, TextOf, RegistrationsOf, CallsOf;
    var w := Execute(START, es);
    CallbacksAfterTheirText(es);
    OnlyCallsMatter(es, "");
    FeedingRegistersNothing(chunks, exit, "");
    assert "" + Concat(chunks) == Concat(chunks);
    assert (w.screen + w.gui.InFlight()) + w.core.pending
        == w.screen + (w.gui.InFlight() + w.core.pending);
    var n := |CallsOf(es)|;
    if n <= |FeedCalls(chunks)| {
      assert CallsOf(es) == FeedCalls(chunks)[..n];
    } else {
      assert CallsOf(es) == DrainCalls(chunks, exit);
      TextConservation(es);
      if w.fired != [] {
        Squeeze(w.fired[0].onScreen, w.screen, w.gui.InFlight() + w.core.pending, Concat(chunks));
        assert w.fired == [w.fired[0]];
      }
    }
  }

  /** Once the transport has ended and the GUI is idle, the exit callback ran. */
  lemma ExitIsDelivered(chunks: seq<string>, exit: Callback, es: seq<Event>)
    requires Feasible(START, es) && CallsOf(es) == DrainCalls(chunks, exit)
    requires Quiescent(Execute(START, es))
    ensures Execute(START, es).fired == [Firing(exit, Concat(chunks))]
  {
    var w := Execute(START, es);
    ExecuteKeepsInv(START, es);
    NoLostWakeUp(w);
    RegisteredIsRegistrationsOf(START, es);
    OnlyCallsMatter(es, "");
    FeedingRegistersNothing(chunks, exit, "");
    assert |FiredNames(w.fired)| == |Names(w.registered)| == 1;
    ExitAfterAllOutput(chunks, exit, es);
  }
}
