/** The host monitor (hostmonitor/session.go): one producer samples a host and
    publishes updates on a channel that holds one, replacing a stale update; a
    consumer may receive at any moment. */
module HostMonitor {
  import opened Outcomes

  /** Revision is a uint64 and Failures a uint32. */
  const TWO_64: nat := 0x1_0000_0000_0000_0000
  const TWO_32: nat := 0x1_0000_0000

  datatype Phase = New | Running | Degraded | Stopped

  /** D stands for the measured values. */
  datatype Snapshot<D> = Snapshot(revision: nat, collectedAt: int, data: D)

  datatype MonitorState = MonitorState(phase: Phase, lastSuccess: int, lastError: string, failures: nat)

  datatype Update<D> = Update(state: MonitorState, snapshot: Snapshot<D>)

  /** What Source.Sample gives; cancelled says that the context has ended. */
  datatype Sample<D> = Success(collectedAt: int, data: D) | Failure(error: string, cancelled: bool)

  /** published and received record what went in and came out. */
  datatype World<D> = World(
    state: MonitorState,
    snapshot: Snapshot<D>,
    channel: Option<Update<D>>,
    published: seq<Update<D>>,
    received: seq<Update<D>>)

  /** Whether the consumer receives before each of the channel operations of
      publish; a second receive at the same moment finds the channel empty. */
  datatype Takes = Takes(beforeSend: bool, beforeDrain: bool, beforeResend: bool)

  // ---------------------------------------------------------------------------
  // Steps
  // ---------------------------------------------------------------------------

  function Receive<D>(w: World<D>, take: bool): World<D> {
    if take && w.channel.Some? then w.(channel := None, received := w.received + [w.channel.value]) else w
  }

  /** A send in a select with a default. */
  function TrySend<D>(w: World<D>, u: Update<D>): (World<D>, bool) {
    if w.channel.None? then (w.(channel := Some(u)), true) else (w, false)
  }

  function PublishSpec<D>(w: World<D>, u: Update<D>, t: Takes): World<D> {
    var (first, sent) := TrySend(Receive(w.(published := w.published + [u]), t.beforeSend), u);
    if sent then first
    else
      var drained := Receive(first, t.beforeDrain).(channel := None);
      TrySend(Receive(drained, t.beforeResend), u).0
  }

  /** The update of a sample, and what the session remembers of it. */
  function Recorded<D>(w: World<D>, sample: Sample<D>): World<D> {
    match sample
    case Success(at, data) =>
      w.(snapshot := Snapshot((w.snapshot.revision + 1) % TWO_64, at, data),
         state := MonitorState(Running, at, "", 0))
    case Failure(error, _) =>
      w.(state := MonitorState(Degraded, w.state.lastSuccess, error, (w.state.failures + 1) % TWO_32))
  }

  function Ignored<D>(sample: Sample<D>): bool { sample.Failure? && sample.cancelled }

  function CollectSpec<D>(w: World<D>, sample: Sample<D>, t: Takes): World<D> {
    if Ignored(sample) then w
    else
      var next := Recorded(w, sample);
      PublishSpec(next, Update(next.state, next.snapshot), t)
  }

  datatype Event<D> = Tick(sample: Sample<D>, takes: Takes) | Consume

  function Step<D>(w: World<D>, e: Event<D>): World<D> {
    match e case Tick(sample, takes) => CollectSpec(w, sample, takes) case Consume => Receive(w, true)
  }

  function Run<D>(w: World<D>, events: seq<Event<D>>): World<D> {
    if events == [] then w
    else Step(Run(w, events[..|events| - 1]), events[|events| - 1])
  }

  // ---------------------------------------------------------------------------
  // The session object
  // ---------------------------------------------------------------------------

  class Session<D> {
    var state: MonitorState
    var snapshot: Snapshot<D>
    var updates: Option<Update<D>>
    ghost var published: seq<Update<D>>
    ghost var received: seq<Update<D>>

    constructor (empty: D)
      ensures Now() == World(MonitorState(New, 0, "", 0), Snapshot(0, 0, empty), None, [], [])
    {
      state, snapshot, updates := MonitorState(New, 0, "", 0), Snapshot(0, 0, empty), None;
      published, received := [], [];
    }

    ghost function Now(): World<D>
      reads this
    {
      World(state, snapshot, updates, published, received)
    }

    /** The consumer's side of the channel. */
    method ConsumerMayReceive(take: bool)
      modifies this
      ensures Now() == Receive(old(Now()), take)
    {
      if take && updates.Some? {
        received := received + [updates.value];
        updates := None;
      }
    }

    method Collect(sample: Sample<D>, t: Takes)
      modifies this
      ensures Now() == CollectSpec(old(Now()), sample, t)
    {
      match sample {
        case Failure(error, cancelled) =>
          if cancelled {
            return;
          }
          state := MonitorState(Degraded, state.lastSuccess, error, (state.failures + 1) % TWO_32);
        case Success(at, data) =>
          var next := Snapshot((snapshot.revision + 1) % TWO_64, at, data);
          snapshot := next;
          state := MonitorState(Running, next.collectedAt, "", 0);
      }
      Publish(Update(state, snapshot), t);
    }

    method Publish(update: Update<D>, t: Takes)
      modifies this
      ensures Now() == PublishSpec(old(Now()), update, t)
    {
      published := published + [update];
      ConsumerMayReceive(t.beforeSend);
      if updates.None? {
        updates := Some(update);
        return;
      }
      ConsumerMayReceive(t.beforeDrain);
      if updates.Some? {
        updates := None;
      }
      ConsumerMayReceive(t.beforeResend);
      if updates.None? {
        updates := Some(update);
      }
    }
  }

  // ---------------------------------------------------------------------------
  // What the consumer sees
  // ---------------------------------------------------------------------------

  function Buffered<D>(w: World<D>): seq<Update<D>> {
    if w.channel.Some? then [w.channel.value] else []
  }

  /** Everything received so far and what is waiting. */
  function Seen<D>(w: World<D>): seq<Update<D>> { w.received + Buffered(w) }

  /** a is b with some elements left out. */
  ghost predicate Subsequence<T>(a: seq<T>, b: seq<T>)
    decreases |b|
  {
    if a == [] then true
    else if b == [] then false
    else
      var m, n := |a| - 1, |b| - 1;
      (a[m] == b[n] && Subsequence(a[..m], b[..n])) || Subsequence(a, b[..n])
  }

  lemma {:induction false} DropLast<T>(a: seq<T>, b: seq<T>)
    requires a != [] && Subsequence(a, b)
    ensures Subsequence(a[..|a| - 1], b)
    decreases |b|
  {
    var m, n := |a| - 1, |b| - 1;
    if a[m] == b[n] && Subsequence(a[..m], b[..n]) {
      assert Subsequence(a[..m], b);
    } else {
      DropLast(a, b[..n]);
    }
  }

  lemma AddBoth<T>(a: seq<T>, b: seq<T>, x: T)
    requires Subsequence(a, b)
    ensures Subsequence(a + [x], b + [x])
  {
    assert (a + [x])[..|a|] == a && (b + [x])[..|b|] == b;
  }

  ghost predicate LatestIsSeen<D>(w: World<D>) {
    && Subsequence(Seen(w), w.published)
    && (w.published != [] ==>
          Seen(w) != [] && Seen(w)[|Seen(w)| - 1] == w.published[|w.published| - 1])
  }

  lemma ReceiveKeepsSeen<D>(w: World<D>, take: bool)
    ensures Seen(Receive(w, take)) == Seen(w) && Receive(w, take).published == w.published
  {
  }

  /** Publishing leaves what was received or waiting, without at most one stale
      update, and puts the new one last: the second send always succeeds. */
  lemma PublishAddsLast<D>(w: World<D>, u: Update<D>, t: Takes)
    ensures var after := PublishSpec(w, u, t);
      && after.published == w.published + [u] && after.channel == Some(u)
      && after.state == w.state && after.snapshot == w.snapshot
      && (Seen(after) == Seen(w) + [u] || (Seen(w) != [] && Seen(after) == Seen(w)[..|Seen(w)| - 1] + [u]))
  {
    var started := w.(published := w.published + [u]);
    var first := Receive(started, t.beforeSend);
    ReceiveKeepsSeen(started, t.beforeSend);
    assert Seen(started) == Seen(w);
    if first.channel.Some? {
      var second := Receive(first, t.beforeDrain);
      ReceiveKeepsSeen(first, t.beforeDrain);
      if second.channel.Some? {
        assert Seen(second)[..|Seen(second)| - 1] == second.received;
      } else {
        assert Seen(second) == second.received;
      }
    } else {
      assert Seen(first) == first.received;
    }
  }

  lemma PublishKeepsLatest<D>(w: World<D>, u: Update<D>, t: Takes)
    requires LatestIsSeen(w)
    ensures LatestIsSeen(PublishSpec(w, u, t))
  {
    PublishAddsLast(w, u, t);
    AddBoth(Seen(w), w.published, u);
    if Seen(w) != [] {
      DropLast(Seen(w), w.published);
      AddBoth(Seen(w)[..|Seen(w)| - 1], w.published, u);
    }
  }

  predicate Initial<D>(w: World<D>) {
    w.published == [] && w.received == [] && w.channel == None && w.snapshot.revision == 0 && w.state.failures == 0
  }

  /** In every run the received updates are published ones in their order, and
      the last published update has been received or is waiting. */
  lemma {:induction false} LatestIsNeverLost<D>(w: World<D>, events: seq<Event<D>>)
    requires Initial(w)
    ensures LatestIsSeen(Run(w, events))
    ensures Subsequence(Run(w, events).received, Run(w, events).published)
  {
    if events != [] {
      LatestIsNeverLost(w, events[..|events| - 1]);
      StepKeepsLatest(Run(w, events[..|events| - 1]), events[|events| - 1]);
    }
    ReceivedIsSubsequence(Run(w, events));
  }

  lemma StepKeepsLatest<D>(w: World<D>, e: Event<D>)
    requires LatestIsSeen(w)
    ensures LatestIsSeen(Step(w, e))
  {
    match e
    case Consume => ReceiveKeepsSeen(w, true);
    case Tick(sample, takes) =>
      if !Ignored(sample) {
        var next := Recorded(w, sample);
        assert Seen(next) == Seen(w) && LatestIsSeen(next);
        PublishKeepsLatest(next, Update(next.state, next.snapshot), takes);
      }
  }

  lemma ReceivedIsSubsequence<D>(w: World<D>)
    requires LatestIsSeen(w)
    ensures Subsequence(w.received, w.published)
  {
    if w.channel.Some? {
      DropLast(Seen(w), w.published);
      assert Seen(w)[..|Seen(w)| - 1] == w.received;
    } else {
      assert Seen(w) == w.received;
    }
  }

  // ---------------------------------------------------------------------------
  // What the updates say
  // ---------------------------------------------------------------------------

  /** The samples that call for an update: the successful ones, and those that
      failed while the context was alive. */
  function Samples<D>(events: seq<Event<D>>): seq<Sample<D>> {
    if events == [] then []
    else
      Samples(events[..|events| - 1]) +
      match events[|events| - 1]
      case Tick(Success(at, data), _) => [Success(at, data)]
      case Tick(Failure(error, false), _) => [Failure(error, false)]
      case _ => []
  }

  function Successes<D>(samples: seq<Sample<D>>): nat {
    if samples == [] then 0
    else Successes(samples[..|samples| - 1]) + if samples[|samples| - 1].Success? then 1 else 0
  }

  function TrailingFailures<D>(samples: seq<Sample<D>>): nat {
    if samples == [] || samples[|samples| - 1].Success? then 0
    else TrailingFailures(samples[..|samples| - 1]) + 1
  }

  /** The last successful sample. */
  function LastSuccess<D>(samples: seq<Sample<D>>): Option<Sample<D>> {
    if samples == [] then None
    else if samples[|samples| - 1].Success? then Some(samples[|samples| - 1])
    else LastSuccess(samples[..|samples| - 1])
  }

  /** The update that a history of samples calls for; initial is the snapshot of
      a session without successes. */
  ghost predicate Describes<D>(u: Update<D>, samples: seq<Sample<D>>, initial: Snapshot<D>) {
    && u.snapshot.revision == Successes(samples) % TWO_64
    && u.state.failures == TrailingFailures(samples) % TWO_32
    && (match LastSuccess(samples)
        case Some(Success(at, data)) =>
          u.snapshot.collectedAt == at && u.snapshot.data == data && u.state.lastSuccess == at
        case _ => u.snapshot.collectedAt == initial.collectedAt && u.snapshot.data == initial.data)
    && (samples != [] ==>
          match samples[|samples| - 1]
          case Success(_, _) => u.state.phase == Running && u.state.lastError == ""
          case Failure(error, _) => u.state.phase == Degraded && u.state.lastError == error)
  }

  /** published[i] describes the first i + 1 samples. */
  ghost predicate Faithful<D>(w: World<D>, samples: seq<Sample<D>>, initial: Snapshot<D>) {
    && Describes(Update(w.state, w.snapshot), samples, initial)
    && |w.published| == |samples|
    && forall i :: 0 <= i < |samples| ==> Describes(w.published[i], samples[..i + 1], initial)
  }

  lemma RecordedDescribes<D>(w: World<D>, samples: seq<Sample<D>>, sample: Sample<D>, initial: Snapshot<D>)
    requires Describes(Update(w.state, w.snapshot), samples, initial)
    ensures Describes(Update(Recorded(w, sample).state, Recorded(w, sample).snapshot), samples + [sample], initial)
  {
    var more := samples + [sample];
    assert more[..|samples|] == samples;
  }

  lemma PublishFaithfully<D>(w: World<D>, samples: seq<Sample<D>>, sample: Sample<D>, t: Takes, initial: Snapshot<D>)
    requires Faithful(w, samples, initial) && !Ignored(sample)
    ensures Faithful(CollectSpec(w, sample, t), samples + [sample], initial)
  {
    var next, more := Recorded(w, sample), samples + [sample];
    RecordedDescribes(w, samples, sample, initial);
    PublishAddsLast(next, Update(next.state, next.snapshot), t);
    var after := CollectSpec(w, sample, t);
    forall i | 0 <= i < |more| ensures Describes(after.published[i], more[..i + 1], initial) {
      if i < |samples| {
        assert more[..i + 1] == samples[..i + 1];
      } else {
        assert more[..i + 1] == more;
      }
    }
  }

  /** In every run the revision counts the successful samples, failed samples
      keep data and time of the last success, and each published update says so,
      with the phase, the failures in a row and the error of its own sample. */
  lemma {:induction false} UpdatesAreFaithful<D>(w: World<D>, events: seq<Event<D>>)
    requires Initial(w)
    ensures Faithful(Run(w, events), Samples(events), w.snapshot)
  {
    if events != [] {
      var init, e := events[..|events| - 1], events[|events| - 1];
      var so, samples := Run(w, init), Samples(init);
      UpdatesAreFaithful(w, init);
      if e.Tick? && !Ignored(e.sample) {
        PublishFaithfully(so, samples, e.sample, e.takes, w.snapshot);
      } else {
        assert Samples(events) == samples;
      }
    }
  }

  /** A failed sample is published at once unless the context has ended, with its
      error, the old data and one failure more; then nothing happens at all. */
  lemma FailureIsPublished<D>(w: World<D>, error: string, cancelled: bool, t: Takes)
    ensures var after := CollectSpec(w, Failure(error, cancelled), t);
      var state := MonitorState(Degraded, w.state.lastSuccess, error, (w.state.failures + 1) % 4294967296);
      if cancelled then after == w
      else
        && after.state == state && after.snapshot == w.snapshot
        && after.published == w.published + [Update(state, w.snapshot)]
        && after.channel == Some(Update(state, w.snapshot))
  {
    if !cancelled {
      var next := Recorded(w, Failure(error, cancelled));
      PublishAddsLast(next, Update(next.state, next.snapshot), t);
    }
  }

  /** A successful one is published with the next revision, and clears error and
      failures. */
  lemma SuccessIsPublished<D>(w: World<D>, at: int, data: D, t: Takes)
    ensures var after := CollectSpec(w, Success(at, data), t);
      var update := Update(MonitorState(Running, at, "", 0),
                           Snapshot((w.snapshot.revision + 1) % 18446744073709551616, at, data));
      && after.state == update.state && after.snapshot == update.snapshot
      && after.published == w.published + [update] && after.channel == Some(update)
  {
    var next := Recorded(w, Success(at, data));
    PublishAddsLast(next, Update(next.state, next.snapshot), t);
  }

  /** The ticks with a success or a failure under a living context. */
  function Calling<D>(events: seq<Event<D>>): set<int> {
    set i | 0 <= i < |events| && events[i].Tick? && (events[i].sample.Success? || !events[i].sample.cancelled)
  }

  lemma {:induction false} OneUpdateEach<D>(w: World<D>, events: seq<Event<D>>)
    requires Initial(w)
    ensures |Run(w, events).published| == |Calling(events)|
  {
    UpdatesAreFaithful(w, events);
    if events == [] {
      assert Calling(events) == {};
    } else {
      var n := |events| - 1;
      OneUpdateEach(w, events[..n]);
      UpdatesAreFaithful(w, events[..n]);
      assert Calling(events) - {n} == Calling(events[..n]);
      assert n in Calling(events) ==> Calling(events) == Calling(events[..n]) + {n};
    }
  }
}
