/**
 async/async.go: Map and MapWithKeys. One goroutine per operation sends its result
 on a channel with room for all of them; a collector receives until it has all of
 them, or until the context is cancelled. Modelled as interleaved atomic steps.
 What an operation returns is fixed per worker, and unknown.
 */
module FanOut {
  import opened Collections

  datatype Phase = Running | Ready | Finished

  datatype Collector = Collecting | Returned | Cancelled

  // `sent` is history: the workers in the order of their sends.
  datatype State<W(==), M> = State(
    phase: map<W, Phase>,
    channel: seq<M>,
    collected: seq<M>,
    cancelled: bool,
    collector: Collector,
    sent: seq<W>)

  function Init<W(!new), M>(message: map<W, M>): State<W, M> {
    State(map w | w in message :: Running, [], [], false, Collecting, [])
  }

  datatype Event<W> =
    | OperationReturns(w: W)
    | Send(w: W)
    | Receive
    | Cancel
    | ReturnError
    | ReturnAll

  ghost predicate Enabled<W(!new), M>(message: map<W, M>, s: State<W, M>, e: Event<W>) {
    match e
    case OperationReturns(w) => w in s.phase && s.phase[w] == Running
    case Send(w) => w in s.phase && s.phase[w] == Ready && w in message && |s.channel| < |message|
    case Receive => s.collector == Collecting && |s.collected| < |message| && s.channel != []
    case Cancel => !s.cancelled
    case ReturnError => s.collector == Collecting && |s.collected| < |message| && s.cancelled
    case ReturnAll => s.collector == Collecting && |s.collected| == |message|
  }

  ghost function Step<W(!new), M>(message: map<W, M>, s: State<W, M>, e: Event<W>): State<W, M>
    requires Enabled(message, s, e)
  {
    match e
    case OperationReturns(w) => s.(phase := s.phase[w := Ready])
    case Send(w) => s.(phase := s.phase[w := Finished], channel := s.channel + [message[w]], sent := s.sent + [w])
    case Receive => s.(channel := s.channel[1..], collected := s.collected + [s.channel[0]])
    case Cancel => s.(cancelled := true)
    case ReturnError => s.(collector := Cancelled)
    case ReturnAll => s.(collector := Returned)
  }

  // A run is a list of events, each enabled in the state before it.
  ghost predicate IsRun<W(!new), M>(message: map<W, M>, events: seq<Event<W>>)
    decreases |events|, 0
  {
    events == []
    || (IsRun(message, events[..|events| - 1])
        && Enabled(message, After(message, events[..|events| - 1]), events[|events| - 1]))
  }

  ghost function After<W(!new), M>(message: map<W, M>, events: seq<Event<W>>): State<W, M>
    requires IsRun(message, events)
    decreases |events|, 1
  {
    if events == [] then Init(message)
    else Step(message, After(message, events[..|events| - 1]), events[|events| - 1])
  }

  // ---------------------------------------------------------------- the invariant

  ghost function Messages<W(!new), M>(message: map<W, M>, workers: seq<W>): seq<M>
    requires forall w :: w in workers ==> w in message
  {
    seq(|workers|, i requires 0 <= i < |workers| => assert workers[i] in workers; message[workers[i]])
  }

  // The channel is a queue: what was received, then what waits, is what was sent.
  ghost predicate Inv<W(!new), M>(message: map<W, M>, s: State<W, M>) {
    && s.phase.Keys == message.Keys
    && NoDuplicates(s.sent)
    && (forall w :: w in s.sent <==> w in s.phase && s.phase[w] == Finished)
    && s.collected + s.channel == Messages(message, s.sent)
    && |s.collected| <= |message|
    && (s.collector == Returned ==> |s.collected| == |message|)
  }

  lemma StepKeepsInv<W(!new), M>(message: map<W, M>, s: State<W, M>, e: Event<W>)
    requires Inv(message, s) && Enabled(message, s, e)
    ensures Inv(message, Step(message, s, e))
  {
    match e
    case Send(w) => SendKeepsInv(message, s, w);
    case Receive =>
      assert s.collected + [s.channel[0]] + s.channel[1..] == s.collected + s.channel;
    case _ =>
  }

  lemma SendKeepsInv<W(!new), M>(message: map<W, M>, s: State<W, M>, w: W)
    requires Inv(message, s) && Enabled(message, s, Send(w))
    ensures Inv(message, Step(message, s, Send(w)))
  {
    var s' := Step(message, s, Send(w));
    assert forall v :: v in s'.sent <==> v in s.sent || v == w;
    assert Messages(message, s'.sent) == Messages(message, s.sent) + [message[w]];
    assert s'.collected + s'.channel == s.collected + s.channel + [message[w]];
  }

  lemma {:induction false} EveryRunKeepsInv<W(!new), M>(message: map<W, M>, events: seq<Event<W>>)
    requires IsRun(message, events)
    ensures Inv(message, After(message, events))
    decreases |events|
  {
    if events != [] {
      EveryRunKeepsInv(message, events[..|events| - 1]);
      StepKeepsInv(message, After(message, events[..|events| - 1]), events[|events| - 1]);
    } else {
      assert Messages(message, []) == [];
    }
  }

  // ---------------------------------------------------------------- no send blocks

  lemma {:induction false} DistinctBound<T>(s: seq<T>, all: set<T>)
    requires NoDuplicates(s) && forall x :: x in s ==> x in all
    ensures |s| <= |all|
    ensures |s| == |all| ==> forall x :: x in all ==> x in s
  {
    if s != [] {
      var last := s[|s| - 1];
      assert last in s;
      DistinctBound(s[..|s| - 1], all - {last});
      assert forall x :: x in s <==> x in s[..|s| - 1] || x == last;
    }
  }

  lemma Occupancy<W(!new), M>(message: map<W, M>, events: seq<Event<W>>)
    requires IsRun(message, events)
    ensures Inv(message, After(message, events))
    ensures var s := After(message, events); |s.collected| + |s.channel| == |s.sent| <= |message|
  {
    var s := After(message, events);
    EveryRunKeepsInv(message, events);
    DistinctBound(s.sent, message.Keys);
    assert |s.collected + s.channel| == |s.sent|;
  }

  // In every interleaving, cancelled or not, a worker that wants to send can.
  lemma NoSendBlocks<W(!new), M>(message: map<W, M>, events: seq<Event<W>>, w: W)
    requires IsRun(message, events)
    requires var s := After(message, events); w in s.phase && s.phase[w] == Ready
    ensures Enabled(message, After(message, events), Send(w))
  {
    var s := After(message, events);
    Occupancy(message, events);
    DistinctBound(s.sent, message.Keys - {w});
  }

  // ---------------------------------------------------------------- what a completed run returns

  // Without an error the result is one message of each worker: a permutation.
  lemma CompletedRunReturnsEverything<W(!new), M>(message: map<W, M>, events: seq<Event<W>>)
    requires IsRun(message, events) && After(message, events).collector == Returned
    ensures var s := After(message, events);
            && Enumerates(s.sent, message)
            && s.collected == Messages(message, s.sent)
            && s.channel == []
    ensures forall workers :: Enumerates(workers, message) ==>
              multiset(After(message, events).collected) == multiset(Messages(message, workers))
  {
    var s := After(message, events);
    EveryRunKeepsInv(message, events);
    assert |s.collected + s.channel| == |s.sent|;
    DistinctBound(s.sent, message.Keys);
    assert s.channel == [];
    assert s.collected + [] == s.collected;
    forall workers | Enumerates(workers, message)
      ensures multiset(s.collected) == multiset(Messages(message, workers))
    {
      SameBag(message, s.sent, workers);
    }
  }

  lemma {:induction false} SameBag<W(!new), M>(message: map<W, M>, a: seq<W>, b: seq<W>)
    requires NoDuplicates(a) && NoDuplicates(b)
    requires forall w :: w in a <==> w in b
    requires forall w :: w in a ==> w in message
    ensures multiset(Messages(message, a)) == multiset(Messages(message, b))
    decreases |a|
  {
    if a == [] {
      DistinctBound(b, {});
    } else {
      var w := a[0];
      assert w in a;
      var k :| 0 <= k < |b| && b[k] == w;
      var a', b' := a[1..], b[..k] + b[k + 1..];
      forall v
        ensures v in a' <==> v in b'
      {
        assert v in a' <==> v in a && v != w;
        assert v in b' <==> v in b && v != w;
      }
      SameBag(message, a', b');
      assert Messages(message, a) == [message[w]] + Messages(message, a');
      MessagesWithout(message, b, k);
    }
  }

  lemma MessagesWithout<W(!new), M>(message: map<W, M>, b: seq<W>, k: nat)
    requires k < |b| && forall w :: w in b ==> w in message
    ensures forall w :: w in b[..k] + b[k + 1..] ==> w in message
    ensures b[k] in message
    ensures multiset(Messages(message, b)) ==
            multiset{message[b[k]]} + multiset(Messages(message, b[..k] + b[k + 1..]))
  {
    assert b[k] in b;
    var front, back := Messages(message, b[..k]), Messages(message, b[k + 1..]);
    assert Messages(message, b) == front + [message[b[k]]] + back;
    assert Messages(message, b[..k] + b[k + 1..]) == front + back;
  }

  // ---------------------------------------------------------------- what cancelling does

  lemma OneMore<W(!new), M>(message: map<W, M>, events: seq<Event<W>>, e: Event<W>)
    requires IsRun(message, events) && Enabled(message, After(message, events), e)
    ensures IsRun(message, events + [e])
    ensures After(message, events + [e]) == Step(message, After(message, events), e)
  {
    var more := events + [e];
    assert more[..|more| - 1] == events && more[|more| - 1] == e;
  }

  // The collector returns an error only if the context was cancelled, and only
  // while results were missing.
  lemma {:induction false} ErrorMeansCancelled<W(!new), M>(message: map<W, M>, events: seq<Event<W>>)
    requires IsRun(message, events)
    ensures After(message, events).cancelled <==> Cancel in events
    ensures After(message, events).collector == Cancelled ==>
              Cancel in events && |After(message, events).collected| < |message|
    decreases |events|
  {
    if events != [] {
      var before, last := events[..|events| - 1], events[|events| - 1];
      ErrorMeansCancelled(message, before);
      assert events == before + [last];
    }
  }

  // Without a Cancel a run that cannot go on has returned all results.
  lemma UncancelledRunReturns<W(!new), M>(message: map<W, M>, events: seq<Event<W>>)
    requires IsRun(message, events) && Cancel !in events
    requires forall e :: e != Cancel ==> !IsRun(message, events + [e])
    ensures After(message, events).collector == Returned
    ensures Enumerates(After(message, events).sent, message)
    ensures After(message, events).collected == Messages(message, After(message, events).sent)
  {
    ErrorMeansCancelled(message, events);
    if After(message, events).collector == Collecting {
      NoDeadlock(message, events);
      var e :| e != Cancel && Enabled(message, After(message, events), e);
      OneMore(message, events, e);
      assert false;
    }
    CompletedRunReturnsEverything(message, events);
  }

  // The context can be cancelled at any time, once.
  lemma CancelIsPossible<W(!new), M>(message: map<W, M>, events: seq<Event<W>>)
    requires IsRun(message, events) && Cancel !in events
    ensures IsRun(message, events + [Cancel])
  {
    ErrorMeansCancelled(message, events);
    OneMore(message, events, Cancel);
  }

  // After that, a collector still short of results may return the error at once;
  // or it may go on receiving, as before.
  lemma CancelledMayReturnError<W(!new), M>(message: map<W, M>, events: seq<Event<W>>)
    requires IsRun(message, events) && After(message, events).collector == Collecting
    requires Cancel in events && |After(message, events).collected| < |message|
    ensures IsRun(message, events + [ReturnError])
    ensures After(message, events + [ReturnError]).collector == Cancelled
  {
    ErrorMeansCancelled(message, events);
    OneMore(message, events, ReturnError);
  }

  lemma WaitingIsReceived<W(!new), M>(message: map<W, M>, events: seq<Event<W>>)
    requires IsRun(message, events)
    requires After(message, events).collector == Collecting && After(message, events).channel != []
    ensures IsRun(message, events + [Receive])
    ensures var s := After(message, events);
            After(message, events + [Receive]).collected == s.collected + [s.channel[0]]
  {
    Occupancy(message, events);
    OneMore(message, events, Receive);
  }

  // No goroutine is left behind, whatever the collector has done: from every point
  // of every run the workers can all finish on their own.
  lemma {:induction false} WorkersFinish<W(!new), M>(message: map<W, M>, events: seq<Event<W>>)
    returns (more: seq<Event<W>>)
    requires IsRun(message, events)
    ensures forall e :: e in more ==> e.OperationReturns? || e.Send?
    ensures IsRun(message, events + more)
    ensures forall w :: w in message ==> w in After(message, events + more).sent
    decreases Remaining(message, After(message, events))
  {
    var s := After(message, events);
    EveryRunKeepsInv(message, events);
    RunsAreShort(message, events);
    if w :| w in s.phase && s.phase[w] != Finished {
      var e := OneWorkerGoesOn(message, events, w);
      hide *;
      var rest := WorkersFinish(message, events + [e]);
      more := [e] + rest;
      Regroup(events, [e], rest);
    } else {
      more := [];
      assert events + more == events;
    }
  }

  lemma OneWorkerGoesOn<W(!new), M>(message: map<W, M>, events: seq<Event<W>>, w: W) returns (e: Event<W>)
    requires IsRun(message, events)
    requires var s := After(message, events); w in s.phase && s.phase[w] != Finished
    ensures e.OperationReturns? || e.Send?
    ensures IsRun(message, events + [e])
    ensures 0 <= Remaining(message, After(message, events + [e])) < Remaining(message, After(message, events))
  {
    var s := After(message, events);
    e := if s.phase[w] == Running then OperationReturns(w) else Send(w);
    if s.phase[w] == Ready {
      NoSendBlocks(message, events, w);
    }
    OneMore(message, events, e);
    StepUsesOne(message, s, e);
    RemainingIsPositive(message, events, e);
  }

  lemma RemainingIsPositive<W(!new), M>(message: map<W, M>, events: seq<Event<W>>, e: Event<W>)
    requires IsRun(message, events + [e])
    ensures Remaining(message, After(message, events + [e])) >= 0
  {
    EveryRunKeepsInv(message, events + [e]);
  }

  // ---------------------------------------------------------------- progress and length of a run

  // Unless the collector is done, some step other than cancelling can be taken.
  lemma NoDeadlock<W(!new), M>(message: map<W, M>, events: seq<Event<W>>)
    requires IsRun(message, events) && After(message, events).collector == Collecting
    ensures exists e :: e != Cancel && Enabled(message, After(message, events), e)
  {
    var s := After(message, events);
    Occupancy(message, events);
    if |s.collected| == |message| {
      assert Enabled(message, s, ReturnAll);
    } else if s.channel != [] {
      assert Enabled(message, s, Receive);
    } else if w :| w in s.phase && s.phase[w] == Running {
      assert Enabled(message, s, OperationReturns(w));
    } else if w :| w in s.phase && s.phase[w] == Ready {
      NoSendBlocks(message, events, w);
    } else {
      SubsetBound(message.Keys, s.sent);
      assert false;
    }
  }

  lemma {:induction false} SubsetBound<T>(all: set<T>, s: seq<T>)
    requires forall x :: x in all ==> x in s
    ensures |all| <= |s|
    decreases |s|
  {
    if s == [] {
      assert all == {};
    } else {
      SubsetBound(all - {s[0]}, s[1..]);
    }
  }

  ghost function InPhase<W(!new)>(phase: map<W, Phase>, p: Phase): set<W> {
    set w | w in phase && phase[w] == p
  }

  // Steps still possible.
  ghost function Remaining<W(!new), M>(message: map<W, M>, s: State<W, M>): int {
    2 * |InPhase(s.phase, Running)| + |InPhase(s.phase, Ready)| + (|message| - |s.collected|)
    + (if s.collector == Collecting then 1 else 0) + (if s.cancelled then 0 else 1)
  }

  lemma StepUsesOne<W(!new), M>(message: map<W, M>, s: State<W, M>, e: Event<W>)
    requires Enabled(message, s, e)
    ensures Remaining(message, Step(message, s, e)) == Remaining(message, s) - 1
  {
    hide InPhase;
    if e.OperationReturns? || e.Send? {
      var next := if e.Send? then Finished else Ready;
      PhaseChanges(s.phase, e.w, next, Running);
      PhaseChanges(s.phase, e.w, next, Ready);
    }
  }

  lemma PhaseChanges<W(!new)>(phase: map<W, Phase>, w: W, next: Phase, p: Phase)
    requires w in phase && phase[w] != next
    ensures |InPhase(phase[w := next], p)| ==
            |InPhase(phase, p)| + (if next == p then 1 else 0) - (if phase[w] == p then 1 else 0)
  {
    if next == p {
      assert InPhase(phase[w := next], p) == InPhase(phase, p) + {w};
    } else {
      assert InPhase(phase[w := next], p) == InPhase(phase, p) - {w};
    }
  }

  // Every run ends: with n operations it has at most 3n + 2 steps.
  lemma {:induction false} RunsAreShort<W(!new), M>(message: map<W, M>, events: seq<Event<W>>)
    requires IsRun(message, events)
    ensures |events| + Remaining(message, After(message, events)) == 3 * |message| + 2
    ensures |events| <= 3 * |message| + 2
    decreases |events|
  {
    if events == [] {
      var s := Init(message);
      assert InPhase(s.phase, Running) == message.Keys;
      assert InPhase(s.phase, Ready) == {};
    } else {
      RunsAreShort(message, events[..|events| - 1]);
      StepUsesOne(message, After(message, events[..|events| - 1]), events[|events| - 1]);
    }
    EveryRunKeepsInv(message, events);
  }
}
