/** The coalescing signal queue of a file: signals queue up as bits and are emitted in order of their number,
    while the handlers that run in between may queue and emit again (src/tdlib/tdlibfile.cpp:108-140). */
module FileSignals {

  const SIGNAL_COUNT: nat := 20

  type Signal = s: nat | s < SIGNAL_COUNT

  datatype Entry = Queued(signal: Signal) | Emitted(signal: Signal)

  /** What the handlers of one round of emissions do: the k-th emission of the round is answered by `replies[k]`
      (emissions beyond the list by nothing). A handler queues signals and ends by emitting, any number of times;
      each of those emissions is a round of its own. Rounds are finite trees. */
  datatype Round = Round(replies: seq<Handler>)
  datatype Handler = Handler(phases: seq<Phase>)
  datatype Phase = Phase(queued: seq<Signal>, round: Round)

  /** The signals whose last queueing has no emission after it. */
  ghost function Pending(log: seq<Entry>): set<Signal>
  {
    if log == [] then {}
    else
      var before := Pending(log[..|log| - 1]);
      var last := log[|log| - 1];
      if last.Queued? then before + {last.signal} else before - {last.signal}
  }

  lemma {:induction false} PendingNext(log: seq<Entry>, e: Entry)
    ensures Pending(log + [e]) == if e.Queued? then Pending(log) + {e.signal} else Pending(log) - {e.signal}
  {
    assert (log + [e])[..|log|] == log;
  }

  /** No emission comes out of nothing: its signal was pending, that is, queued since its last emission. */
  ghost predicate Coalesced(log: seq<Entry>) {
    log == [] ||
    (var before, last := log[..|log| - 1], log[|log| - 1];
     Coalesced(before) && (last.Emitted? ==> last.signal in Pending(before)))
  }

  lemma {:induction false} CoalescedNext(log: seq<Entry>, e: Entry)
    requires Coalesced(log) && (e.Emitted? ==> e.signal in Pending(log))
    ensures Coalesced(log + [e])
  {
    assert (log + [e])[..|log|] == log;
  }

  lemma {:induction false} PendingWasQueued(log: seq<Entry>, s: Signal)
    requires s in Pending(log)
    ensures exists j :: 0 <= j < |log| && log[j] == Queued(s) && forall k :: j < k < |log| ==> log[k] != Emitted(s)
  {
    var last := |log| - 1;
    if log[last] != Queued(s) {
      PendingWasQueued(log[..last], s);
      var j :| 0 <= j < last && log[..last][j] == Queued(s)
               && forall k :: j < k < last ==> log[..last][k] != Emitted(s);
      assert log[j] == Queued(s);
      assert forall k :: j < k < last ==> log[k] == log[..last][k];
    }
  }

  /** Every emission answers a queueing of its signal that no earlier emission has answered. */
  lemma {:induction false} NothingSpurious(log: seq<Entry>, i: nat)
    requires Coalesced(log) && i < |log| && log[i].Emitted?
    ensures exists j :: 0 <= j < i && log[j] == Queued(log[i].signal) && forall k :: j < k < i ==> log[k] != log[i]
  {
    var last := |log| - 1;
    var before := log[..last];
    if i == last {
      PendingWasQueued(before, log[i].signal);
      var j :| 0 <= j < last && before[j] == Queued(log[i].signal)
               && forall k :: j < k < last ==> before[k] != Emitted(log[i].signal);
      assert log[j] == Queued(log[i].signal);
      assert forall k :: j < k < last ==> log[k] == before[k];
    } else {
      NothingSpurious(before, i);
      var j :| 0 <= j < i && before[j] == Queued(log[i].signal) && forall k :: j < k < i ==> before[k] != before[i];
      assert log[j] == Queued(log[i].signal);
      assert forall k :: j < k < i ==> log[k] == before[k];
    }
  }

  /** Nothing pending means that every queueing was followed by an emission of the same signal. */
  lemma {:induction false} NothingLost(log: seq<Entry>, i: nat)
    requires i < |log| && log[i].Queued? && log[i].signal !in Pending(log)
    ensures exists j :: i < j < |log| && log[j] == Emitted(log[i].signal)
  {
    var last := |log| - 1;
    if log[last] == Emitted(log[i].signal) {
    } else {
      assert i < last;
      NothingLost(log[..last], i);
      var j :| i < j < last && log[..last][j] == Emitted(log[i].signal);
      assert log[j] == Emitted(log[i].signal);
    }
  }

  /** The emissions of a set of signals in ascending order, from `from` on. */
  function InOrder(signals: set<Signal>, from: nat): seq<Entry>
    decreases SIGNAL_COUNT - from
  {
    if from >= SIGNAL_COUNT then []
    else (if from in signals then [Emitted(from)] else []) + InOrder(signals, from + 1)
  }

  lemma {:induction false} InOrderFacts(signals: set<Signal>, from: nat)
    ensures forall i, j :: 0 <= i < j < |InOrder(signals, from)| ==>
              InOrder(signals, from)[i].signal < InOrder(signals, from)[j].signal
    ensures forall k :: 0 <= k < |InOrder(signals, from)| ==>
              var e := InOrder(signals, from)[k]; e.Emitted? && e.signal in signals && from <= e.signal
    ensures forall s: Signal :: s in signals && from <= s ==> Emitted(s) in InOrder(signals, from)
    decreases SIGNAL_COUNT - from
  {
    if from >= SIGNAL_COUNT {
    } else {
      InOrderFacts(signals, from + 1);
    }
  }

  /** In a round over the signals `before` that has come to signal `i`, what is still queued was so before it began. */
  ghost predicate Left(queued: set<Signal>, before: set<Signal>, first: nat, i: nat) {
    forall s :: s in queued ==> s in before && (s < first || i <= s)
  }

  /** In a round nobody reacts to, the signals from `i` on are still to come. */
  ghost predicate Silent(log: seq<Entry>, start: seq<Entry>, queued: set<Signal>, before: set<Signal>, first: nat,
        i: nat) {
    && (forall s :: s in before && i <= s ==> s in queued)
    && log + InOrder(before, i) == start + InOrder(before, first)
  }

  lemma {:induction false} SilentStep(log: seq<Entry>, start: seq<Entry>, queued: set<Signal>, before: set<Signal>,
        first: nat, i: nat)
    requires first <= i < SIGNAL_COUNT
    requires Silent(log, start, queued, before, first, i) && Left(queued, before, first, i)
    ensures i in queued ==> Silent(log + [Emitted(i)], start, queued - {i}, before, first, i + 1)
    ensures i !in queued ==> Silent(log, start, queued, before, first, i + 1)
  {
    var tail := InOrder(before, i + 1);
    if i in queued {
      assert InOrder(before, i) == [Emitted(i)] + tail;
      assert (log + [Emitted(i)]) + tail == log + ([Emitted(i)] + tail);
    } else {
      assert InOrder(before, i) == [] + tail;
    }
  }

  // What a tree of rounds and handlers writes into the log

  function AllQueued(signals: seq<Signal>): (r: seq<Entry>)
    ensures |r| == |signals| && forall k :: 0 <= k < |signals| ==> r[k] == Queued(signals[k])
  {
    seq(|signals|, k requires 0 <= k < |signals| => Queued(signals[k]))
  }

  /** `n` emissions of a round, ascending and all below `i`, each followed by what its handler does. */
  ghost predicate RoundTrace(round: Round, t: seq<Entry>, n: nat, i: nat)
    decreases round, n, 0
  {
    if n == 0 then t == []
    else exists k :: 0 <= k < |t| && EndsInEmission(round, t, n, i, k)
  }

  /** The last of the emissions is at place `k` of the trace. */
  ghost predicate EndsInEmission(round: Round, t: seq<Entry>, n: nat, i: nat, k: nat)
    requires n > 0 && k < |t|
    decreases round, n - 1, 1
  {
    && t[k].Emitted? && t[k].signal < i && RoundTrace(round, t[..k], n - 1, t[k].signal)
    && if n <= |round.replies| then HandlerTrace(round.replies[n - 1], t[k + 1..], |round.replies[n - 1].phases|)
       else t[k + 1..] == []
  }

  /** The first `n` phases of a handler: it queues its signals, and a round follows. */
  ghost predicate HandlerTrace(handler: Handler, t: seq<Entry>, n: nat)
    requires n <= |handler.phases|
    decreases handler, n, 0
  {
    if n == 0 then t == []
    else exists k, m: nat :: 0 <= k <= |t| && EndsInPhase(handler, t, n, k, m)
  }

  /** The last of the phases begins at place `k` of the trace, and its round has `m` emissions. */
  ghost predicate EndsInPhase(handler: Handler, t: seq<Entry>, n: nat, k: nat, m: nat)
    requires 0 < n <= |handler.phases| && k <= |t|
    decreases handler, n - 1, 1
  {
    var phase := handler.phases[n - 1];
    && HandlerTrace(handler, t[..k], n - 1) && AllQueued(phase.queued) <= t[k..]
    && RoundTrace(phase.round, t[k + |phase.queued|..], m, SIGNAL_COUNT)
  }

  /** A whole round. */
  ghost predicate Traced(round: Round, t: seq<Entry>)
  {
    exists n: nat :: RoundTrace(round, t, n, SIGNAL_COUNT)
  }

  /** What the handler of emission number n does. */
  ghost predicate Reaction(round: Round, n: nat, t: seq<Entry>)
  {
    if n < |round.replies| then HandlerTrace(round.replies[n], t, |round.replies[n].phases|) else t == []
  }

  lemma {:induction false} OneMoreEmission(round: Round, t: seq<Entry>, n: nat, i: Signal, reaction: seq<Entry>)
    requires RoundTrace(round, t, n, i) && Reaction(round, n, reaction)
    ensures RoundTrace(round, t + [Emitted(i)] + reaction, n + 1, i + 1)
  {
    var t', k := t + [Emitted(i)] + reaction, |t|;
    assert t'[..k] == t && t'[k] == Emitted(i) && t'[k + 1..] == reaction;
    assert EndsInEmission(round, t', n + 1, i + 1, k);
  }

  /** The same for the log of a round that began when the log was `start`. */
  lemma {:induction false} EmissionLogged(round: Round, start: seq<Entry>, soFar: seq<Entry>, log: seq<Entry>, n: nat,
        i: Signal)
    requires start <= soFar && RoundTrace(round, soFar[|start|..], n, i)
    requires soFar + [Emitted(i)] <= log && Reaction(round, n, log[|soFar| + 1..])
    ensures start <= log && RoundTrace(round, log[|start|..], n + 1, i + 1)
  {
    var reaction := log[|soFar| + 1..];
    assert log == soFar + [Emitted(i)] + reaction;
    assert log[|start|..] == soFar[|start|..] + [Emitted(i)] + reaction;
    OneMoreEmission(round, soFar[|start|..], n, i, reaction);
  }

  lemma {:induction false} StillBelow(round: Round, t: seq<Entry>, n: nat, i: nat, i': nat)
    requires RoundTrace(round, t, n, i) && i <= i'
    ensures RoundTrace(round, t, n, i')
  {
    if n == 0 {
    } else {
      var k :| 0 <= k < |t| && EndsInEmission(round, t, n, i, k);
      assert EndsInEmission(round, t, n, i', k);
    }
  }

  lemma {:induction false} OneMorePhase(handler: Handler, t: seq<Entry>, n: nat, emitted: seq<Entry>, m: nat)
    requires n < |handler.phases| && HandlerTrace(handler, t, n)
    requires RoundTrace(handler.phases[n].round, emitted, m, SIGNAL_COUNT)
    ensures HandlerTrace(handler, t + AllQueued(handler.phases[n].queued) + emitted, n + 1)
  {
    var queued, k := AllQueued(handler.phases[n].queued), |t|;
    var t' := t + queued + emitted;
    assert t'[..k] == t && t'[k..] == queued + emitted && t'[k + |queued|..] == emitted;
    assert EndsInPhase(handler, t', n + 1, k, m);
  }

  lemma {:induction false} PhaseLogged(handler: Handler, start: seq<Entry>, soFar: seq<Entry>, log: seq<Entry>, n: nat)
    requires n < |handler.phases| && start <= soFar && HandlerTrace(handler, soFar[|start|..], n)
    requires soFar + AllQueued(handler.phases[n].queued) <= log
    requires Traced(handler.phases[n].round, log[|soFar| + |handler.phases[n].queued|..])
    ensures start <= log && HandlerTrace(handler, log[|start|..], n + 1)
  {
    var queued := AllQueued(handler.phases[n].queued);
    var emitted := log[|soFar| + |queued|..];
    assert log == soFar + queued + emitted;
    assert log[|start|..] == soFar[|start|..] + queued + emitted;
    var m: nat :| RoundTrace(handler.phases[n].round, emitted, m, SIGNAL_COUNT);
    OneMorePhase(handler, soFar[|start|..], n, emitted, m);
  }

  /** As they ascend, a round has no more emissions than there are signals, whatever its handlers do. */
  lemma {:induction false} RoundsAreShort(round: Round, t: seq<Entry>, n: nat, i: nat)
    requires RoundTrace(round, t, n, i)
    ensures n <= i
  {
    if n == 0 {
    } else {
      var k :| 0 <= k < |t| && EndsInEmission(round, t, n, i, k);
      RoundsAreShort(round, t[..k], n - 1, t[k].signal);
    }
  }

  class TDLibFile {
    /** The bits of the queue word. */
    var queuedSignals: set<Signal>
    var firstQueuedSignal: nat
    /** Everything queued and emitted so far. */
    var log: seq<Entry>

    /** The queue word holds exactly the pending signals. */
    ghost predicate Accounted()
      reads this
    {
      queuedSignals == Pending(log) && Coalesced(log)
    }

    /** Outside of any emission the first queued signal is a lower bound. */
    ghost predicate Ready()
      reads this
    {
      Accounted() && forall s :: s in queuedSignals ==> firstQueuedSignal <= s
    }

    /** Inside an emission the lower bound has been reset. */
    ghost predicate Emitting()
      reads this
    {
      Accounted() && (queuedSignals != {} ==> firstQueuedSignal == SIGNAL_COUNT)
    }

    constructor ()
      ensures Ready() && Emitting() && queuedSignals == {} && log == []
    {
      queuedSignals := {};
      firstQueuedSignal := SIGNAL_COUNT;
      log := [];
    }

    method QueueSignal(signal: Signal)
      requires Accounted()
      modifies this
      ensures Accounted() && queuedSignals == old(queuedSignals) + {signal}
      ensures firstQueuedSignal <= signal
      ensures old(queuedSignals) != {} ==> firstQueuedSignal <= old(firstQueuedSignal)
      ensures old(Ready()) ==> Ready()
      ensures log == old(log) + [Queued(signal)]
    {
      if queuedSignals != {} {
        queuedSignals := queuedSignals + {signal};
        if firstQueuedSignal > signal {
          firstQueuedSignal := signal;
        }
      } else {
        queuedSignals := {signal};
        firstQueuedSignal := signal;
      }
      PendingNext(log, Queued(signal));
      CoalescedNext(log, Queued(signal));
      log := log + [Queued(signal)];
    }

    /** Emits a queued signal, as the emission number `emitted` of its round, and lets the handlers react. */
    method Emit(signal: Signal, round: Round, emitted: nat)
      requires Emitting() && signal in queuedSignals
      modifies this
      ensures Emitting()
      ensures forall s :: s in queuedSignals ==> s in old(queuedSignals) && s != signal
      ensures old(log) + [Emitted(signal)] <= log && Reaction(round, emitted, log[|old(log)| + 1..])
      ensures round.replies == [] ==> queuedSignals == old(queuedSignals) - {signal}
      ensures round.replies == [] ==> log == old(log) + [Emitted(signal)]
      decreases round, 0
    {
      PendingNext(log, Emitted(signal));
      CoalescedNext(log, Emitted(signal));
      queuedSignals := queuedSignals - {signal};
      log := log + [Emitted(signal)];
      if emitted < |round.replies| {
        React(round.replies[emitted]);
      }
      assert old(log) + [Emitted(signal)] <= log;
    }

    /** A round of emissions. What is left afterwards was queued before and lies below the first queued signal:
        such signals belong to an emission that is still under way further out. Called from outside, nothing is left.
        If no handler reacts, each queued signal is emitted once, in ascending order. */
    method EmitQueuedSignals(round: Round)
      requires Accounted()
      modifies this
      ensures Emitting()
      ensures Left(queuedSignals, old(queuedSignals), old(firstQueuedSignal), SIGNAL_COUNT)
      ensures old(log) <= log && Traced(round, log[|old(log)|..])
      ensures old(Ready()) ==> queuedSignals == {} == Pending(log)
      ensures round.replies == [] ==> log == old(log) + InOrder(old(queuedSignals), old(firstQueuedSignal))
      decreases round, 1
    {
      ghost var before, first := queuedSignals, firstQueuedSignal;
      ghost var reached := first;
      ghost var emissions := 0;
      assert log[|old(log)|..] == [];
      if queuedSignals != {} {
        // The first queued signal is reset before anything is emitted: handlers may queue and emit again.
        var i := firstQueuedSignal;
        firstQueuedSignal := SIGNAL_COUNT;
        var emitted := 0;
        while i < SIGNAL_COUNT && queuedSignals != {}
          invariant Emitting()
          invariant first <= i && Left(queuedSignals, before, first, i)
          invariant i <= SIGNAL_COUNT || emissions == 0
          invariant emitted == emissions && old(log) <= log && RoundTrace(round, log[|old(log)|..], emissions, i)
          invariant round.replies == [] ==> Silent(log, old(log), queuedSignals, before, first, i)
          decreases SIGNAL_COUNT - i
        {
          ghost var queued, soFar := queuedSignals, log;
          if i in queuedSignals {
            Emit(i, round, emitted);
            EmissionLogged(round, old(log), soFar, log, emissions, i);
            emitted, emissions := emitted + 1, emissions + 1;
          } else {
            StillBelow(round, log[|old(log)|..], emissions, i, i + 1);
          }
          if round.replies == [] {
            SilentStep(soFar, old(log), queued, before, first, i);
          }
          i := i + 1;
        }
        reached := i;
        if i <= SIGNAL_COUNT { StillBelow(round, log[|old(log)|..], emissions, i, SIGNAL_COUNT); }
      }
      assert RoundTrace(round, log[|old(log)|..], emissions, SIGNAL_COUNT);
      if round.replies == [] {
        RestEmpty(before, reached, queuedSignals);
      }
    }

    /** A handler running inside an emission: afterwards nothing is queued that was not queued before. */
    method React(handler: Handler)
      requires Emitting()
      modifies this
      ensures Emitting()
      ensures forall s :: s in queuedSignals ==> s in old(queuedSignals)
      ensures old(log) <= log && HandlerTrace(handler, log[|old(log)|..], |handler.phases|)
      decreases handler, 0
    {
      assert log[|old(log)|..] == [];
      for k := 0 to |handler.phases|
        invariant Emitting()
        invariant forall s :: s in queuedSignals ==> s in old(queuedSignals)
        invariant old(log) <= log && HandlerTrace(handler, log[|old(log)|..], k)
      {
        var phase := handler.phases[k];
        ghost var soFar := log;
        QueueAll(phase.queued);
        EmitQueuedSignals(phase.round);
        PhaseLogged(handler, old(log), soFar, log, k);
      }
    }

    method QueueAll(signals: seq<Signal>)
      requires Emitting()
      modifies this
      ensures Accounted()
      ensures forall s :: s in queuedSignals ==> s in old(queuedSignals) || firstQueuedSignal <= s
      ensures log == old(log) + AllQueued(signals)
    {
      for k := 0 to |signals|
        invariant Accounted()
        invariant forall s :: s in queuedSignals ==> s in old(queuedSignals) || firstQueuedSignal <= s
        invariant log == old(log) + AllQueued(signals[..k])
      {
        assert AllQueued(signals[..k + 1]) == AllQueued(signals[..k]) + [Queued(signals[k])];
        QueueSignal(signals[k]);
      }
      assert signals[..|signals|] == signals;
    }
  }

  lemma {:induction false} RestEmpty(signals: set<Signal>, from: nat, left: set<Signal>)
    requires from >= SIGNAL_COUNT || left == {}
    requires forall s :: s in signals && from <= s ==> s in left
    ensures InOrder(signals, from) == []
    decreases SIGNAL_COUNT - from
  {
    if from >= SIGNAL_COUNT {
    } else {
      assert from in signals ==> from in left;
      RestEmpty(signals, from + 1, left);
    }
  }
}
