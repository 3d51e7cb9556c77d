/** The generation barrier as a protocol: threads that call `wait` over and over,
    interleaved in any order at the points where they hold the mutex. */
module BarrierProtocol {

  /** The generation counter is an unsigned 32-bit number. */
  const WORD := 0x1_0000_0000

  /** A thread is outside `wait`, or inside with the generation it saved, asleep or woken up. */
  datatype Thread = Idle | Waiting(gen: nat, awake: bool)

  datatype Barrier = Barrier(numWaiting: nat, generation: nat, numLeft: nat, threads: seq<Thread>)

  /** What a thread does in one go: enter `wait` (and, as the last one, notify all sleepers and leave with true), wake
      up for no reason, or, woken up, find the generation changed (and leave with false) or go back to sleep. */
  datatype Event = Arrive(t: nat, last: bool) | Spurious(t: nat) | Leave(t: nat) | Recheck(t: nat)

  function Start(numWaiting: nat, threads: nat): Barrier {
    Barrier(numWaiting, 0, numWaiting, seq(threads, _ => Idle))
  }

  function Decrement(n: nat): nat {
    (n + WORD - 1) % WORD
  }

  /** All sleepers wake up. */
  function NotifyAll(threads: seq<Thread>): (r: seq<Thread>)
    ensures |r| == |threads|
    ensures forall i :: 0 <= i < |r| ==> r[i] == if threads[i].Waiting? then Waiting(threads[i].gen, true) else Idle
  {
    seq(|threads|, i requires 0 <= i < |threads| => if threads[i].Waiting? then Waiting(threads[i].gen, true) else Idle)
  }

  predicate Enabled(b: Barrier, e: Event) {
    && e.t < |b.threads|
    && match e
       case Arrive(t, last) => b.threads[t].Idle? && (last <==> Decrement(b.numLeft) == 0)
       case Spurious(t) => b.threads[t].Waiting? && !b.threads[t].awake
       case Leave(t) => b.threads[t].Waiting? && b.threads[t].awake && b.threads[t].gen != b.generation
       case Recheck(t) => b.threads[t].Waiting? && b.threads[t].awake && b.threads[t].gen == b.generation
  }

  function Next(b: Barrier, e: Event): Barrier
    requires Enabled(b, e)
  {
    match e
    case Arrive(t, last) =>
      if last then
        b.(generation := (b.generation + 1) % WORD, numLeft := b.numWaiting, threads := NotifyAll(b.threads))
      else b.(numLeft := Decrement(b.numLeft), threads := b.threads[t := Waiting(b.generation, false)])
    case Spurious(t) => b.(threads := b.threads[t := Waiting(b.threads[t].gen, true)])
    case Leave(t) => b.(threads := b.threads[t := Idle])
    case Recheck(t) => b.(threads := b.threads[t := Waiting(b.threads[t].gen, false)])
  }

  ghost predicate Possible(start: Barrier, trace: seq<Event>)
    decreases |trace|, 0
  {
    trace == [] ||
    (Possible(start, trace[..|trace| - 1]) && Enabled(After(start, trace[..|trace| - 1]), trace[|trace| - 1]))
  }

  ghost function After(start: Barrier, trace: seq<Event>): Barrier
    requires Possible(start, trace)
    decreases |trace|, 1
  {
    if trace == [] then start else Next(After(start, trace[..|trace| - 1]), trace[|trace| - 1])
  }

  // ---------- what an observer counts ----------

  /** How often thread `t` has called `wait`. */
  ghost function Calls(trace: seq<Event>, t: nat): nat {
    if trace == [] then 0
    else
      var e := trace[|trace| - 1];
      Calls(trace[..|trace| - 1], t) + if e.Arrive? && e.t == t then 1 else 0
  }

  /** How often thread `t` has returned from `wait`. */
  ghost function Returns(trace: seq<Event>, t: nat): nat {
    if trace == [] then 0
    else
      var e := trace[|trace| - 1];
      Returns(trace[..|trace| - 1], t) + if e.t == t && ((e.Arrive? && e.last) || e.Leave?) then 1 else 0
  }

  /** How many of the k-th calls have returned true. */
  ghost function Winners(trace: seq<Event>, k: nat): nat {
    if trace == [] then 0
    else
      var e, before := trace[|trace| - 1], trace[..|trace| - 1];
      Winners(before, k) + if e.Arrive? && e.last && Calls(before, e.t) == k then 1 else 0
  }

  /** How many rounds have been completed. */
  ghost function Rounds(trace: seq<Event>): nat {
    if trace == [] then 0
    else
      var e := trace[|trace| - 1];
      Rounds(trace[..|trace| - 1]) + if e.Arrive? && e.last then 1 else 0
  }

  // ---------- the invariant ----------

  /** A thread has either finished all rounds, or waits in the current one, or was released and woken up from
      the one before: its saved generation is at most one behind. */
  ghost predicate ThreadOk(thread: Thread, calls: nat, left: nat, rounds: nat) {
    match thread
    case Idle => calls == left == rounds
    case Waiting(gen, awake) =>
      || (calls == rounds + 1 && left == rounds && gen == rounds % WORD)
      || (calls == rounds && left + 1 == rounds && gen == (rounds - 1) % WORD && awake)
  }

  /** How many of the first `n` threads wait in the current round. */
  ghost function Current(trace: seq<Event>, n: nat): (c: nat)
    ensures c <= n
  {
    if n == 0 then 0
    else Current(trace, n - 1) + if Calls(trace, n - 1) == Rounds(trace) + 1 then 1 else 0
  }

  ghost predicate Good(b: Barrier, trace: seq<Event>) {
    && 1 <= b.numLeft <= b.numWaiting < WORD && |b.threads| <= b.numWaiting
    && b.generation == Rounds(trace) % WORD
    && b.numLeft + Current(trace, |b.threads|) == b.numWaiting
    && (forall t :: 0 <= t < |b.threads| ==> ThreadOk(b.threads[t], Calls(trace, t), Returns(trace, t), Rounds(trace)))
    && forall k: nat :: Winners(trace, k) == if k < Rounds(trace) then 1 else 0
  }

  /** Counting after one thread more has arrived. */
  lemma {:induction false} CurrentGrows(trace: seq<Event>, trace': seq<Event>, t: nat, n: nat)
    requires Rounds(trace') == Rounds(trace) && Calls(trace, t) == Rounds(trace) && Calls(trace', t) == Rounds(trace) + 1
    requires forall u: nat :: u != t ==> Calls(trace', u) == Calls(trace, u)
    ensures Current(trace', n) == Current(trace, n) + if t < n then 1 else 0
  {
    if n == 0 {
    } else {
      CurrentGrows(trace, trace', t, n - 1);
    }
  }

  lemma {:induction false} CurrentSame(trace: seq<Event>, trace': seq<Event>, n: nat)
    requires Rounds(trace') == Rounds(trace) && forall u: nat :: Calls(trace', u) == Calls(trace, u)
    ensures Current(trace', n) == Current(trace, n)
  {
    if n == 0 {
    } else {
      CurrentSame(trace, trace', n - 1);
    }
  }

  /** If all but `t` of the threads must be counted, each of them is. */
  lemma {:induction false} AllOthers(trace: seq<Event>, t: nat, n: nat)
    requires t < n && Calls(trace, t) == Rounds(trace) && Current(trace, n) >= n - 1
    ensures Current(trace, n) == n - 1
    ensures forall u :: 0 <= u < n && u != t ==> Calls(trace, u) == Rounds(trace) + 1
  {
    if t == n - 1 {
      Everyone(trace, n - 1);
    } else {
      AllOthers(trace, t, n - 1);
    }
  }

  lemma {:induction false} Everyone(trace: seq<Event>, n: nat)
    requires Current(trace, n) == n
    ensures forall u :: 0 <= u < n ==> Calls(trace, u) == Rounds(trace) + 1
  {
    if n == 0 {
    } else {
      Everyone(trace, n - 1);
    }
  }

  lemma {:induction false} NobodyYet(trace: seq<Event>, n: nat)
    requires forall u :: 0 <= u < n ==> Calls(trace, u) == Rounds(trace)
    ensures Current(trace, n) == 0
  {
    if n == 0 {
    } else {
      NobodyYet(trace, n - 1);
    }
  }

  lemma StartGood(numWaiting: nat, threads: nat)
    requires 1 <= numWaiting < WORD && threads <= numWaiting
    ensures Good(Start(numWaiting, threads), [])
  {
    NobodyYet([], threads);
  }

  /** The arrival that completes a round: everybody else is waiting in it. */
  lemma LastArrival(b: Barrier, trace: seq<Event>, e: Event)
    requires Good(b, trace) && Enabled(b, e) && e.Arrive? && e.last
    ensures |b.threads| == b.numWaiting
    ensures forall u :: 0 <= u < |b.threads| && u != e.t ==> Calls(trace, u) == Rounds(trace) + 1
  {
    assert b.numLeft == 1;
    assert ThreadOk(b.threads[e.t], Calls(trace, e.t), Returns(trace, e.t), Rounds(trace));
    AllOthers(trace, e.t, |b.threads|);
  }

  /** What one more event adds to the observer's counts. */
  lemma OneMore(trace: seq<Event>, e: Event)
    ensures var trace' := trace + [e];
            && (forall t: nat :: Calls(trace', t) == Calls(trace, t) + if e.Arrive? && e.t == t then 1 else 0)
            && (forall t: nat :: Returns(trace', t) == Returns(trace, t) + if e.t == t && ((e.Arrive? && e.last) || e.Leave?) then 1 else 0)
            && Rounds(trace') == Rounds(trace) + (if e.Arrive? && e.last then 1 else 0)
            && (forall k: nat :: Winners(trace', k) == Winners(trace, k) + if e.Arrive? && e.last && Calls(trace, e.t) == k then 1 else 0)
  {
    assert (trace + [e])[..|trace|] == trace;
  }

  lemma WrapNext(n: nat)
    ensures (n % WORD + 1) % WORD == (n + 1) % WORD
  {
  }

  lemma WrapDiffers(n: nat)
    ensures n >= 1 ==> n % WORD != (n - 1) % WORD
  {
  }

  /** Everybody is then released, the last one included. */
  lemma LastArrivalThreads(b: Barrier, trace: seq<Event>, e: Event)
    requires Good(b, trace) && Enabled(b, e) && e.Arrive? && e.last
    ensures var threads, trace' := Next(b, e).threads, trace + [e];
            forall t :: 0 <= t < |b.threads| ==>
              ThreadOk(threads[t], Calls(trace', t), Returns(trace', t), Rounds(trace')) && Calls(trace', t) == Rounds(trace')
  {
    LastArrival(b, trace, e);
    OneMore(trace, e);
    hide Calls, Returns, Rounds, Winners, Current;
    var threads, trace' := Next(b, e).threads, trace + [e];
    forall t | 0 <= t < |b.threads|
      ensures ThreadOk(threads[t], Calls(trace', t), Returns(trace', t), Rounds(trace')) && Calls(trace', t) == Rounds(trace')
    {
      assert ThreadOk(b.threads[t], Calls(trace, t), Returns(trace, t), Rounds(trace));
    }
  }

  lemma LastArrivalGood(b: Barrier, trace: seq<Event>, e: Event)
    requires Good(b, trace) && Enabled(b, e) && e.Arrive? && e.last
    ensures Good(Next(b, e), trace + [e])
  {
    LastArrivalThreads(b, trace, e);
    LastArrival(b, trace, e);
    OneMore(trace, e);
    hide Calls, Returns, Rounds, Winners, ThreadOk;
    WrapNext(Rounds(trace));
    NobodyYet(trace + [e], |b.threads|);
  }

  lemma OtherStepGood(b: Barrier, trace: seq<Event>, e: Event)
    requires Good(b, trace) && Enabled(b, e) && !(e.Arrive? && e.last)
    ensures Good(Next(b, e), trace + [e])
  {
    OneMore(trace, e);
    hide Calls, Returns, Rounds, Winners;
    assert ThreadOk(b.threads[e.t], Calls(trace, e.t), Returns(trace, e.t), Rounds(trace));
    if e.Arrive? {
      CurrentGrows(trace, trace + [e], e.t, |b.threads|);
    } else {
      CurrentSame(trace, trace + [e], |b.threads|);
    }
  }

  lemma {:induction false} AlwaysGood(start: Barrier, trace: seq<Event>)
    requires Good(start, []) && Possible(start, trace)
    ensures Good(After(start, trace), trace)
    ensures |After(start, trace).threads| == |start.threads| && After(start, trace).numWaiting == start.numWaiting
  {
    if trace == [] {
    } else {
      var before, e := trace[..|trace| - 1], trace[|trace| - 1];
      AlwaysGood(start, before);
      assert before + [e] == trace;
      if e.Arrive? && e.last {
        LastArrivalGood(After(start, before), before, e);
      } else {
        OtherStepGood(After(start, before), before, e);
      }
    }
  }

  // ---------- what the barrier promises ----------

  lemma Reached(numWaiting: nat, threads: nat, trace: seq<Event>)
    requires 1 <= numWaiting < WORD && threads <= numWaiting && Possible(Start(numWaiting, threads), trace)
    ensures Good(After(Start(numWaiting, threads), trace), trace)
    ensures |After(Start(numWaiting, threads), trace).threads| == threads
    ensures After(Start(numWaiting, threads), trace).numWaiting == numWaiting
  {
    StartGood(numWaiting, threads);
    AlwaysGood(Start(numWaiting, threads), trace);
  }

  /** The generation counts the rounds in 32 bits. */
  lemma GenerationCounts(numWaiting: nat, threads: nat, trace: seq<Event>)
    requires 1 <= numWaiting < WORD && threads <= numWaiting && Possible(Start(numWaiting, threads), trace)
    ensures After(Start(numWaiting, threads), trace).generation == Rounds(trace) % 4294967296
  {
    Reached(numWaiting, threads, trace);
  }

  /** No thread ever returns from its k-th call before every thread has made its k-th call. */
  ghost predicate Synchronises(numWaiting: nat, threads: nat) {
    forall trace: seq<Event>, t: nat, u: nat ::
      Possible(Start(numWaiting, threads), trace) && t < threads && u < threads ==> Returns(trace, t) <= Calls(trace, u)
  }

  /** The threads arriving one after the other. */
  ghost function Arrivals(numWaiting: nat, n: nat): (trace: seq<Event>)
    ensures |trace| == n
  {
    if n == 0 then [] else Arrivals(numWaiting, n - 1) + [Arrive(n - 1, n == numWaiting)]
  }

  /** The first `n` threads wait in the first round. */
  ghost function Parked(numWaiting: nat, threads: nat, n: nat): Barrier
    requires n <= numWaiting
  {
    Barrier(numWaiting, 0, numWaiting - n, seq(threads, i => if i < n then Waiting(0, false) else Idle))
  }

  lemma ParkedStep(numWaiting: nat, threads: nat, n: nat)
    requires n + 1 < numWaiting < WORD && n < threads
    ensures Enabled(Parked(numWaiting, threads, n), Arrive(n, false))
    ensures Next(Parked(numWaiting, threads, n), Arrive(n, false)) == Parked(numWaiting, threads, n + 1)
  {
    var b := Next(Parked(numWaiting, threads, n), Arrive(n, false));
    assert b.threads == Parked(numWaiting, threads, n + 1).threads;
  }

  lemma {:induction false} ArrivalsWait(numWaiting: nat, threads: nat, n: nat)
    requires n < numWaiting < WORD && n <= threads
    ensures Possible(Start(numWaiting, threads), Arrivals(numWaiting, n))
    ensures After(Start(numWaiting, threads), Arrivals(numWaiting, n)) == Parked(numWaiting, threads, n)
    ensures forall u: nat :: u >= n ==> Calls(Arrivals(numWaiting, n), u) == 0
  {
    if n == 0 {
      assert Start(numWaiting, threads).threads == Parked(numWaiting, threads, 0).threads;
    } else {
      ArrivalsWait(numWaiting, threads, n - 1);
      assert Arrivals(numWaiting, n)[..n - 1] == Arrivals(numWaiting, n - 1);
      ParkedStep(numWaiting, threads, n - 1);
    }
  }

  lemma TooManyThreads(numWaiting: nat, threads: nat)
    requires 1 <= numWaiting < WORD && threads > numWaiting
    ensures !Synchronises(numWaiting, threads)
  {
    var trace := Arrivals(numWaiting, numWaiting);
    ArrivalsWait(numWaiting, threads, numWaiting - 1);
    assert trace[..numWaiting - 1] == Arrivals(numWaiting, numWaiting - 1);
    assert Returns(trace, numWaiting - 1) >= 1 && Calls(trace, numWaiting) == 0;
  }

  /** Whatever the interleaving and however often the generation counter wraps: the threads stay in
      step exactly when there are no more of them than the barrier counts. */
  lemma InStep(numWaiting: nat, threads: nat)
    requires 1 <= numWaiting < WORD
    ensures Synchronises(numWaiting, threads) <==> threads <= numWaiting
  {
    if threads > numWaiting {
      TooManyThreads(numWaiting, threads);
    } else {
      forall trace: seq<Event>, t: nat, u: nat |
        Possible(Start(numWaiting, threads), trace) && t < threads && u < threads
        ensures Returns(trace, t) <= Calls(trace, u)
      {
        Reached(numWaiting, threads, trace);
        var b := After(Start(numWaiting, threads), trace);
        assert ThreadOk(b.threads[t], Calls(trace, t), Returns(trace, t), Rounds(trace));
        assert ThreadOk(b.threads[u], Calls(trace, u), Returns(trace, u), Rounds(trace));
      }
    }
  }

  /** Every thread is in the current round or about to enter it. */
  lemma CallsNear(b: Barrier, trace: seq<Event>)
    requires Good(b, trace)
    ensures forall u :: 0 <= u < |b.threads| ==> Rounds(trace) <= Calls(trace, u) <= Rounds(trace) + 1
  {
    hide Calls, Returns, Rounds, Current;
    forall u | 0 <= u < |b.threads|
      ensures Rounds(trace) <= Calls(trace, u) <= Rounds(trace) + 1
    {
      assert ThreadOk(b.threads[u], Calls(trace, u), Returns(trace, u), Rounds(trace));
    }
  }

  /** Somebody is missing from the current round. */
  lemma {:induction false} SomebodyMissing(trace: seq<Event>, n: nat) returns (u: nat)
    requires Current(trace, n) < n
    ensures u < n && Calls(trace, u) != Rounds(trace) + 1
  {
    u := n - 1;
    if Calls(trace, u) == Rounds(trace) + 1 {
      u := SomebodyMissing(trace, n - 1);
    }
  }

  /** Of the k-th calls exactly one returns true, as soon as all of them have been made. */
  lemma OneWinner(numWaiting: nat, trace: seq<Event>, k: nat)
    requires 1 <= numWaiting < WORD && Possible(Start(numWaiting, numWaiting), trace)
    ensures Winners(trace, k) <= 1
    ensures Winners(trace, k) == 1 <==> forall u :: 0 <= u < numWaiting ==> Calls(trace, u) > k
  {
    Reached(numWaiting, numWaiting, trace);
    var b := After(Start(numWaiting, numWaiting), trace);
    assert forall u :: 0 <= u < numWaiting ==> ThreadOk(b.threads[u], Calls(trace, u), Returns(trace, u), Rounds(trace));
    var u := SomebodyMissing(trace, numWaiting);
  }

  predicate InWait(b: Barrier, t: nat) {
    t < |b.threads| && b.threads[t].Waiting?
  }

  /** No wake-up is lost: whoever sleeps waits in the current round. */
  lemma SleepersAreCurrent(numWaiting: nat, threads: nat, trace: seq<Event>, t: nat)
    requires 1 <= numWaiting < WORD && threads <= numWaiting && Possible(Start(numWaiting, threads), trace)
    requires InWait(After(Start(numWaiting, threads), trace), t) && !After(Start(numWaiting, threads), trace).threads[t].awake
    ensures var b := After(Start(numWaiting, threads), trace);
            b.threads[t].gen == b.generation && Calls(trace, t) == Rounds(trace) + 1
  {
    Reached(numWaiting, threads, trace);
    hide Calls, Returns, Rounds, Possible, After, Current;
    var b := After(Start(numWaiting, threads), trace);
    assert ThreadOk(b.threads[t], Calls(trace, t), Returns(trace, t), Rounds(trace));
  }

  /** A thread inside `wait` can leave, without being woken up any further, exactly when everybody has arrived in its
      round: no release comes early and none is missed. */
  lemma ReleasedExactly(numWaiting: nat, trace: seq<Event>, t: nat)
    requires 1 <= numWaiting < WORD && Possible(Start(numWaiting, numWaiting), trace)
    requires InWait(After(Start(numWaiting, numWaiting), trace), t)
    ensures Enabled(After(Start(numWaiting, numWaiting), trace), Leave(t)) <==>
            forall u :: 0 <= u < numWaiting ==> Calls(trace, u) >= Calls(trace, t)
  {
    Reached(numWaiting, numWaiting, trace);
    hide Calls, Returns, Rounds, Possible, After, Current;
    var b := After(Start(numWaiting, numWaiting), trace);
    assert ThreadOk(b.threads[t], Calls(trace, t), Returns(trace, t), Rounds(trace));
    var u := SomebodyMissing(trace, numWaiting);
    CallsNear(b, trace);
    WrapDiffers(Rounds(trace));
  }

  /** Some thread can enter or leave `wait`, without a spurious wake-up. */
  ghost predicate CanMove(b: Barrier) {
    exists e: Event :: (e.Arrive? || e.Leave?) && Enabled(b, e)
  }

  lemma NeverStuck(numWaiting: nat, trace: seq<Event>)
    requires 1 <= numWaiting < WORD && Possible(Start(numWaiting, numWaiting), trace)
    ensures CanMove(After(Start(numWaiting, numWaiting), trace))
  {
    Reached(numWaiting, numWaiting, trace);
    hide Calls, Returns, Rounds, Possible, After, Current;
    var b := After(Start(numWaiting, numWaiting), trace);
    var u := SomebodyMissing(trace, numWaiting);
    assert ThreadOk(b.threads[u], Calls(trace, u), Returns(trace, u), Rounds(trace));
    if b.threads[u].Idle? {
      assert Enabled(b, Arrive(u, Decrement(b.numLeft) == 0));
    } else {
      WrapDiffers(Rounds(trace));
      assert Enabled(b, Leave(u));
    }
  }

  /** Among thread counts that stay in step, only the full count never gets stuck. */
  lemma Lives(numWaiting: nat, threads: nat)
    requires 1 <= numWaiting < WORD && threads <= numWaiting
    ensures (forall trace :: Possible(Start(numWaiting, threads), trace) ==> CanMove(After(Start(numWaiting, threads), trace)))
            <==> threads == numWaiting
  {
    if threads == numWaiting {
      forall trace | Possible(Start(numWaiting, threads), trace)
        ensures CanMove(After(Start(numWaiting, threads), trace))
      {
        NeverStuck(numWaiting, trace);
      }
    } else {
      ArrivalsWait(numWaiting, threads, threads);
      assert Possible(Start(numWaiting, threads), Arrivals(numWaiting, threads));
      assert !CanMove(After(Start(numWaiting, threads), Arrivals(numWaiting, threads)));
    }
  }
}
