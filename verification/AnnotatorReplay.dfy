/** What the annotator's log says by itself: a reader of the log can rebuild every queue, byte by byte. */
module AnnotatorReplay {
  import opened AnnotatorRuns
  import opened CriticalPath
  import opened Sequences

  // ---------- reading the log ----------

  predicate QueueOp(op: Op) {
    op == Queue || op == Dequeue || op == SizeQueue
  }

  /** What a record does to a queue's line; `at` is the record's position in the log. */
  ghost function Applied(line: seq<int>, w: Written, at: int): seq<int> {
    match w.op
    case Queue =>
      if w.data < 0 then line
      else if w.flag & 0x04 != 0 then Copies(at, w.data) + line else line + Copies(at, w.data)
    case Dequeue => if w.data == -1 then [] else if 0 <= w.data <= |line| then line[w.data..] else line
    case SizeQueue => if w.data <= 0 then [] else if w.data <= |line| then line[..w.data] else line
    case _ => line
  }

  /** The line of queue number `qi` after the first `n` records. */
  ghost function Replayed(log: seq<Written>, n: nat, qi: nat): seq<int>
    requires n <= |log|
  {
    if n == 0 then []
    else
      var line := Replayed(log, n - 1, qi);
      if log[n - 1].stq == qi then Applied(line, log[n - 1], n - 1) else line
  }

  lemma {:induction false} ReplayedPrefix(log: seq<Written>, more: seq<Written>, n: nat, qi: nat)
    requires n <= |log|
    ensures Replayed(log + more, n, qi) == Replayed(log, n, qi)
  {
    if n == 0 {
    } else {
      ReplayedPrefix(log, more, n - 1, qi);
    }
  }

  lemma ReplayedOne(log: seq<Written>, w: Written, qi: nat)
    ensures Replayed(log + [w], |log| + 1, qi) ==
            if w.stq == qi then Applied(Replayed(log, |log|, qi), w, |log|) else Replayed(log, |log|, qi)
  {
    ReplayedPrefix(log, [w], |log|, qi);
  }

  /** Records that are no queue operations do not matter, nor does it matter what they turn into. */
  lemma {:induction false} ReplayedOther(log: seq<Written>, k: nat, w: Written, n: nat, qi: nat)
    requires k < |log| && n <= |log| && !QueueOp(log[k].op) && !QueueOp(w.op)
    ensures Replayed(log[k := w], n, qi) == Replayed(log, n, qi)
  {
    if n == 0 {
    } else {
      ReplayedOther(log, k, w, n - 1, qi);
    }
  }

  // ---------- the reference agrees with it ----------

  ghost function LineOf(r: Ref, q: nat): seq<int> {
    if q < |r.lines| then r.lines[q] else []
  }

  /** Every line is what the log says, and the links that wait are links. */
  ghost predicate Told(r: Ref) {
    && r.Ok()
    && (forall q: nat :: LineOf(r, q) == Replayed(r.log, |r.log|, q + 1))
    && forall n :: n in r.waiting ==> r.log[r.waiting[n]].op == Op.Link
  }

  /** Only the queue operations write queue records. */
  ghost predicate Proper(e: Event) {
    e.Other? ==> !QueueOp(e.w.op)
  }

  lemma OpenedTold(r: Ref, name: Name)
    requires Told(r)
    ensures Told(r.Opened(name))
  {
    var o := r.Opened(name);
    forall q: nat
      ensures LineOf(o, q) == Replayed(o.log, |o.log|, q + 1)
    {
      assert LineOf(r, q) == Replayed(r.log, |r.log|, q + 1);
      assert LineOf(o, q) == LineOf(r, q);
    }
  }

  /** One more record, which does to its queue's line what it says. */
  lemma LoggedTold(r: Ref, w: Written, r': Ref)
    requires Told(r) && r'.Ok() && r'.log == r.log + [w] && r'.waiting == r.waiting
    requires forall q: nat :: LineOf(r', q) == if w.stq == q + 1 then Applied(LineOf(r, q), w, |r.log|) else LineOf(r, q)
    ensures Told(r')
  {
    hide Applied;
    forall q: nat
      ensures LineOf(r', q) == Replayed(r'.log, |r'.log|, q + 1)
    {
      assert LineOf(r, q) == Replayed(r.log, |r.log|, q + 1);
      ReplayedOne(r.log, w, q + 1);
    }
  }

  lemma PutInTold(r: Ref, q: nat, count: int, flag: bv8, time: nat, cpu: nat, sm: nat)
    requires Told(r) && q < |r.lines| && count > 0
    ensures Told(PutInLine(r, q, count, flag, time, cpu, sm))
  {
    LoggedTold(r, Written(time, count, sm, q + 1, Queue, flag, cpu), PutInLine(r, q, count, flag, time, cpu, sm));
  }

  lemma TakeOutTold(r: Ref, q: nat, count: int, flag: bv8, time: nat, cpu: nat, sm: nat)
    requires Told(r) && q < |r.lines| && (count == -1 || count > 0)
    ensures Told(TakeFromLine(r, q, count, flag, time, cpu, sm))
  {
    var r' := TakeFromLine(r, q, count, flag, time, cpu, sm);
    if count != -1 && count > |r.lines[q]| {
      assert forall p: nat :: LineOf(r', p) == LineOf(r, p);
    } else {
      LoggedTold(r, Written(time, count, sm, q + 1, Dequeue, flag, cpu), r');
    }
  }

  /** The line after the records of a change of size, one after the other. */
  lemma ResizeApplied(line: seq<int>, time: nat, cpu: nat, sm: nat, qi: nat, size: int, at: nat)
    ensures var more := ResizeRecord(time, cpu, sm, qi, |line|, size);
            && |more| <= 1 && (more != [] ==> more[0].stq == qi && QueueOp(more[0].op))
            && (if more == [] then line else Applied(line, more[0], at)) == Fitted(line, size, at)
  {
    assert FL_NONE & 0x04 == 0;
    assert line[..|line|] == line;
  }

  ghost function WithLine(r: Ref, log: seq<Written>, q: nat, line: seq<int>): Ref
    requires q < |r.lines|
  {
    r.(log := log, lines := r.lines[q := line])
  }

  /** At most one more record, of queue `q`. */
  lemma OneMoreTold(r: Ref, q: nat, more: seq<Written>, line: seq<int>)
    requires Told(r) && q < |r.lines| && |more| <= 1 && (more != [] ==> more[0].stq == q + 1)
    requires line == if more == [] then r.lines[q] else Applied(r.lines[q], more[0], |r.log|)
    ensures Told(WithLine(r, r.log + more, q, line))
  {
    hide Applied;
    var r' := WithLine(r, r.log + more, q, line);
    if more == [] {
      assert r.log + more == r.log && forall p: nat :: LineOf(r', p) == LineOf(r, p);
    } else {
      assert more == [more[0]];
      LoggedTold(r, more[0], r');
    }
  }

  lemma SizeTold(r: Ref, q: nat, size: int, flag: bv8, time: nat, cpu: nat, sm: nat)
    requires Told(r) && q < |r.lines|
    ensures Told(SizeLine(r, q, size, flag, time, cpu, sm))
  {
    hide Applied, Fitted, ResizeRecord;
    var line := r.lines[q];
    var r' := SizeLine(r, q, size, flag, time, cpu, sm);
    if Resets(flag) {
      var zero := Written(time, 0, sm, q + 1, SizeQueue, FL_NONE, cpu);
      assert Applied(line, zero, |r.log|) == [] by { Emptied(line, zero, |r.log|); }
      var e := WithLine(r, r.log + [zero], q, []);
      OneMoreTold(r, q, [zero], []);
      var more := ResizeRecord(time, cpu, sm, q + 1, 0, size);
      ResizeApplied([], time, cpu, sm, q + 1, size, |r.log| + 1);
      OneMoreTold(e, q, more, Fitted([], size, |r.log| + 1));
      assert r.log + ([zero] + more) == e.log + more;
      SameTold(WithLine(e, e.log + more, q, Fitted([], size, |r.log| + 1)), r');
    } else {
      var more := ResizeRecord(time, cpu, sm, q + 1, |line|, size);
      ResizeApplied(line, time, cpu, sm, q + 1, size, |r.log|);
      OneMoreTold(r, q, more, Fitted(line, size, |r.log|));
      SameTold(WithLine(r, r.log + more, q, Fitted(line, size, |r.log|)), r');
    }
  }

  lemma Emptied(line: seq<int>, w: Written, at: int)
    requires w.op == SizeQueue && w.data == 0
    ensures Applied(line, w, at) == []
  {
  }

  /** File and flags do not matter. */
  lemma SameTold(r: Ref, r': Ref)
    requires Told(r) && r'.Ok() && r'.log == r.log && r'.lines == r.lines && r'.waiting == r.waiting
    ensures Told(r')
  {
    forall q: nat
      ensures LineOf(r', q) == Replayed(r'.log, |r'.log|, q + 1)
    {
      assert LineOf(r, q) == Replayed(r.log, |r.log|, q + 1);
    }
  }

  lemma LinkTold(r: Ref, name: Name, time: nat, cpu: nat, sm: nat)
    requires Told(r)
    ensures Told(LinkMade(r, name, time, cpu, sm))
  {
    var w := Written(time, 0, sm, UNKNOWN, Op.Link, FL_NONE, cpu);
    LoggedTold(r, w, r.Logged(w));
    var r' := LinkMade(r, name, time, cpu, sm);
    forall q: nat
      ensures LineOf(r', q) == Replayed(r'.log, |r'.log|, q + 1)
    {
      assert LineOf(r.Logged(w), q) == Replayed(r'.log, |r'.log|, q + 1);
    }
  }

  lemma StartTold(r: Ref, name: Name, smi: nat)
    requires Told(r)
    ensures Told(LinkMet(r, name, smi))
  {
    var r' := LinkMet(r, name, smi);
    forall q: nat
      ensures LineOf(r', q) == Replayed(r'.log, |r'.log|, q + 1)
    {
      assert LineOf(r, q) == Replayed(r.log, |r.log|, q + 1);
      if name in r.waiting {
        var k := r.waiting[name];
        ReplayedOther(r.log, k, r.log[k].(stq := smi), |r.log|, q + 1);
      }
    }
  }

  lemma StepTold(r: Ref, e: Event)
    requires Told(r) && Legal(r, e) && Proper(e)
    ensures Told(Step(r, e))
  {
    assert r.Ok();
    hide Told, PutInLine, TakeFromLine, SizeLine, LinkMade, LinkMet, Ref.Opened;
    if !r.stopped {
      match e
      case PutIn(name, count, flag, time, cpu, sm) =>
        OpenedTold(r, name);
        PutInTold(r.Opened(name), Place(r.names, name), count, flag, time, cpu, sm);
      case TakeOut(name, count, flag, time, cpu, sm) =>
        OpenedTold(r, name);
        TakeOutTold(r.Opened(name), Place(r.names, name), count, flag, time, cpu, sm);
      case SetSize(name, size, flag, time, cpu, sm) =>
        OpenedTold(r, name);
        SizeTold(r.Opened(name), Place(r.names, name), size, flag, time, cpu, sm);
      case LinkTo(name, time, cpu, sm) => LinkTold(r, name, time, cpu, sm);
      case Started(name, smi) => StartTold(r, name, smi);
      case Other(w) => OtherTold(r, w);
      case DumpSome => SameTold(r, SomeWritten(r));
      case DumpAll => SameTold(r, AllWritten(r));
    }
  }

  lemma OtherTold(r: Ref, w: Written)
    requires Told(r) && !QueueOp(w.op)
    ensures Told(r.Logged(w))
  {
    LoggedTold(r, w, r.Logged(w));
  }

  lemma StartsTold()
    ensures Told(Run([]))
  {
    var r := Run([]);
    forall q: nat
      ensures LineOf(r, q) == Replayed(r.log, |r.log|, q + 1)
    {
    }
  }

  /** After any run, whoever reads the log record by record ends up with exactly the queues of the annotator. */
  lemma {:induction false} RunReplays(events: seq<Event>)
    requires LegalRun(events) && forall i :: 0 <= i < |events| ==> Proper(events[i])
    ensures Told(Run(events))
    ensures var r := Run(events);
            forall q :: 0 <= q < |r.lines| ==> r.lines[q] == Replayed(r.log, |r.log|, q + 1)
    decreases |events|
  {
    hide Step, Legal, Replayed;
    if events == [] {
      StartsTold();
    } else {
      var n := |events| - 1;
      RunReplays(events[..n]);
      StepTold(Run(events[..n]), events[n]);
    }
    var r := Run(events);
    forall q | 0 <= q < |r.lines|
      ensures r.lines[q] == Replayed(r.log, |r.log|, q + 1)
    {
      assert LineOf(r, q) == Replayed(r.log, |r.log|, q + 1);
    }
  }

  // ---------- which end, and what a reset is ----------

  /** With bit 2 of the flag the newest bytes leave first: taking out as many undoes the operation. */
  lemma LastInFirstOut(r: Ref, name: Name, count: int, flag: bv8, t: nat, cpu: nat, sm: nat, flag': bv8, t': nat, cpu': nat, sm': nat)
    requires r.Ok() && !r.stopped && Legal(r, PutIn(name, count, flag, t, cpu, sm)) && flag & 0x04 != 0
    ensures var r' := Step(r, PutIn(name, count, flag, t, cpu, sm));
            && Legal(r', TakeOut(name, count, flag', t', cpu', sm'))
            && Step(r', TakeOut(name, count, flag', t', cpu', sm')).lines == r.Opened(name).lines
  {
    var o, q := r.Opened(name), Place(r.names, name);
    var r' := PutInLine(o, q, count, flag, t, cpu, sm);
    assert r'.names == o.names;
    SamePlace(r', name, o);
    assert r'.lines[q] == Copies(|o.log|, count) + o.lines[q];
    assert r'.lines[q][count..] == o.lines[q];
    assert r'.lines[q := o.lines[q]] == o.lines;
  }

  lemma SamePlace(r: Ref, name: Name, o: Ref)
    requires r.Ok() && r.names == o.names && Place(o.names, name) < |o.names|
    ensures r.Opened(name) == r && Place(r.names, name) == Place(o.names, name)
  {
  }

  /** Without it the newest bytes are the last to leave. */
  lemma FirstInFirstOut(r: Ref, name: Name, count: int, flag: bv8, t: nat, cpu: nat, sm: nat)
    requires r.Ok() && !r.stopped && Legal(r, PutIn(name, count, flag, t, cpu, sm)) && flag & 0x04 == 0
    ensures var o, q := r.Opened(name), Place(r.names, name);
            Step(r, PutIn(name, count, flag, t, cpu, sm)).lines == o.lines[q := o.lines[q] + Copies(|r.log|, count)]
  {
  }

  /** With bit 5 nothing that was in the queue stays; without it the first bytes stay, up to the new size. */
  lemma ResetForgets(r: Ref, name: Name, size: int, flag: bv8, t: nat, cpu: nat, sm: nat)
    requires r.Ok() && !r.stopped && Legal(r, SetSize(name, size, flag, t, cpu, sm))
    ensures var o, q := r.Opened(name), Place(r.names, name);
            var r' := Step(r, SetSize(name, size, flag, t, cpu, sm));
            var n := if size > 0 then size else 0;
            && q < |r'.lines| && |r'.lines[q]| == n
            && (flag & 0x20 != 0 ==> forall i :: 0 <= i < n ==> r'.lines[q][i] == |r.log| + 1)
            && (flag & 0x20 == 0 ==>
                  && (forall i :: 0 <= i < n && i < |o.lines[q]| ==> r'.lines[q][i] == o.lines[q][i])
                  && (forall i :: |o.lines[q]| <= i < n ==> r'.lines[q][i] == |r.log|))
  {
  }

  /** When records go out: 10000 of them must be pending, and a link to 65535 holds up the rest. */
  lemma DumpedSpelled(file: seq<Written>, log: seq<Written>)
    requires |file| <= |log|
    ensures var out := Dumped(file, log);
            if |log| - |file| < 10000 then out == file
            else
              && |file| <= |out| <= |log| && out == file + log[|file|..|out|]
              && (forall k :: |file| <= k < |out| ==> !(log[k].op == Op.Link && log[k].stq == 65535))
              && (|out| < |log| ==> log[|out|].op == Op.Link && log[|out|].stq == 65535)
  {
  }

  /** The record of an operation carries its own time, cpu and state machine, and the number of its queue. */
  predicate Signed(w: Written, time: nat, cpu: nat, sm: nat, qi: nat) {
    w.time == time && w.cpu == cpu && w.sm == sm && w.stq == qi
  }

  lemma PutInLogged(r: Ref, name: Name, count: int, flag: bv8, time: nat, cpu: nat, sm: nat)
    requires r.Ok() && !r.stopped && Legal(r, PutIn(name, count, flag, time, cpu, sm))
    ensures var log' := Step(r, PutIn(name, count, flag, time, cpu, sm)).log;
            && |log'| == |r.log| + 1 && log'[..|r.log|] == r.log
            && var w := log'[|r.log|];
               Signed(w, time, cpu, sm, Place(r.names, name) + 1) && w.flag == flag && w.op == Queue && w.data == count
  {
  }

  /** Taking out fails exactly if there are too few bytes. */
  lemma TakeOutLogged(r: Ref, name: Name, count: int, flag: bv8, time: nat, cpu: nat, sm: nat)
    requires r.Ok() && !r.stopped && Legal(r, TakeOut(name, count, flag, time, cpu, sm))
    ensures var r' := Step(r, TakeOut(name, count, flag, time, cpu, sm));
            && (r'.stopped <==> count != -1 && count > |r.Opened(name).lines[Place(r.names, name)]|)
            && (r'.stopped ==> r'.log == r.log)
            && (!r'.stopped ==>
                  && |r'.log| == |r.log| + 1 && r'.log[..|r.log|] == r.log
                  && var w := r'.log[|r.log|];
                     Signed(w, time, cpu, sm, Place(r.names, name) + 1) && w.flag == flag && w.op == Dequeue && w.data == count)
  {
  }

  lemma SetSizeLogged(r: Ref, name: Name, size: int, flag: bv8, time: nat, cpu: nat, sm: nat)
    requires r.Ok() && !r.stopped && Legal(r, SetSize(name, size, flag, time, cpu, sm))
    ensures var log' := Step(r, SetSize(name, size, flag, time, cpu, sm)).log;
            && |r.log| <= |log'| <= |r.log| + 2 && log'[..|r.log|] == r.log
            && forall k :: |r.log| <= k < |log'| ==> Signed(log'[k], time, cpu, sm, Place(r.names, name) + 1)
  {
  }

  /** A link is logged with the target 65535, and later changes in its target only. */
  lemma LinkLogged(r: Ref, name: Name, time: nat, cpu: nat, sm: nat, smi: nat)
    requires r.Ok() && !r.stopped
    ensures name !in r.waiting ==>
              var log' := Step(r, LinkTo(name, time, cpu, sm)).log;
              && |log'| == |r.log| + 1 && log'[..|r.log|] == r.log
              && Signed(log'[|r.log|], time, cpu, sm, 65535) && log'[|r.log|].op == Op.Link
    ensures smi < 65535 ==>
              var r' := Step(r, Started(name, smi));
              && name !in r'.waiting
              && r'.log == if name in r.waiting then r.log[r.waiting[name] := r.log[r.waiting[name]].(stq := smi)] else r.log
  {
  }

  /** What each event writes: records other than links set off an ordinary dump, a link writes nothing, and a full dump,
      also the one before a stop, writes everything. */
  lemma FileAfter(r: Ref, e: Event)
    requires r.Ok() && !r.stopped && Legal(r, e) && |r.file| <= |r.log|
    ensures var r' := Step(r, e);
            match e
            case PutIn(_, _, _, _, _, _) => r'.file == Dumped(r.file, r'.log)
            case TakeOut(_, _, _, _, _, _) =>
              if r'.stopped then r'.file == r.file + r.log[|r.file|..] else r'.file == Dumped(r.file, r'.log)
            case SetSize(_, _, _, _, _, _) => r'.file == DumpedAll(r.file, r.log, r'.log[|r.log|..])
            case LinkTo(_, _, _, _) => r'.file == r.file
            case Started(_, _) => r'.file == r.file
            case Other(w) => r'.file == if w.op == Op.Link then r.file else Dumped(r.file, r'.log)
            case DumpSome => r'.file == Dumped(r.file, r.log)
            case DumpAll => r'.file == r.file + r.log[|r.file|..]
  {
    if e.SetSize? {
      var q := Place(r.names, e.name);
      var o := r.Opened(e.name);
      var more := SizeRecords(e.time, e.flag, e.cpu, e.sm, q + 1, |o.lines[q]|, e.size);
      assert (r.log + more)[|r.log|..] == more;
    }
  }
}
