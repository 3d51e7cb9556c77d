/** Whole runs of the annotator: every queue behaves like a line of bytes, each of which remembers
    the record that put it there, and the file is the log up to some point. */
module AnnotatorRuns {
  import opened ByteQueues
  import opened CriticalPath
  import opened Sequences

  /** Queue operations on a named queue, links to a state machine that has not started, starts of state machines, any
      other record, and the two ways to write records out. */
  datatype Event =
    | PutIn(name: Name, count: int, flag: bv8, time: nat, cpu: nat, sm: nat)
    | TakeOut(name: Name, count: int, flag: bv8, time: nat, cpu: nat, sm: nat)
    | SetSize(name: Name, size: int, flag: bv8, time: nat, cpu: nat, sm: nat)
    | LinkTo(name: Name, time: nat, cpu: nat, sm: nat)
    | Started(name: Name, smi: nat)
    | Other(w: Written)
    | DumpSome
    | DumpAll

  // ---------- the reference ----------

  /** The position of a name, or the next free one. */
  ghost function Place(names: seq<Name>, name: Name): (p: nat)
    ensures p <= |names|
  {
    if names == [] || names[0] == name then 0 else 1 + Place(names[1..], name)
  }

  lemma {:induction false} PlaceFound(names: seq<Name>, name: Name)
    ensures Place(names, name) < |names| <==> name in names
    ensures Place(names, name) < |names| ==> names[Place(names, name)] == name
    ensures Place(names + [name], name) == Place(names, name)
  {
    if names == [] {
      assert Place([name], name) == 0;
    } else {
      PlaceFound(names[1..], name);
      assert (names + [name])[1..] == names[1..] + [name];
    }
  }

  /** The log of all records, the file, the queues in order of first use with the log positions of their bytes' records, the
      links that wait, whether everything was written out while a link waited, and whether the annotator has
      stopped with a fatal error. */
  datatype Ref = Ref(log: seq<Written>, file: seq<Written>, names: seq<Name>, lines: seq<seq<int>>, waiting: map<Name, int>,
                     spoiled: bool, stopped: bool) {
    ghost predicate Ok() {
      && |names| == |lines| && Distinct(names)
      && (forall n :: n in waiting ==> 0 <= waiting[n] < |log|)
    }

    ghost function Opened(name: Name): (r: Ref)
      requires Ok()
      ensures r.Ok() && Place(r.names, name) == Place(names, name) < |r.lines| && r.stopped == stopped
    {
      PlaceFound(names, name);
      if Place(names, name) < |names| then this else this.(names := names + [name], lines := lines + [[]])
    }

    ghost function Logged(w: Written): (r: Ref)
      requires Ok()
      ensures r.Ok() && |r.lines| == |lines|
    {
      this.(log := log + [w], file := if w.op == Op.Link then file else Dumped(file, log + [w]))
    }

    ghost function Lining(q: nat, line: seq<int>): (r: Ref)
      requires Ok() && q < |lines|
      ensures r.Ok()
    {
      this.(lines := lines[q := line])
    }
  }

  /** The first `n` bytes, or as many new ones as are missing. */
  ghost function Fitted(line: seq<int>, n: int, at: int): seq<int> {
    if n > |line| then Joined(line, Copies(at, n - |line|), false) else line[..if n > 0 then n else 0]
  }

  /** The same, after a reset if the flag asks for one; `at` is the position of the next record. */
  ghost function Refitted(line: seq<int>, n: int, flag: bv8, at: int): seq<int> {
    if Resets(flag) then Fitted([], n, at + 1) else Fitted(line, n, at)
  }

  ghost predicate Fits(r: Ref, q: int, count: int) {
    0 <= q < |r.lines| && |r.lines[q]| + count < INT32
  }

  /** What the callers owe: positive counts, no more bytes than a 32-bit counter holds, no more queues than there are
      numbers, no second link under one name. */
  ghost predicate Legal(r: Ref, e: Event)
    requires r.Ok()
  {
    r.stopped ||
    match e
    case PutIn(name, count, _, _, _, _) =>
      && (Place(r.names, name) < |r.names| || |r.names| + 1 < UNKNOWN)
      && count > 0 && Fits(r.Opened(name), Place(r.names, name), count)
    case TakeOut(name, count, _, _, _, _) => (Place(r.names, name) < |r.names| || |r.names| + 1 < UNKNOWN) && (count == -1 || count > 0)
    case SetSize(name, size, _, _, _, _) => (Place(r.names, name) < |r.names| || |r.names| + 1 < UNKNOWN) && size < INT32
    case LinkTo(name, _, _, _) => name !in r.waiting
    case Started(_, smi) => smi < UNKNOWN
    case Other(w) => !Unresolved(w)
    case _ => true
  }

  ghost function Step(r: Ref, e: Event): (r': Ref)
    requires r.Ok() && Legal(r, e)
    ensures r'.Ok()
  {
    if r.stopped then r
    else
      match e
      case PutIn(name, count, flag, time, cpu, sm) =>
        PutInLine(r.Opened(name), Place(r.names, name), count, flag, time, cpu, sm)
      case TakeOut(name, count, flag, time, cpu, sm) =>
        TakeFromLine(r.Opened(name), Place(r.names, name), count, flag, time, cpu, sm)
      case SetSize(name, size, flag, time, cpu, sm) =>
        SizeLine(r.Opened(name), Place(r.names, name), size, flag, time, cpu, sm)
      case LinkTo(name, time, cpu, sm) => LinkMade(r, name, time, cpu, sm)
      case Started(name, smi) => LinkMet(r, name, smi)
      case Other(w) => r.Logged(w)
      case DumpSome => SomeWritten(r)
      case DumpAll => AllWritten(r)
  }

  ghost function PutInLine(r: Ref, q: nat, count: int, flag: bv8, time: nat, cpu: nat, sm: nat): (r': Ref)
    requires r.Ok() && q < |r.lines| && count > 0
    ensures r'.Ok() && r'.stopped == r.stopped
  {
    r.Logged(Written(time, count, sm, q + 1, Queue, flag, cpu))
     .Lining(q, Joined(r.lines[q], Copies(|r.log|, count), Stacked(flag)))
  }

  /** With too few bytes everything is written out and the annotator stops. */
  ghost function TakeFromLine(r: Ref, q: nat, count: int, flag: bv8, time: nat, cpu: nat, sm: nat): (r': Ref)
    requires r.Ok() && q < |r.lines| && (count == -1 || count > 0)
    ensures r'.Ok()
  {
    if count != -1 && count > |r.lines[q]| then AllWritten(r).(stopped := true)
    else
      r.Logged(Written(time, count, sm, q + 1, Dequeue, flag, cpu))
       .Lining(q, if count == -1 then [] else r.lines[q][count..])
  }

  ghost function SizeLine(r: Ref, q: nat, size: int, flag: bv8, time: nat, cpu: nat, sm: nat): (r': Ref)
    requires r.Ok() && q < |r.lines|
    ensures r'.Ok() && r'.stopped == r.stopped
  {
    var records := SizeRecords(time, flag, cpu, sm, q + 1, |r.lines[q]|, size);
    r.(log := r.log + records, file := DumpedAll(r.file, r.log, records))
     .Lining(q, Refitted(r.lines[q], size, flag, |r.log|))
  }

  ghost function LinkMade(r: Ref, name: Name, time: nat, cpu: nat, sm: nat): (r': Ref)
    requires r.Ok()
    ensures r'.Ok() && r'.stopped == r.stopped
  {
    r.Logged(Written(time, 0, sm, UNKNOWN, Op.Link, FL_NONE, cpu)).(waiting := r.waiting[name := |r.log|])
  }

  /** The link that waits for a state machine gets its target. */
  ghost function LinkMet(r: Ref, name: Name, smi: nat): (r': Ref)
    requires r.Ok()
    ensures r'.Ok() && r'.stopped == r.stopped
  {
    r.(log := Targeted(r.log, r.waiting, name, smi), waiting := r.waiting - {name})
  }

  ghost function Targeted(log: seq<Written>, waiting: map<Name, int>, name: Name, smi: nat): (log': seq<Written>)
    ensures |log'| == |log|
  {
    if name in waiting && 0 <= waiting[name] < |log| then log[waiting[name] := log[waiting[name]].(stq := smi)] else log
  }

  ghost function SomeWritten(r: Ref): (r': Ref)
    requires r.Ok()
    ensures r'.Ok() && r'.stopped == r.stopped
  {
    r.(file := Dumped(r.file, r.log))
  }

  /** The file once everything has been written. */
  ghost function WithRest(file: seq<Written>, log: seq<Written>): seq<Written> {
    if |log| < |file| then file else file + log[|file|..]
  }

  ghost function AllWritten(r: Ref): (r': Ref)
    requires r.Ok()
    ensures r'.Ok() && r'.stopped == r.stopped
  {
    r.(spoiled := r.spoiled || r.waiting != map[], file := WithRest(r.file, r.log))
  }

  // ---------- what the annotator shows ----------

  /** Byte i belongs to the record at position `line[i]` of the log. */
  ghost predicate Tagged(bytes: seq<AnnotateData>, created: seq<AnnotateData>, line: seq<int>) {
    && |line| == |bytes|
    && forall i :: 0 <= i < |line| ==> 0 <= line[i] < |created| && created[line[i]] == bytes[i]
  }

  /** A queue byte by byte. */
  ghost predicate Lined(q: seq<AnnotateData>, created: seq<AnnotateData>, line: seq<int>)
    reads q`data
  {
    Positive(q) && Tagged(Stream(q), created, line)
  }

  ghost predicate ShowsQueues(c: Cpa, lines: seq<seq<int>>)
    requires c.QueuesOk()
    reads c, c.created
  {
    && |lines| == |c.qData|
    && forall q {:trigger QueueShows(c, q, lines)} :: 0 <= q < |c.qData| ==> QueueShows(c, q, lines)
  }

  ghost predicate QueueShows(c: Cpa, q: int, lines: seq<seq<int>>)
    requires c.QueuesOk()
    reads c, c.created
  {
    0 <= q < |c.qData| && q < |lines| && c.QueueOk(q) && Lined(c.qData[q], c.created, lines[q])
  }

  /** The links that wait are at these positions of the log. */
  ghost predicate Placed(links: map<Name, AnnotateData>, created: seq<AnnotateData>, waiting: map<Name, int>) {
    && waiting.Keys == links.Keys
    && forall n :: n in waiting ==> 0 <= waiting[n] < |created| && created[waiting[n]] == links[n]
  }

  ghost predicate Shows(c: Cpa, r: Ref)
    reads c, c.created
  {
    && c.Valid() && r.Ok() && c.log == r.log && c.output == r.file && c.qMap == r.names
    && ShowsQueues(c, r.lines) && Placed(c.scLinks, c.created, r.waiting)
    && (Clean(c.output) <==> !r.spoiled) && (r.stopped ==> c.data == [])
  }

  // ---------- lines of bytes ----------

  lemma TaggedGrows(bytes: seq<AnnotateData>, created: seq<AnnotateData>, created': seq<AnnotateData>, line: seq<int>)
    requires Tagged(bytes, created, line) && created <= created'
    ensures Tagged(bytes, created', line)
  {
  }

  lemma TaggedParts(bytes: seq<AnnotateData>, created: seq<AnnotateData>, line: seq<int>, n: nat)
    requires Tagged(bytes, created, line) && n <= |bytes|
    ensures Tagged(bytes[..n], created, line[..n]) && Tagged(bytes[n..], created, line[n..])
  {
  }

  lemma TaggedJoined(a: seq<AnnotateData>, b: seq<AnnotateData>, created: seq<AnnotateData>, line: seq<int>, line': seq<int>)
    requires Tagged(a, created, line) && Tagged(b, created, line')
    ensures Tagged(a + b, created, line + line')
  {
  }

  lemma TaggedCopies(created: seq<AnnotateData>, at: int, n: nat)
    requires 0 <= at < |created|
    ensures Tagged(Copies(created[at], n), created, Copies(at, n))
  {
  }

  lemma NoBytes(created: seq<AnnotateData>)
    ensures Lined([], created, [])
  {
  }

  /** One more record at the front or at the back. */
  lemma OneMoreLined(q: seq<AnnotateData>, an: AnnotateData, created: seq<AnnotateData>, line: seq<int>, at: int, n: int, front: bool)
    requires Lined(q, created, line) && 0 <= at < |created| && created[at] == an && an.data == n > 0
    ensures Lined(Joined(q, [an], front), created, Joined(line, Copies(at, n), front))
  {
    OneMore(q, an);
    hide Stream, Positive, Copies;
    TaggedCopies(created, at, n);
    if front {
      TaggedJoined(Copies(an, n), Stream(q), created, Copies(at, n), line);
    } else {
      TaggedJoined(Stream(q), Copies(an, n), created, line, Copies(at, n));
    }
  }

  lemma LinedGrows(q: seq<AnnotateData>, created: seq<AnnotateData>, created': seq<AnnotateData>, line: seq<int>)
    requires Lined(q, created, line) && created <= created'
    ensures Lined(q, created', line)
  {
    hide Stream, Positive;
  }

  /** Bytes taken off the front or off the back. */
  lemma LinedDropped(q: seq<AnnotateData>, was: seq<AnnotateData>, created: seq<AnnotateData>, line: seq<int>, n: nat)
    requires Positive(q) && Tagged(was, created, line) && Dropped(was, Stream(q), n)
    ensures n <= |line| && Lined(q, created, line[n..])
  {
    TaggedParts(was, created, line, n);
    hide Stream, Positive;
  }

  lemma LinedKept(q: seq<AnnotateData>, was: seq<AnnotateData>, created: seq<AnnotateData>, line: seq<int>, n: nat)
    requires Positive(q) && Tagged(was, created, line) && Kept(was, Stream(q), n)
    ensures n <= |line| && Lined(q, created, line[..n])
  {
    TaggedParts(was, created, line, n);
    hide Stream, Positive;
  }

  /** Records whose amounts have not changed still spell the same bytes. */
  twostate lemma StreamKept(q: seq<AnnotateData>)
    requires old(Positive(q)) && forall i :: 0 <= i < |q| ==> q[i].data == old(q[i].data)
    ensures Positive(q) && Stream(q) == old(Stream(q))
  {
    assert Amounts(q) == old(Amounts(q));
  }

  lemma ShowsAt(c: Cpa, r: Ref, q: nat)
    requires Shows(c, r) && q < |r.lines|
    ensures |c.qData| == |c.qBytes| == |r.lines| && c.QueueOk(q) && Lined(c.qData[q], c.created, r.lines[q])
    ensures |c.created| == |c.log| && |c.qMap| == |c.qData|
    ensures c.qBytes[q] == |r.lines[q]| && (forall i :: 0 <= i < |c.qData[q]| ==> c.qData[q][i] in c.repr)
  {
    assert QueueShows(c, q, r.lines);
    assert c.QueueOk(q);
  }

  /** The lines of an annotator before, and the one that changes. */
  datatype Change = Change(c: Cpa, lines: seq<seq<int>>, q: int, line: seq<int>)

  /** All queues but one have kept their records and amounts, and that one shows its new line. */
  twostate lemma QueuesShown(ch: Change)
    requires old(ch.c.QueuesOk()) && ch.c.QueuesOk() && old(ShowsQueues(ch.c, ch.lines)) && old(ch.c.created) <= ch.c.created
    requires 0 <= ch.q < |ch.lines| == |ch.c.qData| && ch.c.qData == old(ch.c.qData)[ch.q := ch.c.qData[ch.q]]
    requires Lined(ch.c.qData[ch.q], ch.c.created, ch.line)
    requires forall x :: x in old(ch.c.created) && x !in old(ch.c.qData)[ch.q] ==> x.data == old(x.data)
    ensures ShowsQueues(ch.c, ch.lines[ch.q := ch.line])
  {
    var c, lines' := ch.c, ch.lines[ch.q := ch.line];
    forall p | 0 <= p < |c.qData|
      ensures QueueShows(c, p, lines')
    {
      assert c.QueueOk(p);
      if p != ch.q {
        var s := old(c.qData)[p];
        assert old(QueueShows(c, p, ch.lines)) && old(c.QueueOk(p)) && old(c.QueueOk(ch.q));
        assert forall i :: 0 <= i < |s| ==> s[i].data == old(s[i].data);
        StreamKept(s);
      }
    }
  }

  /** Opening a queue. */
  method Open(c: Cpa, name: Name, ghost r: Ref) returns (q: nat)
    requires Shows(c, r) && (Place(r.names, name) < |r.names| || |r.names| + 1 < UNKNOWN)
    modifies c
    ensures Shows(c, r.Opened(name)) && c.created == old(c.created) && c.repr == old(c.repr)
    ensures q == Place(r.names, name) < |r.Opened(name).lines|
  {
    PlaceFound(r.names, name);
    hide Cpa.LogOk, Cpa.LinksOk, Cpa.MirrorOk, OneToOne;
    var qi := c.GetQ(name);
    q := qi - 1;
    QueueOpened(Change(c, r.lines, 0, []));
  }

  twostate lemma QueueOpened(ch: Change)
    requires old(ch.c.QueuesOk()) && ch.c.QueuesOk() && old(ShowsQueues(ch.c, ch.lines)) && old(ch.c.created) <= ch.c.created
    requires ch.c.qData == old(ch.c.qData) || ch.c.qData == old(ch.c.qData) + [[]]
    requires forall x :: x in old(ch.c.created) ==> x.data == old(x.data)
    ensures ShowsQueues(ch.c, if ch.c.qData == old(ch.c.qData) then ch.lines else ch.lines + [[]])
  {
    var c := ch.c;
    var lines' := if c.qData == old(c.qData) then ch.lines else ch.lines + [[]];
    forall p | 0 <= p < |c.qData|
      ensures QueueShows(c, p, lines')
    {
      assert c.QueueOk(p);
      if p < |ch.lines| {
        var s := old(c.qData)[p];
        assert old(QueueShows(c, p, ch.lines)) && old(c.QueueOk(p));
        StreamKept(s);
      } else {
        NoBytes(c.created);
      }
    }
  }

  // ---------- the operations, one by one ----------

  lemma CleanBefore(a: seq<Written>, b: seq<Written>)
    requires a <= b && Clean(b)
    ensures Clean(a)
  {
  }

  /** One queue operation in the reference. */
  datatype Move = Move(c: Cpa, before: Ref, after: Ref, q: int)

  /** What is left to show after an operation on queue `q` that adds to the log. */
  twostate lemma Moved(m: Move)
    requires old(Shows(m.c, m.before)) && m.c.Valid() && !m.before.stopped && 0 <= m.q < |m.before.lines|
    requires old(m.c.created) <= m.c.created && m.c.log == m.after.log && |m.before.log| <= |m.after.log|
    requires m.c.output == m.after.file
    requires m.c.scLinks == old(m.c.scLinks) && m.c.qMap == old(m.c.qMap)
    requires |m.c.qData| == |m.before.lines| && m.c.qData == old(m.c.qData)[m.q := m.c.qData[m.q]]
    requires |m.after.lines| == |m.before.lines|
    requires m.after == m.before.(log := m.after.log, file := m.after.file, lines := m.before.lines[m.q := m.after.lines[m.q]])
    requires Lined(m.c.qData[m.q], m.c.created, m.after.lines[m.q])
    requires forall x :: x in old(m.c.created) && x !in old(m.c.qData)[m.q] ==> x.data == old(x.data)
    requires old(m.c.output) <= m.c.output && (Clean(old(m.c.output)) ==> Clean(m.c.output))
    ensures Shows(m.c, m.after)
  {
    hide Cpa.LogOk, Cpa.LinksOk, Cpa.QueuesOk, Cpa.NamesOk, Cpa.MirrorOk, Lined, Clean, ShowsQueues;
    QueuesShown(Change(m.c, m.before.lines, m.q, m.after.lines[m.q]));
    if Clean(m.c.output) {
      CleanBefore(old(m.c.output), m.c.output);
    }
  }

  method PutRecord(c: Cpa, q: nat, count: int, flag: bv8, time: nat, cpu: nat, sm: nat, ghost line: seq<int>)
    requires c.Valid() && q < |c.qData| && count > 0 && 0 <= c.qBytes[q] + count < INT32 && Lined(c.qData[q], c.created, line)
    modifies c`data, c`created, c`log, c`repr, c`output, c`qSize, c`qBytes, c`qData
    ensures c.Valid() && c.log == old(c.log) + [Written(time, count, sm, q + 1, Queue, flag, cpu)]
    ensures old(c.created) <= c.created && old(c.output) <= c.output && (Clean(old(c.output)) ==> Clean(c.output))
    ensures |c.qData| == |old(c.qData)| && c.qData == old(c.qData)[q := c.qData[q]] && fresh(c.repr - old(c.repr))
    ensures Lined(c.qData[q], c.created, Joined(line, Copies(|old(c.log)|, count), Stacked(flag)))
    ensures c.output == Dumped(old(c.output), c.log)
  {
    ghost var s := c.qData[q];
    assert |c.created| == |c.log|;
    hide Joined, Lined, Clean, Stacked, Copies, Dumped, Cpa.Valid;
    var an := c.DoQ(time, flag, cpu, sm, q + 1, count);
    LinedGrows(s, old(c.created), c.created, line);
    OneMoreLined(s, an, c.created, line, |old(c.log)|, count, Stacked(flag));
  }

  method PutInQueue(c: Cpa, q: nat, count: int, flag: bv8, time: nat, cpu: nat, sm: nat, ghost r: Ref)
    requires Shows(c, r) && !r.stopped && q < |r.lines| && count > 0 && Fits(r, q, count)
    modifies c
    ensures Shows(c, PutInLine(r, q, count, flag, time, cpu, sm)) && fresh(c.repr - old(c.repr))
  {
    ShowsAt(c, r, q);
    assert c.Valid() && c.log == r.log && c.output == r.file && r.Ok();
    hide Place, Ref.Ok, Shows, Lined, Clean, Dumped, DumpedAll, Cpa.LogOk, Cpa.LinksOk, Cpa.QueuesOk, Cpa.NamesOk, Cpa.MirrorOk;
    PutRecord(c, q, count, flag, time, cpu, sm, r.lines[q]);
    Moved(Move(c, r, PutInLine(r, q, count, flag, time, cpu, sm), q));
  }

  method TakeRecord(c: Cpa, q: nat, count: int, flag: bv8, time: nat, cpu: nat, sm: nat, ghost line: seq<int>) returns (ok: bool)
    requires c.Valid() && q < |c.qData| && (count == -1 || count > 0) && Lined(c.qData[q], c.created, line) && c.qBytes[q] == |line|
    modifies c`data, c`created, c`log, c`repr, c`output, c`qSize, c`qBytes, c`qData, c.qData[q]`data
    ensures c.Valid() && old(c.output) <= c.output && (ok <==> count == -1 || count <= |line|)
    ensures ok ==> c.log == old(c.log) + [Written(time, count, sm, q + 1, Dequeue, flag, cpu)] && fresh(c.repr - old(c.repr))
    ensures ok ==> old(c.created) <= c.created && (Clean(old(c.output)) ==> Clean(c.output))
    ensures |c.qData| == |old(c.qData)| && (ok ==> c.qData == old(c.qData)[q := c.qData[q]])
    ensures ok ==> Lined(c.qData[q], c.created, if count == -1 then [] else line[count..])
    ensures ok ==> c.output == Dumped(old(c.output), c.log)
    ensures !ok ==> c.created == old(c.created) && c.log == old(c.log) && c.repr == old(c.repr) && c.data == [] && c.qData == old(c.qData)
    ensures !ok ==> forall k :: |old(c.output)| <= k < |c.output| ==> c.output[k] == c.created[k].Image()
    ensures !ok ==> unchanged(old(c.qData)[q]`data)
  {
    ghost var was := Stream(c.qData[q]);
    assert |c.qBytes| == |c.qData|;
    hide Clean, Cpa.Valid, Positive, Stream, Dropped, Dumped;
    var an;
    ok, an := c.DoDq(time, flag, cpu, sm, q + 1, count);
    if ok {
      TaggedGrows(was, old(c.created), c.created, line);
      if count == -1 {
        NoBytes(c.created);
      } else {
        LinedDropped(c.qData[q], was, c.created, line, count);
      }
    }
  }

  lemma Counted(c: Cpa)
    requires c.Valid()
    ensures |c.created| == |c.log| && |c.qData| == |c.qBytes| == |c.qMap|
  {
  }

  /** A queue that a new record has made longer. */
  lemma LengthenedLine(c: Cpa, q: nat, s: seq<AnnotateData>, line: seq<int>, at: int, n: int)
    requires q < |c.qData| && |c.created| == at + 1 && Lined(s, c.created, line) && c.Lengthened(q + 1, s, n) && n > 0
    ensures Lined(c.qData[q], c.created, Joined(line, Copies(at, n), false))
  {
    OneMoreLined(s, c.created[at], c.created, line, at, n, false);
  }

  /** Setting the size of a queue of `bytes` bytes. */
  method SizeBytes(c: Cpa, q: nat, size: int, flag: bv8, time: nat, cpu: nat, sm: nat, ghost bytes: int)
    requires c.Valid() && q < |c.qData| && size < INT32 && c.qBytes[q] == bytes
    modifies c`data, c`created, c`log, c`repr, c`output, c`qSize, c`qBytes, c`qData, c.qData[q]`data
    ensures c.Valid() && old(c.output) <= c.output && (Clean(old(c.output)) ==> Clean(c.output))
    ensures c.log == old(c.log) + SizeRecords(time, flag, cpu, sm, q + 1, bytes, size)
    ensures c.output == DumpedAll(old(c.output), old(c.log), SizeRecords(time, flag, cpu, sm, q + 1, bytes, size))
    ensures old(c.created) <= c.created && fresh(c.repr - old(c.repr))
    ensures |c.qData| == |old(c.qData)| && c.qData == old(c.qData)[q := c.qData[q]]
    ensures Resets(flag) ==> if size > 0 then c.Lengthened(q + 1, [], size) else c.qData[q] == []
    ensures !Resets(flag) && bytes < size ==>
              c.Lengthened(q + 1, old(c.qData)[q], size - bytes) && unchanged(old(c.qData)[q]`data)
    ensures !Resets(flag) && bytes >= size && old(Positive(c.qData[q])) ==>
              Positive(c.qData[q]) && Kept(old(Stream(c.qData[q])), Stream(c.qData[q]), if size > 0 then size else 0)
  {
    hide Clean, Dumped, DumpedAll, Positive, Stream, Kept, SizeRecords, Cpa.Lengthened, Cpa.LogOk, Cpa.LinksOk, Cpa.NamesOk, Cpa.MirrorOk;
    c.SizeQ(time, flag, cpu, sm, q + 1, size);
  }

  datatype Fit = Fit(c: Cpa, q: nat, size: int, flag: bv8, line: seq<int>, at: int)

  /** The line of a queue whose size has been set. */
  twostate lemma FittedLine(f: Fit)
    requires f.q < |old(f.c.qData)| && f.q < |f.c.qData| && old(Lined(f.c.qData[f.q], f.c.created, f.line))
    requires old(f.c.created) <= f.c.created && f.at == |old(f.c.created)|
    requires Resets(f.flag) ==> if f.size > 0 then f.c.Lengthened(f.q + 1, [], f.size) else f.c.qData[f.q] == []
    requires Resets(f.flag) && f.size > 0 ==> |f.c.created| == f.at + 2
    requires !Resets(f.flag) && |f.line| < f.size ==>
               && f.c.Lengthened(f.q + 1, old(f.c.qData)[f.q], f.size - |f.line|)
               && unchanged(old(f.c.qData)[f.q]`data) && |f.c.created| == f.at + 1
    requires !Resets(f.flag) && |f.line| >= f.size ==>
               && Positive(f.c.qData[f.q])
               && Kept(old(Stream(f.c.qData[f.q])), Stream(f.c.qData[f.q]), if f.size > 0 then f.size else 0)
    ensures Lined(f.c.qData[f.q], f.c.created, Refitted(f.line, f.size, f.flag, f.at))
  {
    var c, q, line := f.c, f.q, f.line;
    var s, was := old(c.qData)[q], old(Stream(c.qData[q]));
    hide Positive, Stream, Kept, Resets, Joined, Cpa.Lengthened, Copies, Tagged;
    if Resets(f.flag) {
      NoBytes(c.created);
      if f.size > 0 {
        LengthenedLine(c, q, [], [], f.at + 1, f.size);
      }
    } else if |line| < f.size {
      LinedGrows(s, old(c.created), c.created, line);
      LengthenedLine(c, q, s, line, f.at, f.size - |line|);
    } else {
      TaggedGrows(was, old(c.created), c.created, line);
      LinedKept(c.qData[q], was, c.created, line, if f.size > 0 then f.size else 0);
    }
  }

  method SizeRecord(c: Cpa, q: nat, size: int, flag: bv8, time: nat, cpu: nat, sm: nat, ghost line: seq<int>)
    requires c.Valid() && q < |c.qData| && size < INT32 && Lined(c.qData[q], c.created, line) && c.qBytes[q] == |line|
    modifies c`data, c`created, c`log, c`repr, c`output, c`qSize, c`qBytes, c`qData, c.qData[q]`data
    ensures c.Valid() && old(c.output) <= c.output && (Clean(old(c.output)) ==> Clean(c.output))
    ensures c.log == old(c.log) + SizeRecords(time, flag, cpu, sm, q + 1, |line|, size)
    ensures c.output == DumpedAll(old(c.output), old(c.log), SizeRecords(time, flag, cpu, sm, q + 1, |line|, size))
    ensures old(c.created) <= c.created && fresh(c.repr - old(c.repr))
    ensures |c.qData| == |old(c.qData)| && c.qData == old(c.qData)[q := c.qData[q]]
    ensures Lined(c.qData[q], c.created, Refitted(line, size, flag, |old(c.log)|))
  {
    ghost var records := SizeRecords(time, flag, cpu, sm, q + 1, |line|, size);
    assert Resets(flag) && size > 0 ==> |records| == 2;
    assert !Resets(flag) && size > |line| ==> |records| == 1;
    assert Positive(c.qData[q]);
    Counted(c);
    hide SizeRecords, Clean, Dumped, DumpedAll, Cpa.Valid, Positive, Stream, Kept, Resets, Cpa.Lengthened, Lined, Refitted;
    SizeBytes(c, q, size, flag, time, cpu, sm, |line|);
    Counted(c);
    FittedLine(Fit(c, q, size, flag, line, |old(c.log)|));
  }

  // ---------- writing everything out ----------

  lemma WaitingShows(c: Cpa)
    requires c.LogOk() && c.LinksOk() && c.data == [] && c.scLinks != map[]
    ensures !Clean(c.output)
  {
    var n :| n in c.scLinks;
    var k :| 0 <= k < |c.created| && c.created[k] == c.scLinks[n];
    assert |c.output| == |c.created| && Wrote(c.output[k], c.created[k]) && Unresolved(c.created[k].Image());
    assert Unresolved(c.output[k]);
  }

  lemma NoneWaiting(c: Cpa, before: seq<Written>)
    requires c.LogOk() && c.LinksOk() && c.scLinks == map[] && before <= c.output && Clean(before)
    requires forall k :: |before| <= k < |c.output| ==> c.output[k] == c.created[k].Image()
    ensures Clean(c.output)
  {
    forall k | 0 <= k < |c.output|
      ensures !Unresolved(c.output[k])
    {
      if k < |before| {
        assert c.output[k] == before[k];
      } else {
        assert c.created[k] in c.created && c.created[k].dump;
      }
    }
  }

  /** Writing everything out spoils the file exactly if a link waits. */
  lemma AllOut(c: Cpa, before: seq<Written>)
    requires c.LogOk() && c.LinksOk() && c.data == [] && before <= c.output
    requires forall k :: |before| <= k < |c.output| ==> c.output[k] == c.created[k].Image()
    ensures Clean(c.output) <==> Clean(before) && c.scLinks == map[]
  {
    hide Clean;
    if c.scLinks != map[] {
      WaitingShows(c);
    } else if Clean(before) {
      NoneWaiting(c, before);
    } else if Clean(c.output) {
      CleanBefore(before, c.output);
    }
  }

  lemma RestOut(c: Cpa, before: seq<Written>)
    requires c.LogOk() && c.MirrorOk() && c.data == [] && before <= c.output
    requires forall k :: |before| <= k < |c.output| ==> c.output[k] == c.created[k].Image()
    ensures c.output == WithRest(before, c.log)
  {
    assert |c.output| == |c.log|;
  }

  /** Everything has been written out, whether or not a link still waits. */
  twostate lemma Forced(m: Move)
    requires old(Shows(m.c, m.before)) && m.c.Valid()
    requires m.c.created == old(m.c.created) && m.c.log == old(m.c.log) && m.c.scLinks == old(m.c.scLinks)
    requires m.c.qMap == old(m.c.qMap) && m.c.qData == old(m.c.qData) && m.c.data == []
    requires forall x :: x in m.c.created ==> x.data == old(x.data)
    requires old(m.c.output) <= m.c.output
    requires forall k :: |old(m.c.output)| <= k < |m.c.output| ==> m.c.output[k] == m.c.created[k].Image()
    requires m.after == AllWritten(m.before).(stopped := m.after.stopped)
    ensures Shows(m.c, m.after)
  {
    hide Cpa.LogOk, Cpa.LinksOk, Cpa.QueuesOk, Cpa.NamesOk, Cpa.MirrorOk, Clean, ShowsQueues;
    AllOut(m.c, old(m.c.output));
    RestOut(m.c, old(m.c.output));
    QueueOpened(Change(m.c, m.before.lines, 0, []));
  }

  method TakeFromQueue(c: Cpa, q: nat, count: int, flag: bv8, time: nat, cpu: nat, sm: nat, ghost r: Ref) returns (ok: bool)
    requires Shows(c, r) && !r.stopped && q < |r.lines| && (count == -1 || count > 0)
    modifies c, c.repr
    ensures Shows(c, TakeFromLine(r, q, count, flag, time, cpu, sm)) && fresh(c.repr - old(c.repr))
    ensures ok <==> !TakeFromLine(r, q, count, flag, time, cpu, sm).stopped
  {
    ShowsAt(c, r, q);
    assert c.Valid() && c.log == r.log && c.output == r.file && r.Ok();
    hide Place, Ref.Ok, Shows, Lined, Clean, Dumped, DumpedAll, Cpa.LogOk, Cpa.LinksOk, Cpa.QueuesOk, Cpa.NamesOk, Cpa.MirrorOk;
    ok := TakeRecord(c, q, count, flag, time, cpu, sm, r.lines[q]);
    ghost var m := Move(c, r, TakeFromLine(r, q, count, flag, time, cpu, sm), q);
    if ok {
      Moved(m);
    } else {
      Forced(m);
    }
  }

  method SizeQueue(c: Cpa, q: nat, size: int, flag: bv8, time: nat, cpu: nat, sm: nat, ghost r: Ref)
    requires Shows(c, r) && !r.stopped && q < |r.lines| && size < INT32
    modifies c, c.repr
    ensures Shows(c, SizeLine(r, q, size, flag, time, cpu, sm)) && fresh(c.repr - old(c.repr))
  {
    ShowsAt(c, r, q);
    assert c.Valid() && c.log == r.log && c.output == r.file && r.Ok();
    hide Place, Ref.Ok, Shows, Lined, Clean, Dumped, DumpedAll, Refitted, SizeRecords, Cpa.LogOk, Cpa.LinksOk, Cpa.QueuesOk, Cpa.NamesOk, Cpa.MirrorOk;
    SizeRecord(c, q, size, flag, time, cpu, sm, r.lines[q]);
    Moved(Move(c, r, SizeLine(r, q, size, flag, time, cpu, sm), q));
  }

  // ---------- links, other records and dumps ----------

  /** The queues are as they were, and so is the file if it is clean. */
  twostate lemma Beside(m: Move)
    requires old(Shows(m.c, m.before)) && m.c.Valid() && !m.before.stopped && m.after.Ok()
    requires old(m.c.created) <= m.c.created && m.c.qMap == old(m.c.qMap) && m.c.qData == old(m.c.qData)
    requires forall x :: x in old(m.c.created) ==> x.data == old(x.data)
    requires old(m.c.output) <= m.c.output && (Clean(old(m.c.output)) ==> Clean(m.c.output))
    requires m.c.log == m.after.log && m.c.output == m.after.file && Placed(m.c.scLinks, m.c.created, m.after.waiting)
    requires m.after == m.before.(log := m.after.log, file := m.after.file, waiting := m.after.waiting)
    ensures Shows(m.c, m.after)
  {
    hide Cpa.LogOk, Cpa.LinksOk, Cpa.QueuesOk, Cpa.NamesOk, Cpa.MirrorOk, Clean, ShowsQueues;
    QueueOpened(Change(m.c, m.before.lines, 0, []));
    if Clean(m.c.output) {
      CleanBefore(old(m.c.output), m.c.output);
    }
  }

  lemma LinkAdded(links: map<Name, AnnotateData>, created: seq<AnnotateData>, waiting: map<Name, int>,
                  name: Name, an: AnnotateData, at: int)
    requires Placed(links, created, waiting) && at == |created|
    ensures Placed(links[name := an], created + [an], waiting[name := at])
  {
  }

  lemma LinkRemoved(links: map<Name, AnnotateData>, created: seq<AnnotateData>, waiting: map<Name, int>, name: Name)
    requires Placed(links, created, waiting)
    ensures Placed(links - {name}, created, waiting - {name})
  {
  }

  lemma LinkFound(links: map<Name, AnnotateData>, created: seq<AnnotateData>, waiting: map<Name, int>, name: Name, at: nat)
    requires Placed(links, created, waiting) && Distinct(created) && name in links && at < |created| && created[at] == links[name]
    ensures name in waiting && waiting[name] == at
  {
  }

  method Link(c: Cpa, name: Name, time: nat, cpu: nat, sm: nat, ghost r: Ref)
    requires Shows(c, r) && !r.stopped && name !in r.waiting
    modifies c
    ensures Shows(c, LinkMade(r, name, time, cpu, sm)) && fresh(c.repr - old(c.repr))
  {
    Counted(c);
    hide Clean, Cpa.LogOk, Cpa.LinksOk, Cpa.QueuesOk, Cpa.NamesOk, Cpa.MirrorOk, ShowsQueues;
    assert name !in c.scLinks;
    hide Placed, Ref.Ok;
    var an := c.SyscallLink(time, cpu, sm, name);
    LinkAdded(old(c.scLinks), old(c.created), r.waiting, name, an, |r.log|);
    Beside(Move(c, r, LinkMade(r, name, time, cpu, sm), 0));
  }

  method ResolveLink(c: Cpa, name: Name, smi: nat, ghost waiting: map<Name, int>)
    requires c.Valid() && smi < UNKNOWN && Placed(c.scLinks, c.created, waiting)
    modifies c`scLinks, c`log, c.created`stq, c.created`dump
    ensures c.Valid() && c.log == Targeted(old(c.log), waiting, name, smi) && Placed(c.scLinks, c.created, waiting - {name})
  {
    Counted(c);
    assert name in c.scLinks <==> name in waiting;
    assert Distinct(c.created);
    hide Cpa.LogOk, Cpa.LinksOk, Cpa.QueuesOk, Cpa.NamesOk, Cpa.MirrorOk, Placed, Distinct;
    ghost var at := c.Resolve(name, smi);
    LinkRemoved(old(c.scLinks), c.created, waiting, name);
    if name in waiting {
      Counted(c);
      LinkFound(old(c.scLinks), c.created, waiting, name, at);
    }
  }

  method Start(c: Cpa, name: Name, smi: nat, ghost r: Ref)
    requires Shows(c, r) && !r.stopped && smi < UNKNOWN
    modifies c, c.repr
    ensures Shows(c, LinkMet(r, name, smi)) && c.repr == old(c.repr)
  {
    assert forall k :: 0 <= k < |c.created| ==> c.created[k] in c.repr;
    hide Clean, Cpa.LogOk, Cpa.LinksOk, Cpa.QueuesOk, Cpa.NamesOk, Cpa.MirrorOk, ShowsQueues, Placed, Targeted, Ref.Ok;
    ResolveLink(c, name, smi, r.waiting);
    Beside(Move(c, r, LinkMet(r, name, smi), 0));
  }

  method Record(c: Cpa, w: Written, ghost r: Ref)
    requires Shows(c, r) && !r.stopped && !Unresolved(w)
    modifies c
    ensures Shows(c, r.Logged(w)) && fresh(c.repr - old(c.repr))
  {
    hide Clean, Cpa.LogOk, Cpa.LinksOk, Cpa.QueuesOk, Cpa.NamesOk, Cpa.MirrorOk, ShowsQueues;
    var an := c.Note(w.time, w.op, w.flag, w.cpu, w.sm, w.stq, w.data);
    Beside(Move(c, r, r.Logged(w), 0));
  }

  method Write(c: Cpa, all: bool, ghost r: Ref)
    requires Shows(c, r) && !r.stopped
    modifies c
    ensures Shows(c, if all then AllWritten(r) else SomeWritten(r)) && c.repr == old(c.repr)
  {
    hide Clean, Dumped, Cpa.LogOk, Cpa.LinksOk, Cpa.QueuesOk, Cpa.NamesOk, Cpa.MirrorOk, ShowsQueues;
    if all {
      c.Dump(true);
      Forced(Move(c, r, AllWritten(r), 0));
    } else {
      c.DumpSome();
      Beside(Move(c, r, SomeWritten(r), 0));
    }
  }

  // ---------- whole runs ----------

  method DoPutIn(c: Cpa, e: Event, ghost r: Ref)
    requires Shows(c, r) && !r.stopped && Legal(r, e) && e.PutIn?
    modifies c
    ensures Shows(c, Step(r, e)) && fresh(c.repr - old(c.repr))
  {
    assert r.Ok();
    ghost var o, p := r.Opened(e.name), Place(r.names, e.name);
    assert Fits(o, p, e.count) && !o.stopped && (Place(r.names, e.name) < |r.names| || |r.names| + 1 < UNKNOWN);
    assert Step(r, e) == PutInLine(o, p, e.count, e.flag, e.time, e.cpu, e.sm);
    hide Shows, Ref.Ok, Ref.Opened, Place, Fits, PutInLine, Legal, Step;
    var q := Open(c, e.name, r);
    PutInQueue(c, q, e.count, e.flag, e.time, e.cpu, e.sm, o);
  }

  method DoTakeOut(c: Cpa, e: Event, ghost r: Ref) returns (ok: bool)
    requires Shows(c, r) && !r.stopped && Legal(r, e) && e.TakeOut?
    modifies c, c.repr
    ensures Shows(c, Step(r, e)) && fresh(c.repr - old(c.repr)) && (ok <==> !Step(r, e).stopped)
  {
    assert r.Ok();
    ghost var o, p := r.Opened(e.name), Place(r.names, e.name);
    assert p < |o.lines| && !o.stopped && (Place(r.names, e.name) < |r.names| || |r.names| + 1 < UNKNOWN);
    assert Step(r, e) == TakeFromLine(o, p, e.count, e.flag, e.time, e.cpu, e.sm);
    hide Shows, Ref.Ok, Ref.Opened, Place, TakeFromLine, Step;
    var q := Open(c, e.name, r);
    ok := TakeFromQueue(c, q, e.count, e.flag, e.time, e.cpu, e.sm, o);
  }

  method DoSetSize(c: Cpa, e: Event, ghost r: Ref)
    requires Shows(c, r) && !r.stopped && Legal(r, e) && e.SetSize?
    modifies c, c.repr
    ensures Shows(c, Step(r, e)) && fresh(c.repr - old(c.repr))
  {
    assert r.Ok();
    ghost var o, p := r.Opened(e.name), Place(r.names, e.name);
    assert p < |o.lines| && !o.stopped && e.size < INT32 && (Place(r.names, e.name) < |r.names| || |r.names| + 1 < UNKNOWN);
    assert Step(r, e) == SizeLine(o, p, e.size, e.flag, e.time, e.cpu, e.sm);
    hide Shows, Ref.Ok, Ref.Opened, Place, SizeLine, Legal, Step;
    var q := Open(c, e.name, r);
    SizeQueue(c, q, e.size, e.flag, e.time, e.cpu, e.sm, o);
  }

  /** One event; false: the annotator has stopped. */
  method Do(c: Cpa, e: Event, ghost r: Ref) returns (ok: bool)
    requires Shows(c, r) && !r.stopped && Legal(r, e)
    modifies c, c.repr
    ensures Shows(c, Step(r, e)) && fresh(c.repr - old(c.repr)) && (ok <==> !Step(r, e).stopped)
  {
    assert r.Ok();
    hide Shows, Ref.Ok, Ref.Opened, Place, PutInLine, TakeFromLine, SizeLine, LinkMade, LinkMet, AllWritten, SomeWritten;
    ok := true;
    match e
    case PutIn(_, _, _, _, _, _) => DoPutIn(c, e, r);
    case TakeOut(_, _, _, _, _, _) => ok := DoTakeOut(c, e, r);
    case SetSize(_, _, _, _, _, _) => DoSetSize(c, e, r);
    case LinkTo(name, time, cpu, sm) => Link(c, name, time, cpu, sm, r);
    case Started(name, smi) => Start(c, name, smi, r);
    case Other(w) => Record(c, w, r);
    case DumpSome => Write(c, false, r);
    case DumpAll => Write(c, true, r);
  }

  ghost predicate LegalRun(events: seq<Event>)
    decreases |events|, 0
  {
    events == [] ||
    var n := |events| - 1;
    LegalRun(events[..n]) && Legal(Run(events[..n]), events[n])
  }

  ghost function Run(events: seq<Event>): (r: Ref)
    requires LegalRun(events)
    ensures r.Ok()
    decreases |events|, 1
  {
    if events == [] then Ref([], [], [], [], map[], false, false)
    else
      var n := |events| - 1;
      Step(Run(events[..n]), events[n])
  }

  lemma {:induction false} LegalPrefix(events: seq<Event>, k: nat)
    requires LegalRun(events) && k < |events|
    ensures LegalRun(events[..k]) && Legal(Run(events[..k]), events[k])
    ensures LegalRun(events[..k + 1]) && Run(events[..k + 1]) == Step(Run(events[..k]), events[k])
  {
    var n := |events| - 1;
    if k == n {
      assert events[..k + 1] == events;
    } else {
      LegalPrefix(events[..n], k);
      assert events[..n][..k] == events[..k] && events[..n][..k + 1] == events[..k + 1];
    }
  }

  /** One event of a run, unless the annotator has stopped. */
  method DoNext(c: Cpa, e: Event, ok: bool, ghost r: Ref) returns (ok': bool)
    requires Shows(c, r) && Legal(r, e) && (ok <==> !r.stopped)
    modifies c, c.repr
    ensures Shows(c, Step(r, e)) && fresh(c.repr - old(c.repr)) && (ok' <==> !Step(r, e).stopped)
  {
    ok' := ok;
    assert r.stopped ==> Step(r, e) == r;
    hide Shows, Legal, Step;
    if ok {
      ok' := Do(c, e, r);
    }
  }

  method NewRun() returns (c: Cpa)
    ensures fresh(c) && c.repr == {} && Shows(c, Run([]))
  {
    c := new Cpa();
  }

  method RunAll(events: seq<Event>) returns (c: Cpa)
    requires LegalRun(events)
    ensures fresh(c) && Shows(c, Run(events))
  {
    c := NewRun();
    assert events[..0] == [];
    ghost var r := Run(events[..0]);
    assert !r.stopped;
    var i, ok := 0, true;
    hide Shows, Legal, Step, Ref.Ok, LegalRun, Run;
    while i < |events|
      invariant 0 <= i <= |events| && LegalRun(events[..i]) && r == Run(events[..i])
      invariant Shows(c, r) && (ok <==> !r.stopped) && fresh(c) && fresh(c.repr)
    {
      LegalPrefix(events, i);
      ok := DoNext(c, events[i], ok, r);
      r := Step(r, events[i]);
      i := i + 1;
    }
    assert events[..i] == events;
  }

  // ---------- what a run leaves behind ----------

  /** A queue's records, how many bytes each still stands for, and the queue's two counters. */
  datatype Contents = Contents(records: seq<Written>, amounts: seq<int>, size: int, bytes: int)

  /** Byte i of the queue belongs to record `line[i]` of the log, no record is left without bytes, and the counters are
      the number of records and of bytes. */
  ghost predicate Spells(q: Contents, log: seq<Written>, line: seq<int>) {
    && q.size == |q.records| == |q.amounts| && q.bytes == Total(q.amounts) == |line| && AllPositive(q.amounts)
    && forall i :: 0 <= i < |line| ==> 0 <= line[i] < |log| && Spread(q.records, q.amounts)[i] == log[line[i]]
  }

  /** The same record, or a link that went out before its target was known. */
  ghost predicate WrittenFrom(w: Written, logged: Written) {
    w == logged || (Unresolved(w) && w.(stq := logged.stq) == logged)
  }

  method Images(s: seq<AnnotateData>) returns (w: seq<Written>)
    ensures |w| == |s| && forall i :: 0 <= i < |s| ==> w[i] == s[i].Image()
  {
    w := [];
    for k := 0 to |s|
      invariant |w| == k && forall i :: 0 <= i < k ==> w[i] == s[i].Image()
    {
      w := w + [s[k].Image()];
    }
  }

  method Counts(s: seq<AnnotateData>) returns (a: seq<int>)
    ensures a == Amounts(s)
  {
    a := [];
    for k := 0 to |s|
      invariant |a| == k && forall i :: 0 <= i < k ==> a[i] == s[i].data
    {
      a := a + [s[k].data];
    }
  }

  lemma {:induction false} SpreadImages(q: seq<AnnotateData>, w: seq<Written>, a: seq<int>, k: nat)
    requires |q| == |w| == |a| && NonNegative(a) && k < Total(a)
    requires forall i :: 0 <= i < |q| ==> w[i] == q[i].Image()
    ensures Spread(w, a)[k] == Spread(q, a)[k].Image()
  {
    if a == [] {
    } else if k >= a[0] {
      SpreadImages(q[1..], w[1..], a[1..], k - a[0]);
    }
  }

  method ReadQueue(c: Cpa, q: nat, ghost line: seq<int>) returns (out: Contents)
    requires c.MirrorOk() && |c.qSize| == |c.qBytes| == |c.qData| && q < |c.qData| && c.QueueOk(q)
    requires Lined(c.qData[q], c.created, line)
    ensures Spells(out, c.log, line)
  {
    var w := Images(c.qData[q]);
    var a := Counts(c.qData[q]);
    out := Contents(w, a, c.qSize[q], c.qBytes[q]);
    forall i | 0 <= i < |line|
      ensures 0 <= line[i] < |c.log| && Spread(w, a)[i] == c.log[line[i]]
    {
      SpreadImages(c.qData[q], w, a, i);
    }
  }

  method ReadQueues(c: Cpa, ghost r: Ref) returns (queues: seq<Contents>)
    requires Shows(c, r)
    ensures |queues| == |r.lines| && forall q :: 0 <= q < |queues| ==> Spells(queues[q], r.log, r.lines[q])
  {
    queues := [];
    assert |c.qSize| == |c.qBytes| == |c.qData| == |r.lines| && c.MirrorOk() && c.log == r.log;
    hide Spells, Lined, Cpa.QueueOk;
    for q := 0 to |c.qData|
      invariant |queues| == q && forall p :: 0 <= p < q ==> Spells(queues[p], r.log, r.lines[p])
    {
      ShowsAt(c, r, q);
      var out := ReadQueue(c, q, r.lines[q]);
      queues := queues + [out];
    }
  }

  lemma FileRead(c: Cpa, r: Ref)
    requires Shows(c, r)
    ensures c.output == r.file && |c.output| <= |r.log| && (Clean(c.output) <==> !r.spoiled)
    ensures forall k :: 0 <= k < |c.output| ==> WrittenFrom(c.output[k], r.log[k])
    ensures !r.spoiled ==> c.output == r.log[..|c.output|]
    ensures |c.data| == |r.log| - |c.output| && forall k :: 0 <= k < |c.data| ==> c.data[k].Image() == r.log[|c.output| + k]
    ensures c.qMap == r.names && (r.stopped ==> c.data == [])
  {
    forall k | 0 <= k < |c.output|
      ensures WrittenFrom(c.output[k], r.log[k])
    {
      assert Wrote(c.output[k], c.created[k]);
    }
  }

  /** Any run, on any queues, with links, starts and dumps. */
  method Simulate(events: seq<Event>) returns (file: seq<Written>, pending: seq<Written>, names: seq<Name>, queues: seq<Contents>)
    requires LegalRun(events)
    ensures var r := Run(events);
            && file == r.file && |file| <= |r.log| && pending == r.log[|file|..]
            && (forall k :: 0 <= k < |file| ==> WrittenFrom(file[k], r.log[k]))
            && (Clean(file) <==> !r.spoiled) && (!r.spoiled ==> file == r.log[..|file|]) && (r.stopped ==> pending == [])
            && names == r.names && |queues| == |r.lines|
            && (forall q :: 0 <= q < |queues| ==> Spells(queues[q], r.log, r.lines[q]))
  {
    hide Shows, Clean, WrittenFrom, Spells, Run;
    var c := RunAll(events);
    ghost var r := Run(events);
    file, names := c.output, c.qMap;
    pending := Images(c.data);
    queues := ReadQueues(c, r);
    FileRead(c, r);
  }
}
