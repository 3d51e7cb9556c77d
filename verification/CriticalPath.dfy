/** The critical-path annotator: queues that account for their bytes, and an output log
    that stalls behind links whose target is not known yet. Queues and log share records. */
module CriticalPath {
  import opened ByteQueues
  import opened Sequences

  datatype Op = Begin | WaitEmpty | WaitFull | Queue | Dequeue | SizeQueue | Peek | Link | Ident | Reserve

  const FL_NONE: bv8 := 0x00
  const FL_QOPP: bv8 := 0x04
  const FL_RESET: bv8 := 0x20

  /** New bytes go to the front and so leave first. */
  predicate Stacked(flag: bv8) {
    flag & FL_QOPP != 0
  }

  /** What is in the queue goes before its size is set. */
  predicate Resets(flag: bv8) {
    flag & FL_RESET != 0
  }

  /** The target of a link whose state machine has not started yet. */
  const UNKNOWN := 0xFFFF

  const DUMP_LIMIT := 10000

  /** Queue sizes are signed 32-bit numbers. */
  const INT32 := 0x8000_0000

  /** A record as it is written to the output file. */
  datatype Written = Written(time: nat, data: int, sm: nat, stq: nat, op: Op, flag: bv8, cpu: nat)

  class AnnotateData {
    const time: nat
    const origData: int
    const sm: nat
    const op: Op
    const flag: bv8
    const cpu: nat
    var data: int
    var stq: nat
    var dump: bool

    constructor (time: nat, data: int, sm: nat, stq: nat, op: Op, flag: bv8, cpu: nat)
      ensures this.time == time && this.origData == this.data == data && this.sm == sm && this.stq == stq
      ensures this.op == op && this.flag == flag && this.cpu == cpu && dump
    {
      this.time, this.origData, this.data, this.sm, this.stq := time, data, data, sm, stq;
      this.op, this.flag, this.cpu, dump := op, flag, cpu, true;
    }

    function Image(): Written
      reads this`stq
    {
      Written(time, origData, sm, stq, op, flag, cpu)
    }
  }

  /** What setting a queue of `bytes` bytes to a size leaves in the log. */
  function ResizeRecord(time: nat, cpu: nat, sm: nat, qi: nat, bytes: int, size: int): seq<Written> {
    if bytes < size then [Written(time, size - bytes, sm, qi, Queue, FL_NONE, cpu)]
    else if bytes > size then [Written(time, size, sm, qi, SizeQueue, FL_NONE, cpu)]
    else []
  }

  /** The same, with a reset first if the flag asks for one. */
  function SizeRecords(time: nat, flag: bv8, cpu: nat, sm: nat, qi: nat, bytes: int, size: int): seq<Written> {
    if Resets(flag) then
      [Written(time, 0, sm, qi, SizeQueue, FL_NONE, cpu)] + ResizeRecord(time, cpu, sm, qi, 0, size)
    else ResizeRecord(time, cpu, sm, qi, bytes, size)
  }

  // ---------- queues ----------

  /** New elements at the front or at the back. */
  function Joined<T>(line: seq<T>, more: seq<T>, front: bool): seq<T> {
    if front then more + line else line + more
  }

  /** What each record of a queue still stands for. */
  ghost function Amounts(q: seq<AnnotateData>): (a: seq<int>)
    reads q`data
    ensures |a| == |q| && forall i :: 0 <= i < |q| ==> a[i] == q[i].data
  {
    if q == [] then [] else
      var rest := Amounts(q[1..]);
      assert forall i :: 1 <= i < |q| ==> rest[i - 1] == q[1..][i - 1].data == q[i].data;
      [q[0].data] + rest
  }

  ghost function Bytes(q: seq<AnnotateData>): int
    reads q`data
  {
    Total(Amounts(q))
  }

  ghost predicate Positive(q: seq<AnnotateData>)
    reads q`data
  {
    AllPositive(Amounts(q))
  }

  /** The queue byte by byte. */
  ghost function Stream(q: seq<AnnotateData>): (s: seq<AnnotateData>)
    requires Positive(q)
    reads q`data
    ensures |s| == Bytes(q)
  {
    Spread(q, Amounts(q))
  }

  /** `after` is `before` without its first `n` bytes. */
  ghost predicate Dropped(before: seq<AnnotateData>, after: seq<AnnotateData>, n: int) {
    0 <= n <= |before| && after == before[n..]
  }

  /** `after` is the first `n` bytes of `before`. */
  ghost predicate Kept(before: seq<AnnotateData>, after: seq<AnnotateData>, n: int) {
    0 <= n <= |before| && after == before[..n]
  }

  ghost predicate Within(a: seq<AnnotateData>, b: seq<AnnotateData>) {
    forall r :: r in a ==> r in b
  }

  /** Take `count` bytes off the front; a record may be left with part of its bytes. */
  method TakeFront(q: seq<AnnotateData>, count: int) returns (rest: seq<AnnotateData>, size: int)
    requires Distinct(q) && 0 < count <= Bytes(q)
    modifies q`data
    ensures size == |rest| && Distinct(rest) && Within(rest, q)
    ensures Bytes(rest) == old(Bytes(q)) - count
    ensures old(Positive(q)) ==> Positive(rest) && Dropped(old(Stream(q)), Stream(rest), count)
  {
    hide Total, Spread, Amounts;
    ghost var a := Amounts(q);
    ghost var k := 0;
    rest, size := q, |q|;
    var need := count;
    assert a[0..] == a && q[0..] == q;
    while true
      invariant 0 <= k <= |q| && rest == q[k..] && size == |rest| && need > 0
      invariant Total(a[k..]) - need == Total(a) - count
      invariant NonNegative(a) ==> Spread(q[k..], a[k..])[need..] == Spread(q, a)[count..]
      invariant unchanged(q)
      decreases |rest|
    {
      assert size > 0 by { if k == |q| { EmptyTotal(a[k..]); } }
      TotalHead(a, k);
      if NonNegative(a) { SkipHead(q, a, k, need); }
      var headBytes := rest[0].data;
      assert headBytes == a[k];
      if headBytes > need {
        TotalTrimmed(a, k, need);
        rest[0].data := rest[0].data - need;
        assert Amounts(rest) == a[k..][0 := a[k] - need];
        return;
      } else if headBytes == need {
        rest, size, k := rest[1..], size - 1, k + 1;
        assert Amounts(rest) == a[k..] && a[k..][0..] == a[k..];
        return;
      } else {
        rest, size, k := rest[1..], size - 1, k + 1;
        need := need - headBytes;
      }
    }
  }

  /** Take `count` bytes off the back. */
  method TakeBack(q: seq<AnnotateData>, count: int) returns (rest: seq<AnnotateData>, size: int)
    requires Distinct(q) && 0 < count <= Bytes(q)
    modifies q`data
    ensures size == |rest| <= |q| && rest == q[..size]
    ensures Bytes(rest) == old(Bytes(q)) - count
    ensures old(Positive(q)) ==> Positive(rest) && Kept(old(Stream(q)), Stream(rest), old(Bytes(q)) - count)
  {
    hide Total, Spread, Amounts;
    ghost var a := Amounts(q);
    ghost var keep := Total(a) - count;
    ghost var kept := if NonNegative(a) then Spread(q, a)[..keep] else [];
    rest, size := q, |q|;
    var need := count;
    assert a[..size] == a && q[..size] == q;
    while true
      invariant 0 <= size <= |q| && rest == q[..size] && need > 0
      invariant Total(a[..size]) == keep + need
      invariant NonNegative(a) ==> Spread(q[..size], a[..size])[..keep] == kept
      invariant unchanged(q)
      decreases size
    {
      assert size > 0 by { if size == 0 { EmptyTotal(a[..size]); } }
      BackStep(q, a, size - 1, keep, need);
      var tailBytes := rest[size - 1].data;
      assert tailBytes == a[size - 1];
      if tailBytes > need {
        rest[size - 1].data := rest[size - 1].data - need;
        assert Amounts(rest) == a[..size][size - 1 := a[size - 1] - need];
        return;
      }
      size := size - 1;
      rest := rest[..size];
      assert rest == q[..size];
      if tailBytes == need {
        assert Amounts(rest) == a[..size];
        assert NonNegative(a) ==> Spread(rest, a[..size])[..keep] == Spread(rest, a[..size]);
        return;
      }
      need := need - tailBytes;
    }
  }

  /** One more record at the back or at the front. */
  lemma OneMore(q: seq<AnnotateData>, r: AnnotateData)
    ensures Bytes(q + [r]) == Bytes([r] + q) == Bytes(q) + r.data
    ensures Positive(q) && r.data > 0 ==> Positive(q + [r]) && Stream(q + [r]) == Stream(q) + Copies(r, r.data)
    ensures Positive(q) && r.data > 0 ==> Positive([r] + q) && Stream([r] + q) == Copies(r, r.data) + Stream(q)
  {
    var a := Amounts(q);
    assert Amounts(q + [r]) == a + [r.data] && Amounts([r] + q) == [r.data] + a;
    TotalConcat(a, [r.data]);
    TotalConcat([r.data], a);
    if AllPositive(a) && r.data > 0 {
      SpreadConcat(q, a, [r], [r.data]);
      SpreadConcat([r], [r.data], q, a);
      assert Spread([r], [r.data]) == Copies(r, r.data);
    }
  }

  lemma FrontPart(q: seq<AnnotateData>, n: nat)
    requires Distinct(q) && n <= |q|
    ensures Distinct(q[..n]) && Within(q[..n], q)
  {
  }

  lemma EmptyTotal(a: seq<int>)
    requires a == []
    ensures Total(a) == 0
  {
  }

  // ---------- the annotator ----------

  /** A record was written as it was created; only a link that was forced out early lacks its target. */
  ghost predicate Wrote(w: Written, r: AnnotateData)
    reads r`stq
  {
    w.(stq := r.stq) == r.Image() && (w.stq == r.stq || Unresolved(w))
  }

  predicate Unresolved(w: Written) {
    w.op == Link && w.stq == UNKNOWN
  }

  /** No link was written without its target. */
  ghost predicate Clean(output: seq<Written>) {
    forall k :: 0 <= k < |output| ==> !Unresolved(output[k])
  }

  /** Where an ordinary dump that starts at `from` holds: at the first link without its target. */
  function Stop(log: seq<Written>, from: nat): (n: nat)
    requires from <= |log|
    ensures from <= n <= |log| && (forall k :: from <= k < n ==> !Unresolved(log[k])) && (n < |log| ==> Unresolved(log[n]))
    decreases |log| - from
  {
    if from == |log| || Unresolved(log[from]) then from else Stop(log, from + 1)
  }

  /** The file after an ordinary dump. */
  function Dumped(file: seq<Written>, log: seq<Written>): seq<Written> {
    if |log| < |file| + DUMP_LIMIT then file else file + log[|file|..Stop(log, |file|)]
  }

  /** The file after records other than links, each of which sets off a dump. */
  function DumpedAll(file: seq<Written>, log: seq<Written>, more: seq<Written>): seq<Written>
    decreases |more|
  {
    if more == [] then file else DumpedAll(Dumped(file, log + [more[0]]), log + [more[0]], more[1..])
  }

  lemma StopIs(log: seq<Written>, from: nat, n: nat)
    requires from <= n <= |log| && (forall k :: from <= k < n ==> !Unresolved(log[k])) && (n < |log| ==> Unresolved(log[n]))
    ensures Stop(log, from) == n
  {
  }

  lemma DumpedOne(file: seq<Written>, log: seq<Written>, w: Written)
    ensures DumpedAll(file, log, [w]) == Dumped(file, log + [w])
  {
    assert [w][1..] == [];
  }

  /** What setting the size adds to log and file, case by case. */
  lemma ResizeRecords(file: seq<Written>, log: seq<Written>, time: nat, cpu: nat, sm: nat, qi: nat, bytes: int, size: int)
    ensures var more := ResizeRecord(time, cpu, sm, qi, bytes, size);
            && (bytes < size ==> more == [Written(time, size - bytes, sm, qi, Queue, FL_NONE, cpu)])
            && (bytes == size ==> more == [] && DumpedAll(file, log, more) == file)
            && (bytes > size ==>
                  && more == [Written(time, size, sm, qi, SizeQueue, FL_NONE, cpu)]
                  && DumpedAll(file, log, more) == Dumped(file, log + more))
  {
    DumpedOne(file, log, Written(time, size, sm, qi, SizeQueue, FL_NONE, cpu));
  }

  lemma DumpedFirst(file: seq<Written>, log: seq<Written>, w: Written, more: seq<Written>)
    ensures DumpedAll(file, log, [w] + more) == DumpedAll(Dumped(file, log + [w]), log + [w], more)
  {
    assert ([w] + more)[1..] == more;
  }

  /** A queue or state machine: system, name and instance. */
  type Name = (nat, string, nat)

  /** Names and numbers are in one-to-one correspondence; 0 stands for a name without a number. */
  ghost predicate OneToOne(cache: map<Name, nat>, names: seq<Name>) {
    && (forall n :: n in cache && cache[n] != 0 ==> cache[n] <= |names| && names[cache[n] - 1] == n)
    && (forall i :: 0 <= i < |names| ==> names[i] in cache && cache[names[i]] == i + 1)
  }

  function Number(cache: map<Name, nat>, name: Name): nat {
    if name in cache then cache[name] else 0
  }

  /** A name has a number exactly when it was given one, and a new one keeps the correspondence. */
  lemma Intern(cache: map<Name, nat>, names: seq<Name>, name: Name)
    requires OneToOne(cache, names)
    ensures Number(cache, name) != 0 <==> name in names
    ensures Number(cache, name) != 0 ==> Number(cache, name) <= |names| && names[Number(cache, name) - 1] == name
    ensures name !in names ==> OneToOne(cache[name := |names| + 1], names + [name])
  {
    if name in names {
      var i :| 0 <= i < |names| && names[i] == name;
      assert cache[names[i]] == i + 1;
    }
  }

  class Cpa {
    var data: seq<AnnotateData>            // records not written yet
    var output: seq<Written>               // the file
    var scLinks: map<Name, AnnotateData>   // links that wait for their target
    var qCache: map<Name, nat>
    var qMap: seq<Name>
    var qSize: seq<int>
    var qBytes: seq<int>
    var qData: seq<seq<AnnotateData>>
    ghost var created: seq<AnnotateData>   // all records in order of creation
    ghost var log: seq<Written>            // the same as values
    ghost var repr: set<AnnotateData>

    ghost predicate LogOk()
      reads this`data, this`output, this`created, created`stq, created`dump
    {
      && Distinct(created) && |output| <= |created| && data == created[|output|..]
      && (forall r :: r in created ==> (r.dump <==> !Unresolved(r.Image())))
      && forall k :: 0 <= k < |output| ==> Wrote(output[k], created[k])
    }

    /** Exactly the links without a target wait, each under its own name. */
    ghost predicate LinksOk()
      reads this`scLinks, this`created, created`dump
    {
      && (forall n :: n in scLinks ==> scLinks[n] in created && !scLinks[n].dump)
      && (forall m, n :: m in scLinks && n in scLinks && scLinks[m] == scLinks[n] ==> m == n)
      && (forall r :: r in created && !r.dump ==> exists n :: n in scLinks && scLinks[n] == r)
    }

    ghost predicate QueueOk(q: nat)
      requires q < |qData| && |qSize| == |qBytes| == |qData|
      reads this`qSize, this`qBytes, this`qData, this`created, created`data, created`stq
    {
      && InQueue(qData[q], q + 1) && qSize[q] == |qData[q]|
      && qBytes[q] == Bytes(qData[q]) >= 0
    }

    /** Different enqueue records, all of this queue. */
    ghost predicate InQueue(records: seq<AnnotateData>, qi: nat)
      reads this`created, created`stq
    {
      && Distinct(records)
      && (forall i :: 0 <= i < |records| ==> records[i] in created)
      && (forall i :: 0 <= i < |records| ==> records[i].op == Queue && records[i].stq == qi)
    }

    lemma OneMoreInQueue(records: seq<AnnotateData>, an: AnnotateData, qi: nat)
      requires InQueue(records, qi) && an in created && an !in records && an.op == Queue && an.stq == qi
      ensures InQueue(records + [an], qi) && InQueue([an] + records, qi)
    {
    }

    ghost predicate QueuesOk()
      reads this`qSize, this`qBytes, this`qData, this`created, created`data, created`stq
    {
      |qSize| == |qBytes| == |qData| && forall q :: 0 <= q < |qData| ==> QueueOk(q)
    }

    ghost predicate NamesOk()
      reads this`qCache, this`qMap, this`qData
    {
      |qMap| == |qData| < UNKNOWN && OneToOne(qCache, qMap)
    }

    /** The log says what the records are. */
    ghost predicate MirrorOk()
      reads this`log, this`repr, this`created, created`stq
    {
      && |log| == |created|
      && (forall k :: 0 <= k < |created| ==> log[k] == created[k].Image())
      && (forall k :: 0 <= k < |created| ==> created[k] in repr)
    }

    ghost predicate Valid()
      reads this, created
    {
      LogOk() && LinksOk() && QueuesOk() && NamesOk() && MirrorOk()
    }

    constructor ()
      ensures Valid() && created == [] && log == [] && repr == {} && output == [] && qData == [] && scLinks == map[] && qMap == []
    {
      data, output, scLinks, qCache, qMap := [], [], map[], map[], [];
      qSize, qBytes, qData, created, log, repr := [], [], [], [], [], {};
    }

    // ---------- the log ----------

    /** Write pending records in order; hold at the first that cannot be written, unless all must go. */
    method Dump(all: bool)
      requires LogOk()
      modifies this`data, this`output
      ensures LogOk() && old(output) <= output
      ensures !all && |old(data)| < DUMP_LIMIT ==> output == old(output)
      ensures all ==> data == []
      ensures !all && |old(data)| >= DUMP_LIMIT ==> data == [] || !data[0].dump
      ensures !all && Clean(old(output)) ==> Clean(output)
      ensures forall k :: |old(output)| <= k < |output| ==> output[k] == created[k].Image() && (all || created[k].dump)
    {
      if |data| == 0 {
        return;
      }
      if !all && |data| < DUMP_LIMIT {
        return;
      }
      var i := 0;
      ghost var start := |output|;
      while i < |data|
        invariant 0 <= i <= |data| && |output| == start + i <= |created| && old(output) <= output
        invariant data == old(data) == created[start..]
        invariant forall k :: 0 <= k < |output| ==> Wrote(output[k], created[k])
        invariant !all && Clean(old(output)) ==> Clean(output)
        invariant forall k :: start <= k < |output| ==> output[k] == created[k].Image() && (all || created[k].dump)
      {
        var an := data[i];
        assert an == created[|output|];
        if !an.dump && !all {
          break;
        }
        output := output + [an.Image()];
        i := i + 1;
      }
      data := data[i..];
    }

    /** Queues only depend on the bytes of their records. */
    twostate lemma QueuesKept()
      requires old(QueuesOk()) && old(created) <= created
      requires qSize == old(qSize) && qBytes == old(qBytes) && qData == old(qData)
      requires forall r :: r in old(created) && r.op == Queue ==> r.data == old(r.data) && r.stq == old(r.stq)
      ensures QueuesOk()
    {
      forall q | 0 <= q < |qData|
        ensures QueueOk(q)
      {
        assert old(QueueOk(q));
        BytesKept(qData[q]);
      }
    }

    static twostate lemma BytesKept(q: seq<AnnotateData>)
      requires forall i :: 0 <= i < |q| ==> q[i].data == old(q[i].data)
      ensures Bytes(q) == old(Bytes(q))
    {
      assert Amounts(q) == old(Amounts(q));
    }

    method Append(time: nat, op: Op, flag: bv8, cpu: nat, sm: nat, stq: nat, d: int) returns (an: AnnotateData)
      requires LogOk() && LinksOk() && MirrorOk() && !(op == Link && stq == UNKNOWN)
      modifies this`data, this`created, this`log, this`repr
      ensures fresh(an) && an.Image() == Written(time, d, sm, stq, op, flag, cpu) && an.data == d
      ensures LogOk() && LinksOk() && MirrorOk() && created == old(created) + [an] && output == old(output)
      ensures log == old(log) + [Written(time, d, sm, stq, op, flag, cpu)] && repr == old(repr) + {an}
    {
      an := new AnnotateData(time, d, sm, stq, op, flag, cpu);
      data := data + [an];
      created := created + [an];
      log, repr := log + [an.Image()], repr + {an};
    }

    /** What a dump leaves behind, as a function of the file before and the log. */
    lemma DumpExact(before: seq<Written>)
      requires LogOk() && MirrorOk() && before <= output
      requires |log| < |before| + DUMP_LIMIT ==> output == before
      requires |log| >= |before| + DUMP_LIMIT ==> data == [] || !data[0].dump
      requires forall k :: |before| <= k < |output| ==> output[k] == created[k].Image() && created[k].dump
      ensures output == Dumped(before, log)
    {
      if |log| >= |before| + DUMP_LIMIT {
        forall k | |before| <= k < |output|
          ensures !Unresolved(log[k])
        {
          assert created[k] in created;
        }
        if |output| < |log| {
          assert data[0] == created[|output|] && created[|output|] in created;
        }
        StopIs(log, |before|, |output|);
        assert forall k :: |before| <= k < |output| ==> output[k] == log[k];
      }
    }

    /** An ordinary dump. */
    method DumpSome()
      requires LogOk() && MirrorOk()
      modifies this`data, this`output
      ensures LogOk() && old(output) <= output && (Clean(old(output)) ==> Clean(output))
      ensures output == Dumped(old(output), log)
    {
      assert |data| == |log| - |output|;
      hide Clean, Dumped, Cpa.LogOk, Cpa.MirrorOk;
      Dump(false);
      DumpExact(old(output));
    }

    /** Add a record; everything but a link may set off the output. */
    method Add(time: nat, op: Op, flag: bv8, cpu: nat, sm: nat, stq: nat, d: int) returns (an: AnnotateData)
      requires LogOk() && LinksOk() && MirrorOk() && !(op == Link && stq == UNKNOWN)
      modifies this`data, this`created, this`log, this`repr, this`output
      ensures LogOk() && LinksOk() && MirrorOk() && fresh(an) && an.Image() == Written(time, d, sm, stq, op, flag, cpu) && an.data == d
      ensures log == old(log) + [Written(time, d, sm, stq, op, flag, cpu)] && repr == old(repr) + {an}
      ensures created == old(created) + [an] && old(output) <= output && (Clean(old(output)) ==> Clean(output))
      ensures output == if op == Link then old(output) else Dumped(old(output), log)
    {
      an := Append(time, op, flag, cpu, sm, stq, d);
      hide Cpa.LinksOk, Cpa.MirrorOk, Cpa.LogOk, Clean, Dumped;
      if an.op != Link {
        DumpSome();
      }
    }

    /** A new link waits for its target. */
    twostate lemma LinkWaits(name: Name, new an: AnnotateData)
      requires old(LinksOk()) && created == old(created) + [an] && an !in old(created) && !an.dump
      requires name !in old(scLinks) && scLinks == old(scLinks)[name := an]
      requires forall r :: r in old(created) ==> r.dump == old(r.dump)
      ensures LinksOk()
    {
      forall r | r in created && !r.dump
        ensures exists n :: n in scLinks && scLinks[n] == r
      {
        if r == an {
          assert scLinks[name] == an;
        } else {
          var n :| n in old(scLinks) && old(scLinks)[n] == r;
          assert n in scLinks && scLinks[n] == r;
        }
      }
    }

    /** A link without a target joins the log and may not be written. */
    method AppendLink(time: nat, cpu: nat, sm: nat) returns (an: AnnotateData)
      requires LogOk() && MirrorOk()
      modifies this`data, this`created, this`log, this`repr
      ensures LogOk() && MirrorOk() && fresh(an) && !an.dump && created == old(created) + [an]
      ensures an.Image() == Written(time, 0, sm, UNKNOWN, Link, FL_NONE, cpu)
      ensures log == old(log) + [Written(time, 0, sm, UNKNOWN, Link, FL_NONE, cpu)] && repr == old(repr) + {an}
    {
      an := new AnnotateData(time, 0, sm, UNKNOWN, Link, FL_NONE, cpu);
      data := data + [an];
      an.dump := false;
      created := created + [an];
      log, repr := log + [an.Image()], repr + {an};
    }

    /** Record a link to a state machine that has not started yet. */
    method SyscallLink(time: nat, cpu: nat, sm: nat, name: Name) returns (an: AnnotateData)
      requires Valid() && name !in scLinks
      modifies this`data, this`created, this`log, this`repr, this`scLinks
      ensures Valid() && fresh(an) && created == old(created) + [an] && scLinks == old(scLinks)[name := an]
      ensures an.Image() == Written(time, 0, sm, UNKNOWN, Link, FL_NONE, cpu)
      ensures log == old(log) + [Written(time, 0, sm, UNKNOWN, Link, FL_NONE, cpu)] && repr == old(repr) + {an}
    {
      hide Cpa.QueuesOk, Cpa.LinksOk, Cpa.NamesOk, Cpa.MirrorOk, Cpa.LogOk;
      an := AppendLink(time, cpu, sm);
      scLinks := scLinks[name := an];
      QueuesKept();
      LinkWaits(name, an);
    }

    /** A link that has got its target no longer waits. */
    twostate lemma LinkGone(name: Name)
      requires old(LinksOk()) && created == old(created) && name in old(scLinks) && scLinks == old(scLinks) - {name}
      requires forall r :: r in created && r != old(scLinks)[name] ==> r.dump == old(r.dump)
      requires old(scLinks)[name].dump
      ensures LinksOk()
    {
      forall r | r in created && !r.dump
        ensures exists n :: n in scLinks && scLinks[n] == r
      {
        var n :| n in old(scLinks) && old(scLinks)[n] == r;
        assert n != name;
        assert n in scLinks && scLinks[n] == r;
      }
    }

    /** Giving a link its target keeps the log in order. */
    method Retarget(an: AnnotateData, smi: nat) returns (ghost at: nat)
      requires LogOk() && MirrorOk() && an in created && an.op == Link && an.stq == UNKNOWN && smi < UNKNOWN
      modifies this`log, an`stq, an`dump
      ensures LogOk() && MirrorOk() && an.stq == smi && an.dump
      ensures at < |log| && created[at] == an && log == old(log)[at := old(log)[at].(stq := smi)]
    {
      at :| 0 <= at < |created| && created[at] == an;
      an.stq := smi;
      an.dump := true;
      log := log[at := log[at].(stq := smi)];
      forall k | 0 <= k < |output|
        ensures Wrote(output[k], created[k])
      {
        assert old(Wrote(output[k], created[k]));
      }
    }

    method Release(an: AnnotateData, smi: nat) returns (ghost at: nat)
      requires LogOk() && MirrorOk() && QueuesOk() && an in created && an.op == Link && an.stq == UNKNOWN && smi < UNKNOWN
      modifies this`log, an`stq, an`dump
      ensures LogOk() && MirrorOk() && QueuesOk() && an.stq == smi && an.dump
      ensures at < |log| && created[at] == an && log == old(log)[at := old(log)[at].(stq := smi)]
    {
      hide Cpa.QueuesOk, Cpa.LogOk, Cpa.MirrorOk;
      at := Retarget(an, smi);
      QueuesKept();
    }

    /** A state machine starts: the link that waits for it, if any, gets its target. */
    method Resolve(name: Name, smi: nat) returns (ghost at: nat)
      requires Valid() && smi < UNKNOWN
      modifies this`scLinks, this`log, created`stq, created`dump
      ensures Valid() && scLinks == old(scLinks) - {name}
      ensures name in old(scLinks) ==>
                && at < |log| && created[at] == old(scLinks)[name] && log == old(log)[at := old(log)[at].(stq := smi)]
                && created[at].stq == smi && created[at].dump
      ensures name !in old(scLinks) ==> log == old(log)
      ensures forall r :: r in created && !(name in old(scLinks) && r == old(scLinks)[name]) ==>
                r.stq == old(r.stq) && r.dump == old(r.dump)
    {
      at := 0;
      assert name in scLinks ==> scLinks[name] in created && Unresolved(scLinks[name].Image());
      hide Cpa.QueuesOk, Cpa.LinksOk, Cpa.NamesOk, Cpa.LogOk, Cpa.MirrorOk;
      if name in scLinks {
        var an := scLinks[name];
        scLinks := scLinks - {name};
        at := Release(an, smi);
        LinkGone(name);
      }
    }

    // ---------- queue operations ----------

    /** The number of a queue, given out on first use. */
    method GetQ(name: Name) returns (qi: nat)
      requires Valid() && (|qMap| + 1 < UNKNOWN || name in qMap)
      modifies this`qCache, this`qMap, this`qSize, this`qBytes, this`qData
      ensures Valid() && 1 <= qi <= |qMap| && qMap[qi - 1] == name
      ensures if name in old(qMap) then qMap == old(qMap) && qData == old(qData) && qBytes == old(qBytes)
              else qMap == old(qMap) + [name] && qData == old(qData) + [[]] && qBytes == old(qBytes) + [0]
    {
      Intern(qCache, qMap, name);
      qi := Number(qCache, name);
      if qi == 0 {
        hide OneToOne, Cpa.QueuesOk, Cpa.LogOk, Cpa.LinksOk, Cpa.MirrorOk;
        qi := |qMap| + 1;
        qCache := qCache[name := qi];
        qMap := qMap + [name];
        AddQueue();
      }
    }

    method AddQueue()
      requires QueuesOk()
      modifies this`qSize, this`qBytes, this`qData
      ensures QueuesOk() && qData == old(qData) + [[]] && qBytes == old(qBytes) + [0]
    {
      hide Cpa.QueuesOk;
      qSize, qBytes, qData := qSize + [0], qBytes + [0], qData + [[]];
      QueueAdded();
    }

    twostate lemma QueueAdded()
      requires old(QueuesOk()) && created == old(created) && forall r :: r in created ==> r.data == old(r.data) && r.stq == old(r.stq)
      requires qSize == old(qSize) + [0] && qBytes == old(qBytes) + [0] && qData == old(qData) + [[]]
      ensures QueuesOk()
    {
      forall q | 0 <= q < |qData|
        ensures QueueOk(q)
      {
        if q < |old(qData)| {
          assert old(QueueOk(q));
          BytesKept(qData[q]);
        }
      }
    }

    /** All queues but `q` are as they were. */
    twostate predicate OthersSame(q: nat)
      requires q < |old(qData)| && old(|qSize| == |qBytes| == |qData|)
      reads this, created
    {
      && |qSize| == |qBytes| == |qData| == |old(qData)| && old(created) <= created
      && qSize == old(qSize)[q := qSize[q]] && qBytes == old(qBytes)[q := qBytes[q]] && qData == old(qData)[q := qData[q]]
      && forall r :: r in old(created) && r.op == Queue ==> r.stq == old(r.stq) && (r.stq != q + 1 ==> r.data == old(r.data))
    }

    twostate lemma OthersKept(q: nat)
      requires old(QueuesOk()) && q < |old(qData)| && OthersSame(q)
      requires |qSize| == |qBytes| == |qData| && QueueOk(q)
      ensures QueuesOk()
    {
      forall p | 0 <= p < |qData|
        ensures QueueOk(p)
      {
        if p != q {
          assert old(QueueOk(p));
          BytesKept(qData[p]);
        }
      }
    }

    /** Add a record and leave the queues alone. */
    method Note(time: nat, op: Op, flag: bv8, cpu: nat, sm: nat, stq: nat, d: int) returns (an: AnnotateData)
      requires Valid() && !(op == Link && stq == UNKNOWN)
      modifies this`data, this`created, this`log, this`repr, this`output
      ensures Valid() && fresh(an) && an.Image() == Written(time, d, sm, stq, op, flag, cpu) && an.data == d
      ensures log == old(log) + [Written(time, d, sm, stq, op, flag, cpu)] && repr == old(repr) + {an}
      ensures created == old(created) + [an] && old(output) <= output && (Clean(old(output)) ==> Clean(output))
      ensures output == if op == Link then old(output) else Dumped(old(output), log)
    {
      hide Dumped, DumpedAll, Cpa.LogOk, Cpa.LinksOk, Cpa.MirrorOk, OneToOne;
      an := Add(time, op, flag, cpu, sm, stq, d);
      QueuesKept();
    }

    method PushRecord(qi: nat, an: AnnotateData, front: bool)
      requires 1 <= qi <= |qData| == |qSize| == |qBytes| && QueueOk(qi - 1) && 0 <= qBytes[qi - 1] + an.data
      requires an in created && an !in qData[qi - 1] && an.op == Queue && an.stq == qi
      modifies this`qSize, this`qBytes, this`qData
      ensures |qData| == |qSize| == |qBytes| == |old(qData)| && QueueOk(qi - 1)
      ensures qSize == old(qSize)[qi - 1 := old(qSize)[qi - 1] + 1] && qBytes == old(qBytes)[qi - 1 := old(qBytes)[qi - 1] + an.data]
      ensures qData == old(qData)[qi - 1 := Joined(old(qData)[qi - 1], [an], front)]
    {
      OneMore(qData[qi - 1], an);
      OneMoreInQueue(qData[qi - 1], an, qi);
      hide Bytes, Stream, Positive, Cpa.InQueue;
      qSize := qSize[qi - 1 := qSize[qi - 1] + 1];
      qBytes := qBytes[qi - 1 := qBytes[qi - 1] + an.data];
      if front {
        qData := qData[qi - 1 := [an] + qData[qi - 1]];
      } else {
        qData := qData[qi - 1 := qData[qi - 1] + [an]];
      }
    }

    /** Put a new record into queue `qi`, at the back or, like on a stack, at the front. */
    method Push(qi: nat, an: AnnotateData, front: bool)
      requires QueuesOk() && 1 <= qi <= |qData| && 0 <= qBytes[qi - 1] + an.data
      requires an in created && an !in qData[qi - 1] && an.op == Queue && an.stq == qi
      modifies this`qSize, this`qBytes, this`qData
      ensures QueuesOk() && |qData| == |old(qData)| && qBytes == old(qBytes)[qi - 1 := old(qBytes)[qi - 1] + an.data]
      ensures qData == old(qData)[qi - 1 := Joined(old(qData)[qi - 1], [an], front)]
    {
      assert QueueOk(qi - 1);
      hide Cpa.QueuesOk, Cpa.QueueOk;
      PushRecord(qi, an, front);
      OthersKept(qi - 1);
    }

    /** The same on the whole state. */
    method PushNew(qi: nat, an: AnnotateData, front: bool, count: int)
      requires Valid() && 1 <= qi <= |qData| && 0 <= qBytes[qi - 1] + count && an.data == count
      requires an in created && an !in qData[qi - 1] && an.op == Queue && an.stq == qi
      modifies this`qSize, this`qBytes, this`qData
      ensures Valid() && |qData| == |old(qData)| && qBytes == old(qBytes)[qi - 1 := old(qBytes)[qi - 1] + count]
      ensures qData == old(qData)[qi - 1 := Joined(old(qData)[qi - 1], [an], front)]
    {
      hide OneToOne, Cpa.LogOk, Cpa.LinksOk, Cpa.MirrorOk, Joined;
      Push(qi, an, front);
    }

    /** Enqueue `count` bytes as one record. */
    method DoQ(time: nat, flag: bv8, cpu: nat, sm: nat, qi: nat, count: int) returns (an: AnnotateData)
      requires Valid() && 1 <= qi <= |qData| && 0 <= qBytes[qi - 1] + count < INT32
      modifies this`data, this`created, this`log, this`repr, this`output, this`qSize, this`qBytes, this`qData
      ensures Valid() && fresh(an) && an.Image() == Written(time, count, sm, qi, Queue, flag, cpu) && an.data == count
      ensures log == old(log) + [Written(time, count, sm, qi, Queue, flag, cpu)] && repr == old(repr) + {an}
      ensures created == old(created) + [an] && old(output) <= output && (Clean(old(output)) ==> Clean(output))
      ensures qBytes == old(qBytes)[qi - 1 := old(qBytes)[qi - 1] + count]
      ensures qData == old(qData)[qi - 1 := Joined(old(qData)[qi - 1], [an], Stacked(flag))]
      ensures output == Dumped(old(output), log)
    {
      assert |qBytes| == |qData|;
      hide Cpa.Valid, Dumped, Joined, Stacked, Clean;
      an := Note(time, Queue, flag, cpu, sm, qi, count);
      assert an !in qData[qi - 1] && an.op == Queue && an.stq == qi && an in created;
      PushNew(qi, an, Stacked(flag), count);
    }

    method Clear(qi: nat)
      requires QueuesOk() && 1 <= qi <= |qData|
      modifies this`qSize, this`qBytes, this`qData
      ensures QueuesOk() && qBytes == old(qBytes)[qi - 1 := 0] && qData == old(qData)[qi - 1 := []]
    {
      qData := qData[qi - 1 := []];
      qSize := qSize[qi - 1 := 0];
      qBytes := qBytes[qi - 1 := 0];
      OthersKept(qi - 1);
    }

    /** No record has changed but for the amounts of these. */
    twostate predicate NoneBut(q: seq<AnnotateData>)
      reads this, created
    {
      created == old(created) && forall r :: r in created ==> r.stq == old(r.stq) && (r !in q ==> r.data == old(r.data))
    }

    /** Queue `q` has been cut down, and what is left is accounted for. */
    twostate lemma Served(q: nat)
      requires old(QueuesOk()) && created == old(created) && q < |old(qData)|
      requires |qSize| == |qBytes| == |qData| == |old(qData)| && Distinct(qData[q]) && Within(qData[q], old(qData)[q])
      requires qSize == old(qSize)[q := |qData[q]|] && qBytes == old(qBytes)[q := Bytes(qData[q])] && qBytes[q] >= 0
      requires qData == old(qData)[q := qData[q]] && NoneBut(old(qData)[q])
      ensures QueuesOk()
    {
      assert old(QueueOk(q));
      forall i | 0 <= i < |qData[q]|
        ensures qData[q][i] in created && qData[q][i].op == Queue && qData[q][i].stq == q + 1
      {
        var r := qData[q][i];
        assert r in qData[q] && r in old(qData)[q];
        var j :| 0 <= j < |old(qData)[q]| && old(qData)[q][j] == r;
      }
      assert QueueOk(q);
      OthersKept(q);
    }

    method PopFrontRecords(qi: nat, count: int)
      requires 1 <= qi <= |qData| == |qSize| == |qBytes| && Distinct(qData[qi - 1]) && 0 < count <= qBytes[qi - 1] == Bytes(qData[qi - 1])
      modifies this`qSize, this`qBytes, this`qData, qData[qi - 1]`data
      ensures |qData| == |old(qData)| && qData == old(qData)[qi - 1 := qData[qi - 1]]
      ensures Distinct(qData[qi - 1]) && Within(qData[qi - 1], old(qData)[qi - 1])
      ensures qSize == old(qSize)[qi - 1 := |qData[qi - 1]|]
      ensures Bytes(qData[qi - 1]) == old(qBytes)[qi - 1] - count && qBytes == old(qBytes)[qi - 1 := Bytes(qData[qi - 1])]
      ensures old(Positive(qData[qi - 1])) ==>
                Positive(qData[qi - 1]) && Dropped(old(Stream(qData[qi - 1])), Stream(qData[qi - 1]), count)
    {
      hide Stream, Positive, Bytes, Distinct, Within, Dropped, Kept;
      qBytes := qBytes[qi - 1 := qBytes[qi - 1] - count];
      var rest, size := TakeFront(qData[qi - 1], count);
      qData := qData[qi - 1 := rest];
      qSize := qSize[qi - 1 := size];
    }

    /** The first `count` bytes leave the queue, the rest keep their order and their records. */
    method PopFront(qi: nat, count: int)
      requires QueuesOk() && 1 <= qi <= |qData| && 0 < count <= qBytes[qi - 1] == Bytes(qData[qi - 1])
      modifies this`qSize, this`qBytes, this`qData, qData[qi - 1]`data
      ensures QueuesOk() && qBytes == old(qBytes)[qi - 1 := old(qBytes)[qi - 1] - count]
      ensures |qData| == |old(qData)| && qData == old(qData)[qi - 1 := qData[qi - 1]]
      ensures old(Positive(qData[qi - 1])) ==>
                Positive(qData[qi - 1]) && Dropped(old(Stream(qData[qi - 1])), Stream(qData[qi - 1]), count)
    {
      assert QueueOk(qi - 1);
      hide Stream, Positive, Bytes, Distinct, Within, Dropped, Kept, Cpa.QueuesOk, Cpa.QueueOk;
      PopFrontRecords(qi, count);
      Served(qi - 1);
    }

    method PopBackRecords(qi: nat, count: int)
      requires 1 <= qi <= |qData| == |qSize| == |qBytes| && Distinct(qData[qi - 1]) && 0 < count <= qBytes[qi - 1] == Bytes(qData[qi - 1])
      modifies this`qSize, this`qBytes, this`qData, qData[qi - 1]`data
      ensures |qData| == |old(qData)| && qData == old(qData)[qi - 1 := qData[qi - 1]]
      ensures Distinct(qData[qi - 1]) && Within(qData[qi - 1], old(qData)[qi - 1])
      ensures qSize == old(qSize)[qi - 1 := |qData[qi - 1]|]
      ensures Bytes(qData[qi - 1]) == old(qBytes)[qi - 1] - count && qBytes == old(qBytes)[qi - 1 := Bytes(qData[qi - 1])]
      ensures old(Positive(qData[qi - 1])) ==>
                Positive(qData[qi - 1]) && Kept(old(Stream(qData[qi - 1])), Stream(qData[qi - 1]), old(qBytes[qi - 1]) - count)
    {
      hide Stream, Positive, Bytes, Distinct, Within, Dropped, Kept;
      qBytes := qBytes[qi - 1 := qBytes[qi - 1] - count];
      var rest, size := TakeBack(qData[qi - 1], count);
      FrontPart(qData[qi - 1], size);
      qData := qData[qi - 1 := rest];
      qSize := qSize[qi - 1 := size];
    }

    /** The last `count` bytes leave the queue. */
    method PopBack(qi: nat, count: int)
      requires QueuesOk() && 1 <= qi <= |qData| && 0 < count <= qBytes[qi - 1] == Bytes(qData[qi - 1])
      modifies this`qSize, this`qBytes, this`qData, qData[qi - 1]`data
      ensures QueuesOk() && qBytes == old(qBytes)[qi - 1 := old(qBytes)[qi - 1] - count]
      ensures |qData| == |old(qData)| && qData == old(qData)[qi - 1 := qData[qi - 1]]
      ensures old(Positive(qData[qi - 1])) ==>
                Positive(qData[qi - 1]) && Kept(old(Stream(qData[qi - 1])), Stream(qData[qi - 1]), old(qBytes[qi - 1]) - count)
    {
      assert QueueOk(qi - 1);
      hide Stream, Positive, Bytes, Distinct, Within, Dropped, Kept, Cpa.QueuesOk, Cpa.QueueOk;
      PopBackRecords(qi, count);
      Served(qi - 1);
    }

    method DropFront(qi: nat, count: int)
      requires Valid() && 1 <= qi <= |qData| && 0 < count <= qBytes[qi - 1]
      modifies this`qSize, this`qBytes, this`qData, qData[qi - 1]`data
      ensures Valid() && qBytes == old(qBytes)[qi - 1 := old(qBytes)[qi - 1] - count]
      ensures |qData| == |old(qData)| && qData == old(qData)[qi - 1 := qData[qi - 1]]
      ensures old(Positive(qData[qi - 1])) ==>
                Positive(qData[qi - 1]) && Dropped(old(Stream(qData[qi - 1])), Stream(qData[qi - 1]), count)
    {
      assert QueueOk(qi - 1);
      PopFront(qi, count);
    }

    /** Dequeue `count` bytes, or everything for -1. False: the source stops with a fatal error. */
    method DoDq(time: nat, flag: bv8, cpu: nat, sm: nat, qi: nat, count: int) returns (ok: bool, an: AnnotateData?)
      requires Valid() && 1 <= qi <= |qData| && (count == -1 || count > 0)
      modifies this`data, this`created, this`log, this`repr, this`output, this`qSize, this`qBytes, this`qData, qData[qi - 1]`data
      ensures Valid() && old(output) <= output && (ok <==> count == -1 || old(qBytes[qi - 1]) >= count)
      ensures ok ==> an != null && fresh(an) && an.Image() == Written(time, count, sm, qi, Dequeue, flag, cpu)
      ensures ok ==> created == old(created) + [an] && (Clean(old(output)) ==> Clean(output))
      ensures ok ==> log == old(log) + [Written(time, count, sm, qi, Dequeue, flag, cpu)] && repr == old(repr) + {an}
      ensures !ok ==> created == old(created) && log == old(log) && repr == old(repr) && data == [] && qData == old(qData)
      ensures !ok ==> forall k :: |old(output)| <= k < |output| ==> output[k] == created[k].Image()
      ensures !ok ==> unchanged(old(qData)[qi - 1]`data)
      ensures ok && count == -1 ==> qBytes == old(qBytes)[qi - 1 := 0] && qData == old(qData)[qi - 1 := []]
      ensures ok && count > 0 ==> qBytes == old(qBytes)[qi - 1 := old(qBytes)[qi - 1] - count]
      ensures |qData| == |old(qData)| && (ok ==> qData == old(qData)[qi - 1 := qData[qi - 1]])
      ensures ok && count > 0 && old(Positive(qData[qi - 1])) ==>
                Positive(qData[qi - 1]) && Dropped(old(Stream(qData[qi - 1])), Stream(qData[qi - 1]), count)
      ensures ok ==> output == Dumped(old(output), log)
    {
      if count == -1 {
        an := DqAll(time, flag, cpu, sm, qi);
        return true, an;
      }
      assert |qBytes| == |qData| && QueueOk(qi - 1);
      assert qSize[qi - 1] <= 0 || |qData[qi - 1]| == 0 ==> qBytes[qi - 1] <= 0;
      hide Dumped, Clean, Cpa.LogOk, Cpa.LinksOk, Cpa.QueuesOk, Cpa.NamesOk, Cpa.MirrorOk, Cpa.QueueOk, Stream, Positive, Bytes, Dropped;
      if qSize[qi - 1] <= 0 || qBytes[qi - 1] <= 0 || |qData[qi - 1]| == 0 {
        Dump(true);
        return false, null;
      }
      if qBytes[qi - 1] - count < 0 {
        Dump(true);
        return false, null;
      }
      an := DqSome(time, flag, cpu, sm, qi, count);
      ok := true;
    }

    /** Dequeue bytes that are there. */
    method DqSome(time: nat, flag: bv8, cpu: nat, sm: nat, qi: nat, count: int) returns (an: AnnotateData)
      requires Valid() && 1 <= qi <= |qData| && 0 < count <= qBytes[qi - 1]
      modifies this`data, this`created, this`log, this`repr, this`output, this`qSize, this`qBytes, this`qData, qData[qi - 1]`data
      ensures Valid() && fresh(an) && an.Image() == Written(time, count, sm, qi, Dequeue, flag, cpu)
      ensures log == old(log) + [Written(time, count, sm, qi, Dequeue, flag, cpu)] && repr == old(repr) + {an}
      ensures created == old(created) + [an] && old(output) <= output && (Clean(old(output)) ==> Clean(output))
      ensures qBytes == old(qBytes)[qi - 1 := old(qBytes)[qi - 1] - count]
      ensures |qData| == |old(qData)| && qData == old(qData)[qi - 1 := qData[qi - 1]]
      ensures old(Positive(qData[qi - 1])) ==>
                Positive(qData[qi - 1]) && Dropped(old(Stream(qData[qi - 1])), Stream(qData[qi - 1]), count)
      ensures output == Dumped(old(output), log)
    {
      assert |qBytes| == |qData|;
      hide Cpa.Valid, Clean, Dumped, Stream, Positive, Dropped;
      DropFront(qi, count);
      an := Note(time, Dequeue, flag, cpu, sm, qi, count);
    }

    method DqAll(time: nat, flag: bv8, cpu: nat, sm: nat, qi: nat) returns (an: AnnotateData)
      requires Valid() && 1 <= qi <= |qData|
      modifies this`data, this`created, this`log, this`repr, this`output, this`qSize, this`qBytes, this`qData
      ensures Valid() && fresh(an) && an.Image() == Written(time, -1, sm, qi, Dequeue, flag, cpu)
      ensures log == old(log) + [Written(time, -1, sm, qi, Dequeue, flag, cpu)] && repr == old(repr) + {an}
      ensures created == old(created) + [an] && old(output) <= output && (Clean(old(output)) ==> Clean(output))
      ensures qBytes == old(qBytes)[qi - 1 := 0] && qData == old(qData)[qi - 1 := []]
      ensures output == Dumped(old(output), log)
    {
      hide Dumped, DumpedAll, Cpa.LogOk, Cpa.LinksOk, Cpa.MirrorOk, OneToOne, Amounts;
      an := Note(time, Dequeue, flag, cpu, sm, qi, -1);
      Clear(qi);
    }

    /** Remove bytes at the back until `size` of them are left. */
    method Shrink(time: nat, cpu: nat, sm: nat, qi: nat, size: int)
      requires Valid() && 1 <= qi <= |qData| && size < qBytes[qi - 1]
      modifies this`data, this`created, this`log, this`repr, this`output, this`qSize, this`qBytes, this`qData, qData[qi - 1]`data
      ensures Valid() && |qData| == |old(qData)| && qBytes == old(qBytes)[qi - 1 := if size > 0 then size else 0]
      ensures old(output) <= output && (Clean(old(output)) ==> Clean(output))
      ensures log == old(log) + [Written(time, size, sm, qi, SizeQueue, FL_NONE, cpu)] && old(created) <= created && fresh(repr - old(repr))
      ensures qData == old(qData)[qi - 1 := qData[qi - 1]]
      ensures size <= 0 ==> qData[qi - 1] == []
      ensures old(Positive(qData[qi - 1])) ==>
                Positive(qData[qi - 1]) && Kept(old(Stream(qData[qi - 1])), Stream(qData[qi - 1]), if size > 0 then size else 0)
      ensures output == Dumped(old(output), log)
    {
      assert |qBytes| == |qData|;
      hide Cpa.Valid, Stream, Positive, Kept, Clean, Dumped;
      var _ := Note(time, SizeQueue, FL_NONE, cpu, sm, qi, size);
      CutTo(qi, size);
    }

    method CutTo(qi: nat, size: int)
      requires Valid() && 1 <= qi <= |qData| && size < qBytes[qi - 1]
      modifies this`qSize, this`qBytes, this`qData, qData[qi - 1]`data
      ensures Valid() && |qData| == |old(qData)| && qBytes == old(qBytes)[qi - 1 := if size > 0 then size else 0]
      ensures qData == old(qData)[qi - 1 := qData[qi - 1]]
      ensures size <= 0 ==> qData[qi - 1] == []
      ensures old(Positive(qData[qi - 1])) ==>
                Positive(qData[qi - 1]) && Kept(old(Stream(qData[qi - 1])), Stream(qData[qi - 1]), if size > 0 then size else 0)
    {
      assert QueueOk(qi - 1);
      hide Cpa.LogOk, Cpa.LinksOk, Cpa.MirrorOk, OneToOne;
      if size <= 0 {
        Clear(qi);
      } else {
        PopBack(qi, qBytes[qi - 1] - size);
      }
    }

    /** The queue is `before` and the newest record, which stands for `amount` bytes. */
    ghost predicate Lengthened(qi: nat, before: seq<AnnotateData>, amount: int)
      reads this`qData, this`created, created`data
    {
      && 1 <= qi <= |qData| && created != []
      && qData[qi - 1] == before + [created[|created| - 1]] && created[|created| - 1].data == amount
    }

    lemma SameKept(q: seq<AnnotateData>)
      ensures Positive(q) ==> Kept(Stream(q), Stream(q), Bytes(q))
      ensures q == [] ==> Bytes(q) == 0
    {
    }

    /** Enqueue what is missing. */
    method GrowTo(time: nat, cpu: nat, sm: nat, qi: nat, size: int, bytes: int)
      requires Valid() && 1 <= qi <= |qData| && bytes < size < INT32 && qBytes[qi - 1] == bytes && 0 <= bytes
      modifies this`data, this`created, this`log, this`repr, this`output, this`qSize, this`qBytes, this`qData
      ensures Valid() && old(output) <= output && (Clean(old(output)) ==> Clean(output))
      ensures log == old(log) + [Written(time, size - bytes, sm, qi, Queue, FL_NONE, cpu)]
      ensures output == DumpedAll(old(output), old(log), [Written(time, size - bytes, sm, qi, Queue, FL_NONE, cpu)])
      ensures old(created) <= created && fresh(repr - old(repr))
      ensures qBytes == old(qBytes)[qi - 1 := size] && |qData| == |old(qData)|
      ensures qData == old(qData)[qi - 1 := qData[qi - 1]] && Lengthened(qi, old(qData)[qi - 1], size - bytes)
    {
      assert |qBytes| == |qData| && !Stacked(FL_NONE);
      hide Cpa.Valid, Clean, Dumped, DumpedAll, Stacked;
      DumpedOne(output, log, Written(time, size - bytes, sm, qi, Queue, FL_NONE, cpu));
      var an := DoQ(time, FL_NONE, cpu, sm, qi, size - bytes);
    }

    /** Bring a queue of `bytes` bytes to exactly `size` of them. */
    method ResizeFrom(time: nat, cpu: nat, sm: nat, qi: nat, size: int, bytes: int)
      requires Valid() && 1 <= qi <= |qData| && size < INT32 && qBytes[qi - 1] == bytes
      modifies this`data, this`created, this`log, this`repr, this`output, this`qSize, this`qBytes, this`qData, qData[qi - 1]`data
      ensures Valid() && old(output) <= output && (Clean(old(output)) ==> Clean(output))
      ensures log == old(log) + ResizeRecord(time, cpu, sm, qi, bytes, size)
      ensures old(created) <= created && fresh(repr - old(repr))
      ensures qBytes == old(qBytes)[qi - 1 := if size > 0 then size else 0] && |qData| == |old(qData)|
      ensures bytes < size ==> Lengthened(qi, old(qData)[qi - 1], size - bytes)
      ensures bytes < size ==> unchanged(old(qData)[qi - 1]`data)
      ensures qData == old(qData)[qi - 1 := qData[qi - 1]]
      ensures bytes >= size && old(qData)[qi - 1] == [] ==> qData[qi - 1] == []
      ensures bytes >= size && old(Positive(qData[qi - 1])) ==>
                Positive(qData[qi - 1]) && Kept(old(Stream(qData[qi - 1])), Stream(qData[qi - 1]), if size > 0 then size else 0)
      ensures output == DumpedAll(old(output), old(log), ResizeRecord(time, cpu, sm, qi, bytes, size))
    {
      assert |qBytes| == |qData| && QueueOk(qi - 1);
      SameKept(qData[qi - 1]);
      ResizeRecords(output, log, time, cpu, sm, qi, bytes, size);
      hide Cpa.Valid, Cpa.QueueOk, Cpa.Lengthened, Stream, Positive, Bytes, Kept, Clean, Dumped, DumpedAll, ResizeRecord;
      if bytes < size {
        GrowTo(time, cpu, sm, qi, size, bytes);
      } else if bytes > size {
        Shrink(time, cpu, sm, qi, size);
      }
    }

    /** Enqueue or remove at the back what it takes to hold exactly `size` bytes. */
    method Resize(time: nat, cpu: nat, sm: nat, qi: nat, size: int)
      requires Valid() && 1 <= qi <= |qData| && size < INT32
      modifies this`data, this`created, this`log, this`repr, this`output, this`qSize, this`qBytes, this`qData, qData[qi - 1]`data
      ensures Valid() && old(output) <= output && (Clean(old(output)) ==> Clean(output))
      ensures log == old(log) + ResizeRecord(time, cpu, sm, qi, old(qBytes[qi - 1]), size)
      ensures old(created) <= created && fresh(repr - old(repr))
      ensures qBytes == old(qBytes)[qi - 1 := if size > 0 then size else 0] && |qData| == |old(qData)|
      ensures old(qBytes[qi - 1]) < size ==> Lengthened(qi, old(qData)[qi - 1], size - old(qBytes[qi - 1]))
      ensures old(qBytes[qi - 1]) < size ==> unchanged(old(qData)[qi - 1]`data)
      ensures qData == old(qData)[qi - 1 := qData[qi - 1]]
      ensures old(qBytes[qi - 1]) >= size && old(qData)[qi - 1] == [] ==> qData[qi - 1] == []
      ensures old(qBytes[qi - 1]) >= size && old(Positive(qData[qi - 1])) ==>
                Positive(qData[qi - 1]) && Kept(old(Stream(qData[qi - 1])), Stream(qData[qi - 1]), if size > 0 then size else 0)
      ensures output == DumpedAll(old(output), old(log), ResizeRecord(time, cpu, sm, qi, old(qBytes[qi - 1]), size))
    {
      assert |qBytes| == |qData|;
      hide Cpa.Valid, Cpa.Lengthened, Stream, Positive, Kept, Clean, DumpedAll, ResizeRecord;
      ResizeFrom(time, cpu, sm, qi, size, qBytes[qi - 1]);
    }

    /** Empty the queue, and log that. */
    method ResetQ(time: nat, cpu: nat, sm: nat, qi: nat)
      requires Valid() && 1 <= qi <= |qData|
      modifies this`data, this`created, this`log, this`repr, this`output, this`qSize, this`qBytes, this`qData
      ensures Valid() && qBytes == old(qBytes)[qi - 1 := 0] && qData == old(qData)[qi - 1 := []]
      ensures old(output) <= output && (Clean(old(output)) ==> Clean(output))
      ensures log == old(log) + [Written(time, 0, sm, qi, SizeQueue, FL_NONE, cpu)] && old(created) <= created && fresh(repr - old(repr))
      ensures output == Dumped(old(output), log)
    {
      hide Dumped, DumpedAll, Cpa.LogOk, Cpa.LinksOk, Cpa.MirrorOk, OneToOne, Amounts;
      var _ := Note(time, SizeQueue, FL_NONE, cpu, sm, qi, 0);
      Clear(qi);
    }

    /** Empty the queue first, and then fill it up. */
    method SizeFresh(time: nat, cpu: nat, sm: nat, qi: nat, size: int)
      requires Valid() && 1 <= qi <= |qData| && size < INT32
      modifies this`data, this`created, this`log, this`repr, this`output, this`qSize, this`qBytes, this`qData
      ensures Valid() && old(output) <= output && (Clean(old(output)) ==> Clean(output))
      ensures log == old(log) + ([Written(time, 0, sm, qi, SizeQueue, FL_NONE, cpu)] + ResizeRecord(time, cpu, sm, qi, 0, size))
      ensures old(created) <= created && fresh(repr - old(repr))
      ensures qBytes == old(qBytes)[qi - 1 := if size > 0 then size else 0] && |qData| == |old(qData)|
      ensures qData == old(qData)[qi - 1 := qData[qi - 1]]
      ensures if size > 0 then Lengthened(qi, [], size) else qData[qi - 1] == []
      ensures output == DumpedAll(old(output), old(log),
                                  [Written(time, 0, sm, qi, SizeQueue, FL_NONE, cpu)] + ResizeRecord(time, cpu, sm, qi, 0, size))
    {
      assert |qBytes| == |qData|;
      hide Dumped, DumpedAll, ResizeRecord, Cpa.Valid, Clean, Stream, Positive, Kept;
      ResetQ(time, cpu, sm, qi);
      ResizeFrom(time, cpu, sm, qi, size, 0);
      DumpedFirst(old(output), old(log), Written(time, 0, sm, qi, SizeQueue, FL_NONE, cpu), ResizeRecord(time, cpu, sm, qi, 0, size));
    }

    /** Make the queue hold exactly `size` bytes, after emptying it first if it is to be reset. */
    method SizeQ(time: nat, flag: bv8, cpu: nat, sm: nat, qi: nat, size: int)
      requires Valid() && 1 <= qi <= |qData| && size < INT32
      modifies this`data, this`created, this`log, this`repr, this`output, this`qSize, this`qBytes, this`qData, qData[qi - 1]`data
      ensures Valid() && old(output) <= output && (Clean(old(output)) ==> Clean(output))
      ensures log == old(log) + SizeRecords(time, flag, cpu, sm, qi, old(qBytes[qi - 1]), size)
      ensures old(created) <= created && fresh(repr - old(repr))
      ensures qBytes == old(qBytes)[qi - 1 := if size > 0 then size else 0] && |qData| == |old(qData)|
      ensures qData == old(qData)[qi - 1 := qData[qi - 1]]
      ensures Resets(flag) ==> if size > 0 then Lengthened(qi, [], size) else qData[qi - 1] == []
      ensures !Resets(flag) && old(qBytes[qi - 1]) < size ==>
                Lengthened(qi, old(qData)[qi - 1], size - old(qBytes[qi - 1])) && unchanged(old(qData)[qi - 1]`data)
      ensures !Resets(flag) && old(qBytes[qi - 1]) >= size && old(Positive(qData[qi - 1])) ==>
                Positive(qData[qi - 1]) && Kept(old(Stream(qData[qi - 1])), Stream(qData[qi - 1]), if size > 0 then size else 0)
      ensures output == DumpedAll(old(output), old(log), SizeRecords(time, flag, cpu, sm, qi, old(qBytes[qi - 1]), size))
    {
      assert QueueOk(qi - 1);
      hide Dumped, DumpedAll, Cpa.LogOk, Cpa.LinksOk, Cpa.MirrorOk, OneToOne, Amounts;
      if Resets(flag) {
        SizeFresh(time, cpu, sm, qi, size);
      } else {
        Resize(time, cpu, sm, qi, size);
      }
    }
  }
}
