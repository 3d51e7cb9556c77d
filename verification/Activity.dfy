/** The activity recorder: a counter that must agree with a ring buffer of recent
    cycles and a table of active stages, without looking at them. */
module Activity {

  function Count(s: seq<bool>): (n: nat)
    ensures n <= |s|
  {
    if s == [] then 0 else Count(s[..|s| - 1]) + if s[|s| - 1] then 1 else 0
  }

  lemma {:induction false} CountUpdate(s: seq<bool>, i: nat, b: bool)
    requires i < |s|
    ensures Count(s[i := b]) == Count(s) - (if s[i] then 1 else 0) + if b then 1 else 0
  {
    var n := |s| - 1;
    if i < n {
      CountUpdate(s[..n], i, b);
      assert s[i := b][..n] == s[..n][i := b];
    } else {
      assert s[i := b][..n] == s[..n];
    }
  }

  lemma {:induction false} CountDropFirst(s: seq<bool>)
    requires s != []
    ensures Count(s) == (if s[0] then 1 else 0) + Count(s[1..])
  {
    var n := |s| - 1;
    if n == 0 {
    } else {
      CountDropFirst(s[..n]);
      assert s[..n][1..] == s[1..][..n - 1];
    }
  }

  lemma CountFrom(s: seq<bool>, k: nat)
    requires k < |s|
    ensures Count(s[k..]) == (if s[k] then 1 else 0) + Count(s[k + 1..])
  {
    assert s[k..][1..] == s[k + 1..];
    CountDropFirst(s[k..]);
  }

  lemma {:induction false} CountNone(s: seq<bool>)
    ensures Count(s) == 0 <==> forall i :: 0 <= i < |s| ==> !s[i]
  {
    if s == [] {
    } else {
      CountNone(s[..|s| - 1]);
    }
  }

  // ---------- the ring buffer ----------

  /** Where in a ring of `size` slots the cycle `idx` lies, the current cycle being at `base`. */
  function Slot(idx: int, base: nat, size: nat): (k: nat)
    requires base < size && 0 - size < idx < size
    ensures k < size
  {
    var k := idx + base;
    if k >= size then k - size else if k < 0 then k + size else k
  }

  /** The ring's cycles from the oldest to the newest. */
  function Unrolled(data: seq<bool>, base: nat, past: nat): (w: seq<bool>)
    requires base < |data| && past < |data|
    ensures |w| == |data| && forall i :: 0 <= i < |data| ==> w[i] == data[Slot(i - past, base, |data|)]
  {
    seq(|data|, i requires 0 <= i < |data| => data[Slot(i - past, base, |data|)])
  }

  lemma UnrolledSet(data: seq<bool>, base: nat, past: nat, i: nat, b: bool)
    requires base < |data| && past < |data| && i < |data|
    ensures Unrolled(data[Slot(i - past, base, |data|) := b], base, past) == Unrolled(data, base, past)[i := b]
  {
  }

  lemma UnrolledAdvance(data: seq<bool>, base: nat, past: nat)
    requires base < |data| && past < |data|
    ensures var next := if base + 1 == |data| then 0 else base + 1;
            Unrolled(data[Slot(|data| - 1 - past, next, |data|) := false], next, past) == Unrolled(data, base, past)[1..] + [false]
  {
    var next := if base + 1 == |data| then 0 else base + 1;
    UnrolledSet(data, next, past, |data| - 1, false);
  }

  /** A ring of past and future cycles around the current one. */
  class TimeBuffer {
    const past: nat
    const future: nat
    const size: nat
    const data: array<bool>
    var base: nat

    ghost predicate Valid()
      reads `base
    {
      size == past + future + 1 && data.Length == size && base < size
    }

    constructor (past: nat, future: nat)
      ensures Valid() && this.past == past && this.future == future && fresh(data)
      ensures Count(Window()) == 0
    {
      this.past, this.future, size := past, future, past + future + 1;
      data := new bool[past + future + 1](_ => false);
      base := 0;
      new;
      CountNone(Window());
    }

    /** The cycles from the oldest to the newest; the current one is at `past`. */
    ghost function Window(): (w: seq<bool>)
      requires Valid()
      reads `base, data
      ensures |w| == size
    {
      Unrolled(data[..], base, past)
    }

    method Get(idx: int) returns (b: bool)
      requires Valid() && 0 <= past + idx < size
      ensures b == Window()[past + idx]
    {
      b := data[Slot(idx, base, size)];
    }

    method Set(idx: int, b: bool)
      requires Valid() && 0 <= past + idx < size
      modifies data
      ensures Valid() && Window() == old(Window())[past + idx := b]
    {
      UnrolledSet(data[..], base, past, past + idx, b);
      ghost var was := data[..];
      data[Slot(idx, base, size)] := b;
      assert data[..] == was[Slot(idx, base, size) := b];
    }

    /** A cycle passes: the oldest falls out and an empty newest one comes in. */
    method Advance()
      requires Valid()
      modifies `base, data
      ensures Valid() && Window() == old(Window())[1..] + [false]
    {
      UnrolledAdvance(data[..], base, past);
      ghost var was := data[..];
      base := base + 1;
      if base >= size {
        base := 0;
      }
      var ptr := base + future;
      if ptr >= size {
        ptr := ptr - size;
      }
      data[ptr] := false;
      assert data[..] == was[Slot(future, base, size) := false];
    }
  }

  // ---------- the recorder ----------

  class ActivityRecorder {
    const buffer: TimeBuffer
    const longestLatency: nat
    const stageActive: array<bool>
    var activityCount: int
    /** What the counter started with beyond what is outstanding. */
    ghost var surplus: int

    ghost predicate Valid()
      reads this, buffer, buffer.data, stageActive
    {
      && buffer.Valid() && buffer.past == longestLatency && buffer.future == 0 && buffer.data != stageActive
      && activityCount == surplus + Outstanding()
    }

    /** The recent cycles with activity and the active stages. */
    ghost function Outstanding(): nat
      requires buffer.Valid()
      reads buffer, buffer.data, stageActive
    {
      Count(buffer.Window()) + Count(stageActive[..])
    }

    constructor (numStages: nat, longestLatency: nat, activity: int)
      ensures Valid() && surplus == activity && Outstanding() == 0
      ensures this.longestLatency == longestLatency && stageActive.Length == numStages
      ensures fresh(buffer) && fresh(buffer.data) && fresh(stageActive)
    {
      var ring := new TimeBuffer(longestLatency, 0);
      var stages := new bool[numStages](_ => false);
      CountNone(stages[..]);
      buffer, stageActive, this.longestLatency := ring, stages, longestLatency;
      activityCount := activity;
      surplus := activity;
    }

    /** Something happens this cycle. */
    method Activity()
      requires Valid()
      modifies `activityCount, buffer.data
      ensures Valid() && surplus == old(surplus)
      ensures buffer.Window() == old(buffer.Window())[longestLatency := true] && stageActive[..] == old(stageActive[..])
    {
      var now := buffer.Get(0);
      CountUpdate(buffer.Window(), longestLatency, true);
      if now {
        return;
      }
      buffer.Set(0, true);
      activityCount := activityCount + 1;
    }

    /** A cycle passes. The counter cannot drop below zero unless it started there. */
    method Advance()
      requires Valid()
      modifies `activityCount, buffer`base, buffer.data
      ensures Valid() && surplus == old(surplus) && (surplus >= 0 ==> activityCount >= 0)
      ensures buffer.Window() == old(buffer.Window())[1..] + [false] && stageActive[..] == old(stageActive[..])
    {
      var last := buffer.Get(0 - longestLatency);
      ghost var window := buffer.Window();
      CountDropFirst(window);
      if last {
        activityCount := activityCount - 1;
      }
      buffer.Advance();
      assert buffer.Window()[..longestLatency] == window[1..];
    }

    method ActivateStage(idx: nat)
      requires Valid() && idx < stageActive.Length
      modifies `activityCount, stageActive
      ensures Valid() && surplus == old(surplus)
      ensures stageActive[..] == old(stageActive[..])[idx := true] && buffer.Window() == old(buffer.Window())
    {
      CountUpdate(stageActive[..], idx, true);
      ghost var was := stageActive[..];
      if !stageActive[idx] {
        activityCount := activityCount + 1;
        stageActive[idx] := true;
      }
      assert stageActive[..] == was[idx := true];
    }

    method DeactivateStage(idx: nat)
      requires Valid() && idx < stageActive.Length
      modifies `activityCount, stageActive
      ensures Valid() && surplus == old(surplus) && (surplus >= 0 ==> activityCount >= 0)
      ensures stageActive[..] == old(stageActive[..])[idx := false] && buffer.Window() == old(buffer.Window())
    {
      CountUpdate(stageActive[..], idx, false);
      ghost var was := stageActive[..];
      if stageActive[idx] {
        activityCount := activityCount - 1;
        stageActive[idx] := false;
      }
      assert stageActive[..] == was[idx := false];
    }

    method ClearStages()
      modifies stageActive
      ensures Count(stageActive[..]) == 0
    {
      for i := 0 to stageActive.Length
        invariant forall k :: 0 <= k < i ==> !stageActive[k]
      {
        stageActive[i] := false;
      }
      CountNone(stageActive[..]);
    }

    /** As many cycles pass as the ring has slots. */
    method ClearBuffer()
      requires buffer.Valid() && buffer.past == longestLatency && buffer.future == 0
      modifies buffer`base, buffer.data
      ensures buffer.Valid() && Count(buffer.Window()) == 0
    {
      for i := 0 to longestLatency + 1
        invariant buffer.Valid()
        invariant forall k :: longestLatency + 1 - i <= k <= longestLatency ==> !buffer.Window()[k]
      {
        buffer.Advance();
      }
      CountNone(buffer.Window());
    }

    /** Clears everything. */
    method Reset()
      requires Valid()
      modifies this, buffer`base, buffer.data, stageActive
      ensures Valid() && surplus == 0 && activityCount == 0 && Outstanding() == 0
    {
      activityCount, surplus := 0, 0;
      ClearStages();
      ClearBuffer();
    }

    method CountCycles() returns (count: int)
      requires buffer.Valid() && buffer.past == longestLatency && buffer.future == 0
      ensures count == Count(buffer.Window())
    {
      count := 0;
      ghost var window := buffer.Window();
      assert window[longestLatency + 1..] == [];
      hide Count, Unrolled;
      for i := 0 to longestLatency + 1
        invariant count == Count(window[longestLatency + 1 - i..])
      {
        var slot := buffer.Get(-i);
        CountFrom(window, longestLatency - i);
        if slot {
          count := count + 1;
        }
      }
      assert window[0..] == window;
    }

    method CountStages() returns (count: int)
      ensures count == Count(stageActive[..])
    {
      count := 0;
      for i := 0 to stageActive.Length
        invariant count == Count(stageActive[..i])
      {
        assert stageActive[..i + 1][..i] == stageActive[..i];
        if stageActive[i] {
          count := count + 1;
        }
      }
      assert stageActive[..stageActive.Length] == stageActive[..];
    }

    /** The full scan: it agrees with the counter exactly when there is no surplus. */
    method Validate() returns (ok: bool)
      requires Valid()
      ensures ok <==> surplus == 0
    {
      var cycles := CountCycles();
      var stages := CountStages();
      ok := cycles + stages == activityCount;
    }
  }

  // ---------- whole runs ----------

  datatype Op = Happen | Tick | On(stage: nat) | Off(stage: nat) | Clear

  /** Whether something happened `back` cycles ago, and was not cleared since. */
  predicate ActiveAgo(ops: seq<Op>, back: nat) {
    if ops == [] then false
    else
      var before := ops[..|ops| - 1];
      match ops[|ops| - 1]
      case Happen => back == 0 || ActiveAgo(before, back)
      case Tick => back > 0 && ActiveAgo(before, back - 1)
      case Clear => false
      case _ => ActiveAgo(before, back)
  }

  /** Whether the stage was last turned on. */
  predicate StageOn(ops: seq<Op>, stage: nat) {
    if ops == [] then false
    else
      var before := ops[..|ops| - 1];
      match ops[|ops| - 1]
      case On(s) => s == stage || StageOn(before, stage)
      case Off(s) => s != stage && StageOn(before, stage)
      case Clear => false
      case _ => StageOn(before, stage)
  }

  /** How many of the last `n` cycles were active, and how many of the first `n` stages are on. */
  /** Activity grows older with every tick, and new cycles are inactive. */
  lemma {:induction false} Aging(ops: seq<Op>, n: nat, back: nat)
    ensures ActiveAgo(ops + seq(n, _ => Tick), back) <==> back >= n && ActiveAgo(ops, back - n)
  {
    if n == 0 {
      assert ops + seq(n, _ => Tick) == ops;
    } else {
      var all := ops + seq(n, _ => Tick);
      assert all[..|all| - 1] == ops + seq(n - 1, _ => Tick) && all[|all| - 1] == Tick;
      if back > 0 {
        Aging(ops, n - 1, back - 1);
      }
    }
  }

  /** What happens in a cycle is remembered `n` ticks later as having happened `n` cycles ago. */
  lemma Remembered(ops: seq<Op>, n: nat)
    ensures ActiveAgo(ops + [Happen] + seq(n, _ => Tick), n)
  {
    Aging(ops + [Happen], n, n);
    assert (ops + [Happen])[..|ops|] == ops;
  }

  function CyclesActive(ops: seq<Op>, n: nat): nat {
    if n == 0 then 0 else CyclesActive(ops, n - 1) + if ActiveAgo(ops, n - 1) then 1 else 0
  }

  function StagesOn(ops: seq<Op>, n: nat): nat {
    if n == 0 then 0 else StagesOn(ops, n - 1) + if StageOn(ops, n - 1) then 1 else 0
  }

  lemma {:induction false} WindowCounts(ops: seq<Op>, window: seq<bool>, n: nat)
    requires n <= |window| && ShowsCycles(window, ops)
    ensures Count(window[|window| - n..]) == CyclesActive(ops, n)
  {
    if n == 0 {
    } else {
      WindowCounts(ops, window, n - 1);
      CountFrom(window, |window| - n);
    }
  }

  lemma {:induction false} StagesCount(ops: seq<Op>, stages: seq<bool>)
    requires ShowsStages(stages, ops)
    ensures Count(stages) == StagesOn(ops, |stages|)
  {
    if stages == [] {
    } else {
      StagesCount(ops, stages[..|stages| - 1]);
    }
  }

  /** No recent cycle was active; no stage is on. */
  ghost predicate NoCycle(ops: seq<Op>, n: nat) { forall b: nat :: b < n ==> !ActiveAgo(ops, b) }

  ghost predicate NoStage(ops: seq<Op>, n: nat) { forall i: nat :: i < n ==> !StageOn(ops, i) }

  lemma {:induction false} CyclesActiveZero(ops: seq<Op>, n: nat)
    ensures CyclesActive(ops, n) == 0 <==> NoCycle(ops, n)
  {
    if n == 0 {
    } else {
      CyclesActiveZero(ops, n - 1);
      assert NoCycle(ops, n) <==> NoCycle(ops, n - 1) && !ActiveAgo(ops, n - 1);
    }
  }

  lemma {:induction false} StagesOnZero(ops: seq<Op>, n: nat)
    ensures StagesOn(ops, n) == 0 <==> NoStage(ops, n)
  {
    if n == 0 {
    } else {
      StagesOnZero(ops, n - 1);
      assert NoStage(ops, n) <==> NoStage(ops, n - 1) && !StageOn(ops, n - 1);
    }
  }

  /** Ring and table show what the operations so far did. */
  ghost predicate ShowsCycles(window: seq<bool>, ops: seq<Op>) {
    forall i :: 0 <= i < |window| ==> window[i] == ActiveAgo(ops, |window| - 1 - i)
  }

  ghost predicate ShowsStages(stages: seq<bool>, ops: seq<Op>) {
    forall i :: 0 <= i < |stages| ==> stages[i] == StageOn(ops, i)
  }

  /** What an operation does to the cycles and to the stages. */
  function CyclesAfter(window: seq<bool>, op: Op): seq<bool>
    requires window != []
  {
    match op
    case Happen => window[|window| - 1 := true]
    case Tick => window[1..] + [false]
    case Clear => seq(|window|, _ => false)
    case _ => window
  }

  function StagesAfter(stages: seq<bool>, op: Op): seq<bool>
    requires (op.On? || op.Off?) ==> op.stage < |stages|
  {
    match op
    case On(stage) => stages[stage := true]
    case Off(stage) => stages[stage := false]
    case Clear => seq(|stages|, _ => false)
    case _ => stages
  }

  lemma ShowsNext(window: seq<bool>, stages: seq<bool>, op: Op, ops: seq<Op>)
    requires window != [] && ShowsCycles(window, ops) && ShowsStages(stages, ops)
    requires (op.On? || op.Off?) ==> op.stage < |stages|
    ensures ShowsCycles(CyclesAfter(window, op), ops + [op]) && ShowsStages(StagesAfter(stages, op), ops + [op])
  {
    assert (ops + [op])[..|ops|] == ops;
  }

  lemma ShowsNothing(window: seq<bool>, stages: seq<bool>)
    requires Count(window) == 0 && Count(stages) == 0
    ensures ShowsCycles(window, []) && ShowsStages(stages, [])
  {
    CountNone(window);
    CountNone(stages);
  }

  lemma ShownCounts(window: seq<bool>, stages: seq<bool>, ops: seq<Op>)
    requires ShowsCycles(window, ops) && ShowsStages(stages, ops)
    ensures Count(window) == CyclesActive(ops, |window|) && Count(stages) == StagesOn(ops, |stages|)
    ensures CyclesActive(ops, |window|) + StagesOn(ops, |stages|) == 0 <==> NoCycle(ops, |window|) && NoStage(ops, |stages|)
  {
    WindowCounts(ops, window, |window|);
    assert window[0..] == window;
    StagesCount(ops, stages);
    CyclesActiveZero(ops, |window|);
    StagesOnZero(ops, |stages|);
  }

  method Do(r: ActivityRecorder, op: Op)
    requires r.Valid() && ((op.On? || op.Off?) ==> op.stage < r.stageActive.Length)
    modifies r, r.buffer`base, r.buffer.data, r.stageActive
    ensures r.Valid() && r.surplus == if op.Clear? then 0 else old(r.surplus)
    ensures r.buffer.Window() == CyclesAfter(old(r.buffer.Window()), op)
    ensures r.stageActive[..] == StagesAfter(old(r.stageActive[..]), op)
  {
    match op
    case Happen => r.Activity();
    case Tick => r.Advance();
    case On(stage) => r.ActivateStage(stage);
    case Off(stage) => r.DeactivateStage(stage);
    case Clear =>
      r.Reset();
      CountNone(r.buffer.Window());
      CountNone(r.stageActive[..]);
  }

  /** After any run from a zero count the counter is the number of recent active cycles and active stages,
      and zero exactly when there are none. */
  method Simulate(numStages: nat, longestLatency: nat, ops: seq<Op>) returns (count: int)
    requires forall i :: 0 <= i < |ops| && (ops[i].On? || ops[i].Off?) ==> ops[i].stage < numStages
    ensures count == CyclesActive(ops, longestLatency + 1) + StagesOn(ops, numStages)
    ensures count == 0 <==> NoCycle(ops, longestLatency + 1) && NoStage(ops, numStages)
  {
    var r := new ActivityRecorder(numStages, longestLatency, 0);
    ShowsNothing(r.buffer.Window(), r.stageActive[..]);
    hide ShowsCycles, ShowsStages, Count, CyclesActive, StagesOn, NoCycle, NoStage, CyclesAfter, StagesAfter;
    for k := 0 to |ops|
      invariant r.Valid() && r.surplus == 0
      invariant ShowsCycles(r.buffer.Window(), ops[..k]) && ShowsStages(r.stageActive[..], ops[..k])
      invariant fresh(r) && fresh(r.buffer) && fresh(r.buffer.data) && fresh(r.stageActive)
    {
      ShowsNext(r.buffer.Window(), r.stageActive[..], ops[k], ops[..k]);
      assert ops[..k + 1] == ops[..k] + [ops[k]];
      Do(r, ops[k]);
    }
    assert ops[..|ops|] == ops;
    ShownCounts(r.buffer.Window(), r.stageActive[..], ops);
    count := r.activityCount;
  }
}
