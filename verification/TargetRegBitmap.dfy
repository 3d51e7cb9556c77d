/** The target register bitmap: which registers hold a value that a load brought in,
    with a checkpoint per unresolved branch to roll back to. */
module TargetRegBitmap {

  const REGISTERS := 32

  type Reg = r: int | 0 <= r < REGISTERS
  type Bitmap = b: seq<bool> | |b| == REGISTERS witness Clear(REGISTERS)

  datatype Inst = Load(dest: Reg) | NonLoad(dest: Reg) | Move(src: Reg, dest: Reg) | Branch

  function Clear(n: nat): (b: seq<bool>)
    ensures |b| == n && forall i :: 0 <= i < n ==> !b[i]
  {
    if n == 0 then [] else Clear(n - 1) + [false]
  }

  function Updated(b: Bitmap, inst: Inst): Bitmap {
    match inst
    case Load(dest) => b[dest := true]
    case NonLoad(dest) => b[dest := false]
    case Move(src, dest) => b[dest := b[src]]
    case Branch => b
  }

  /** The bitmap after a straight run of instructions. */
  function After(path: seq<Inst>): Bitmap {
    if path == [] then Clear(REGISTERS) else Updated(After(path[..|path| - 1]), path[|path| - 1])
  }

  lemma AfterOneMore(path: seq<Inst>, inst: Inst)
    ensures After(path + [inst]) == Updated(After(path), inst)
  {
    assert (path + [inst])[..|path|] == path;
  }

  /** Whether the value in register `r` came from a load, following moves back to where it came from. */
  predicate FromLoad(path: seq<Inst>, r: Reg) {
    if path == [] then false
    else
      var before := path[..|path| - 1];
      match path[|path| - 1]
      case Load(dest) => dest == r || FromLoad(before, r)
      case NonLoad(dest) => dest != r && FromLoad(before, r)
      case Move(src, dest) => FromLoad(before, if dest == r then src else r)
      case Branch => FromLoad(before, r)
  }

  predicate Writes(inst: Inst, r: Reg) {
    !inst.Branch? && inst.dest == r
  }

  /** The last instruction that writes a register decides: a load sets its bit, a move copies the bit its source had
      then, any other instruction clears it. */
  lemma {:induction false} LastWriterDecides(path: seq<Inst>, k: nat, r: Reg)
    requires k < |path| && Writes(path[k], r) && forall j :: k < j < |path| ==> !Writes(path[j], r)
    ensures After(path)[r] <==> (path[k].Load? || (path[k].Move? && After(path[..k])[path[k].src]))
  {
    var n := |path| - 1;
    if k == n {
    } else {
      LastWriterDecides(path[..n], k, r);
      assert path[..n][..k] == path[..k];
    }
  }

  /** A register that is never written has its bit clear. */
  lemma {:induction false} NeverWritten(path: seq<Inst>, r: Reg)
    requires forall j :: 0 <= j < |path| ==> !Writes(path[j], r)
    ensures !After(path)[r]
  {
    if path == [] {
    } else {
      NeverWritten(path[..|path| - 1], r);
    }
  }

  /** The bitmap is exactly the set of registers whose value came from a load. */
  lemma {:induction false} BitmapMeaning(path: seq<Inst>, r: Reg)
    ensures After(path)[r] <==> FromLoad(path, r)
  {
    if path == [] {
    } else {
      var before, last := path[..|path| - 1], path[|path| - 1];
      BitmapMeaning(before, if last.Move? && last.dest == r then last.src else r);
    }
  }

  // ---------- what happens over time ----------

  /** Fetch an instruction, or learn that the oldest unresolved branch was predicted right or wrong. */
  datatype Event = Fetch(inst: Inst) | Right | Wrong

  /** The instructions fetched and not thrown away, and where among them the unresolved branches are. */
  datatype Course = Course(path: seq<Inst>, open: seq<nat>) {
    ghost predicate Valid() {
      && (forall k :: 0 <= k < |open| ==> open[k] < |path| && path[open[k]].Branch?)
      && (forall j, k :: 0 <= j < k < |open| ==> open[j] < open[k])
    }
  }

  predicate Possible(c: Course, e: Event) {
    e.Fetch? || c.open != []
  }

  /** A wrong prediction throws away everything after its branch. */
  function Next(c: Course, e: Event): Course
    requires Possible(c, e) && (e.Wrong? ==> c.open[0] < |c.path|)
  {
    match e
    case Fetch(inst) => Course(c.path + [inst], if inst.Branch? then c.open + [|c.path|] else c.open)
    case Right => c.(open := c.open[1..])
    case Wrong => Course(c.path[..c.open[0] + 1], [])
  }

  ghost predicate AllPossible(events: seq<Event>)
    decreases |events|, 0
  {
    events == [] ||
    (AllPossible(events[..|events| - 1]) && Possible(CourseOf(events[..|events| - 1]), events[|events| - 1]))
  }

  /** The course after a stream of events. */
  ghost function CourseOf(events: seq<Event>): (c: Course)
    requires AllPossible(events)
    ensures c.Valid()
    decreases |events|, 1
  {
    if events == [] then Course([], []) else Next(CourseOf(events[..|events| - 1]), events[|events| - 1])
  }

  // ---------- the bitmap with its checkpoints ----------

  /** One instruction more: the bitmap is updated, and the branches that were open keep what was before them. */
  lemma CourseGrows(c: Course, inst: Inst)
    requires c.Valid()
    ensures var c' := Next(c, Fetch(inst));
            && c'.Valid() && After(c'.path) == Updated(After(c.path), inst)
            && |c'.open| == |c.open| + (if inst.Branch? then 1 else 0)
            && (forall k :: 0 <= k < |c.open| ==>
                  c.open[k] < |c.path| && c'.open[k] < |c'.path| && After(c'.path[..c'.open[k]]) == After(c.path[..c.open[k]]))
            && (inst.Branch? ==> c'.open[|c.open|] < |c'.path| && After(c'.path[..c'.open[|c.open|]]) == After(c.path))
  {
    AfterOneMore(c.path, inst);
    hide After, Updated;
    var c' := Next(c, Fetch(inst));
    assert c'.path[..|c.path|] == c.path;
    forall k | 0 <= k < |c.open|
      ensures c'.path[..c'.open[k]] == c.path[..c.open[k]]
    {
    }
  }

  class TargetRegBitmap {
    var trb: Bitmap
    var bq: seq<Bitmap>

    constructor ()
      ensures trb == Clear(REGISTERS) && bq == []
    {
      trb, bq := Clear(REGISTERS), [];
    }

    /** The bitmap is that of the instructions kept, and each checkpoint that of the instructions
        before its branch. */
    ghost predicate Tracks(c: Course)
      reads this
    {
      && c.Valid() && trb == After(c.path) && |bq| == |c.open|
      && forall k :: 0 <= k < |bq| ==> bq[k] == After(c.path[..c.open[k]])
    }

    method LdSet(dest: Reg)
      modifies `trb
      ensures trb == Updated(old(trb), Load(dest)) && trb == old(trb)[dest := true]
    {
      trb := trb[dest := true];
    }

    method NldReset(dest: Reg)
      modifies `trb
      ensures trb == Updated(old(trb), NonLoad(dest)) && trb == old(trb)[dest := false]
    {
      trb := trb[dest := false];
    }

    method MoveSet(src: Reg, dest: Reg)
      modifies `trb
      ensures trb == Updated(old(trb), Move(src, dest)) && trb == old(trb)[dest := old(trb)[src]]
    {
      trb := trb[dest := trb[src]];
    }

    method Access(inst: Inst)
      modifies `trb
      ensures trb == Updated(old(trb), inst)
    {
      match inst
      case Load(dest) => LdSet(dest);
      case NonLoad(dest) => NldReset(dest);
      case Move(src, dest) => MoveSet(src, dest);
      case Branch =>
    }

    method Enqueue(inst: Inst)
      modifies `bq
      ensures bq == if inst.Branch? then old(bq) + [trb] else old(bq)
    {
      if inst.Branch? {
        bq := bq + [trb];
      }
    }

    method Fetched(inst: Inst, ghost c: Course)
      requires Tracks(c)
      modifies this
      ensures Tracks(Next(c, Fetch(inst)))
    {
      hide After, Updated, Course.Valid;
      CourseGrows(c, inst);
      Enqueue(inst);
      Access(inst);
    }

    /** The oldest branch is resolved: a right prediction drops its checkpoint, a wrong one goes back to
        it and forgets the later ones. */
    method Dequeue(wrong: bool, ghost c: Course)
      requires Tracks(c) && c.open != []
      modifies this
      ensures Tracks(Next(c, if wrong then Wrong else Right))
    {
      if wrong {
        trb := bq[0];
        bq := [];
        ghost var kept := c.path[..c.open[0] + 1];
        assert kept[..c.open[0]] == c.path[..c.open[0]] && kept[c.open[0]].Branch?;
      } else {
        bq := bq[1..];
      }
    }
  }

  /** Any stream of events: in the end the bitmap is that of a run which never saw a wrong path, and
      the checkpoints are those of the branches still open. */
  method Simulate(events: seq<Event>) returns (trb: Bitmap, bq: seq<Bitmap>)
    requires AllPossible(events)
    ensures trb == After(CourseOf(events).path)
    ensures forall r: Reg :: trb[r] <==> FromLoad(CourseOf(events).path, r)
    ensures |bq| == |CourseOf(events).open|
    ensures forall k :: 0 <= k < |bq| ==> bq[k] == After(CourseOf(events).path[..CourseOf(events).open[k]])
  {
    var t := new TargetRegBitmap();
    for i := 0 to |events|
      invariant AllPossible(events[..i]) && t.Tracks(CourseOf(events[..i]))
    {
      PrefixPossible(events, i + 1);
      ghost var c := CourseOf(events[..i]);
      assert events[..i + 1][..i] == events[..i];
      match events[i]
      case Fetch(inst) => t.Fetched(inst, c);
      case Right => t.Dequeue(false, c);
      case Wrong => t.Dequeue(true, c);
    }
    assert events[..|events|] == events;
    trb, bq := t.trb, t.bq;
    forall r: Reg ensures trb[r] <==> FromLoad(CourseOf(events).path, r) {
      BitmapMeaning(CourseOf(events).path, r);
    }
  }

  lemma {:induction false} PrefixPossible(events: seq<Event>, i: nat)
    requires AllPossible(events) && i <= |events|
    ensures AllPossible(events[..i])
  {
    if i == |events| {
      assert events[..i] == events;
    } else {
      PrefixPossible(events[..|events| - 1], i);
      assert events[..|events| - 1][..i] == events[..i];
    }
  }

  /** Instructions fetched one after the other. */
  ghost function Fetches(insts: seq<Inst>): (events: seq<Event>)
    ensures |events| == |insts| && forall i :: 0 <= i < |insts| ==> events[i] == Fetch(insts[i])
  {
    seq(|insts|, i requires 0 <= i < |insts| => Fetch(insts[i]))
  }

  lemma OneMoreEvent(events: seq<Event>, e: Event)
    requires AllPossible(events) && Possible(CourseOf(events), e)
    ensures AllPossible(events + [e]) && CourseOf(events + [e]) == Next(CourseOf(events), e)
  {
    assert (events + [e])[..|events|] == events;
  }

  lemma {:induction false} FetchedPath(before: seq<Event>, insts: seq<Inst>)
    requires AllPossible(before)
    ensures AllPossible(before + Fetches(insts))
    ensures CourseOf(before + Fetches(insts)).path == CourseOf(before).path + insts
    ensures CourseOf(before).open <= CourseOf(before + Fetches(insts)).open
    decreases |insts|
  {
    hide AllPossible, CourseOf;
    if insts == [] {
      assert before + Fetches(insts) == before;
    } else {
      var n := |insts| - 1;
      FetchedPath(before, insts[..n]);
      OneMoreEvent(before + Fetches(insts[..n]), Fetch(insts[n]));
      assert before + Fetches(insts) == before + Fetches(insts[..n]) + [Fetch(insts[n])];
      assert insts == insts[..n] + [insts[n]];
    }
  }

  /** A branch with nothing open before it, and what is fetched behind it. */
  lemma BehindBranch(before: seq<Event>, insts: seq<Inst>)
    requires AllPossible(before) && CourseOf(before).open == []
    ensures var events := before + [Fetch(Branch)] + Fetches(insts);
            && AllPossible(events) && CourseOf(events).path == CourseOf(before).path + [Branch] + insts
            && CourseOf(events).open != [] && CourseOf(events).open[0] == |CourseOf(before).path|
  {
    hide AllPossible, CourseOf;
    OneMoreEvent(before, Fetch(Branch));
    FetchedPath(before + [Fetch(Branch)], insts);
  }

  /** If the oldest open branch turns out wrong, everything fetched behind it is as if it had never been. */
  lemma WrongPathUndone(before: seq<Event>, insts: seq<Inst>)
    requires AllPossible(before) && CourseOf(before).open == []
    ensures var events := before + [Fetch(Branch)] + Fetches(insts) + [Wrong];
            AllPossible(events) && CourseOf(events) == Course(CourseOf(before).path + [Branch], [])
  {
    hide AllPossible, CourseOf;
    BehindBranch(before, insts);
    OneMoreEvent(before + [Fetch(Branch)] + Fetches(insts), Wrong);
    var path := CourseOf(before).path;
    assert (path + [Branch] + insts)[..|path| + 1] == path + [Branch];
  }

  /** If it turns out right, nothing is undone. */
  lemma RightPathKept(before: seq<Event>, insts: seq<Inst>)
    requires AllPossible(before) && CourseOf(before).open == []
    ensures var events := before + [Fetch(Branch)] + Fetches(insts) + [Right];
            AllPossible(events) && CourseOf(events).path == CourseOf(before).path + [Branch] + insts
  {
    hide AllPossible, CourseOf;
    BehindBranch(before, insts);
    OneMoreEvent(before + [Fetch(Branch)] + Fetches(insts), Right);
  }
}
