/** Whole runs of insertions and lookups on a range map, against a list that is scanned. */
module RangeMapRuns {
  import opened AddrRanges
  import opened Options
  import opened RangeMap

  datatype Op<V> = Insert(r: AddrRange, d: V) | Lookup(a: nat)

  /** What an operation answers: a new entry, no new entry, a panic, or what the lookup found. */
  datatype Answer<V> = New | Refused | Panicked | Value(value: Option<V>)

  // ---------- the tree after a run ----------

  predicate Accepts<V>(tree: Tree<V>, r: AddrRange)
    requires Fit(tree)
  {
    Search(tree, r) == End && !Taken(tree, r)
  }

  ghost predicate FitOps<V>(ops: seq<Op<V>>) {
    forall i :: 0 <= i < |ops| && ops[i].Insert? ==> ops[i].r.SlicesFit()
  }

  ghost function Step<V>(tree: Tree<V>, op: Op<V>): (tree': Tree<V>)
    requires Sorted(tree) && Fit(tree) && (op.Insert? ==> op.r.SlicesFit())
    ensures Sorted(tree') && Fit(tree')
  {
    if op.Insert? && Accepts(tree, op.r) then
      PutSorted(tree, op.r, op.d);
      Put(tree, UpperBound(tree, op.r, 0), op.r, op.d)
    else tree
  }

  ghost function After<V>(ops: seq<Op<V>>): (tree: Tree<V>)
    requires FitOps(ops)
    ensures Sorted(tree) && Fit(tree)
  {
    if ops == [] then [] else Step(After(ops[..|ops| - 1]), ops[|ops| - 1])
  }

  /** The accepted insertions, in the order they were made. */
  ghost function Kept<V>(ops: seq<Op<V>>): (kept: Tree<V>)
    requires FitOps(ops)
  {
    if ops == [] then []
    else
      var before, op := ops[..|ops| - 1], ops[|ops| - 1];
      Kept(before) + if op.Insert? && Accepts(After(before), op.r) then [(op.r, op.d)] else []
  }

  /** Different places in the order of the map. */
  predicate Ordered(r: AddrRange, q: AddrRange) {
    r.Less(q) || q.Less(r)
  }

  ghost predicate AllOrdered<V>(kept: Tree<V>) {
    forall i, j :: 0 <= i < j < |kept| ==> Ordered(kept[i].0, kept[j].0)
  }

  /** The same entries in some order. */
  ghost predicate Same<V>(tree: Tree<V>, kept: Tree<V>) {
    multiset(tree) == multiset(kept)
  }

  lemma SameMembers<V>(tree: Tree<V>, kept: Tree<V>, x: (AddrRange, V))
    requires Same(tree, kept)
    ensures x in tree <==> x in kept
  {
    assert x in tree <==> x in multiset(tree);
    assert x in kept <==> x in multiset(kept);
  }

  lemma PutSame<V>(tree: Tree<V>, kept: Tree<V>, k: nat, r: AddrRange, d: V)
    requires k <= |tree| && Same(tree, kept)
    ensures Same(Put(tree, k, r, d), kept + [(r, d)])
  {
    assert tree == tree[..k] + tree[k..];
  }

  /** A key that is not taken differs from all others. */
  lemma NotTaken<V>(tree: Tree<V>, r: AddrRange, x: (AddrRange, V))
    requires Sorted(tree) && !Taken(tree, r) && x in tree
    ensures Ordered(x.0, r)
  {
    var k := UpperBound(tree, r, 0);
    var i :| 0 <= i < |tree| && tree[i] == x;
    if i < k {
      assert i < k - 1 ==> tree[i].0.Less(tree[k - 1].0);
    } else {
      assert k < i ==> tree[k].0.Less(tree[i].0);
    }
  }

  /** The tree is the accepted insertions in order. */
  lemma {:induction false} AfterIsKept<V>(ops: seq<Op<V>>)
    requires FitOps(ops)
    ensures Same(After(ops), Kept(ops)) && AllOrdered(Kept(ops))
  {
    if ops == [] {
    } else {
      var before, op := ops[..|ops| - 1], ops[|ops| - 1];
      AfterIsKept(before);
      var tree, kept := After(before), Kept(before);
      if op.Insert? && Accepts(tree, op.r) {
        PutSame(tree, kept, UpperBound(tree, op.r, 0), op.r, op.d);
        forall i | 0 <= i < |kept|
          ensures Ordered(kept[i].0, op.r)
        {
          SameMembers(tree, kept, kept[i]);
          NotTaken(tree, op.r, kept[i]);
        }
      }
    }
  }

  // ---------- the conditions, in terms of the accepted insertions ----------

  predicate Apart(r: AddrRange, q: AddrRange) {
    Compatible(r, q) || Compatible(q, r)
  }

  ghost predicate AllApart<V>(kept: Tree<V>) {
    && (forall i :: 0 <= i < |kept| ==> kept[i].0.Valid())
    && forall i, j :: 0 <= i < j < |kept| ==> Apart(kept[i].0, kept[j].0)
  }

  /** Every range but the lowest holds the start of its chunk in stripe 0 only. */
  ghost predicate LowestOnly<V>(kept: Tree<V>) {
    forall i, j :: 0 <= i < |kept| && 0 <= j < |kept| && kept[j].0.Less(kept[i].0) ==> StartIs0(kept[i].0)
  }

  lemma ApartInOrder(r: AddrRange, q: AddrRange)
    requires r.Valid() && q.Valid() && r.Less(q) && Apart(r, q)
    ensures Compatible(r, q)
  {
  }

  /** The map is well-formed if and only if the accepted ranges are valid and apart. */
  lemma WellFormedExactly<V>(tree: Tree<V>, kept: Tree<V>)
    requires Sorted(tree) && Fit(tree) && Same(tree, kept) && AllOrdered(kept)
    ensures WellFormed(tree) <==> AllApart(kept)
  {
    hide AddrRange.SlicesFit, Compatible;
    if AllApart(kept) {
      KeptApart(tree, kept);
    }
    if WellFormed(tree) {
      TreeApart(tree, kept);
    }
  }

  lemma KeptApart<V>(tree: Tree<V>, kept: Tree<V>)
    requires Sorted(tree) && Fit(tree) && Same(tree, kept) && AllApart(kept)
    ensures WellFormed(tree)
  {
    hide Compatible, AddrRange.SlicesFit;
    forall i | 0 <= i < |tree|
      ensures tree[i].0.Valid()
    {
      SameMembers(tree, kept, tree[i]);
    }
    forall i, j | 0 <= i < j < |tree|
      ensures Compatible(tree[i].0, tree[j].0)
    {
      SameMembers(tree, kept, tree[i]);
      SameMembers(tree, kept, tree[j]);
      var p :| 0 <= p < |kept| && kept[p] == tree[i];
      var q :| 0 <= q < |kept| && kept[q] == tree[j];
      assert tree[i].0.Less(tree[j].0) && p != q;
      assert Apart(tree[i].0, tree[j].0);
      ApartInOrder(tree[i].0, tree[j].0);
    }
  }

  lemma TreeApart<V>(tree: Tree<V>, kept: Tree<V>)
    requires WellFormed(tree) && Same(tree, kept) && AllOrdered(kept)
    ensures AllApart(kept)
  {
    hide Compatible, AddrRange.SlicesFit;
    forall i | 0 <= i < |kept|
      ensures kept[i].0.Valid()
    {
      SameMembers(tree, kept, kept[i]);
    }
    forall i, j | 0 <= i < j < |kept|
      ensures Apart(kept[i].0, kept[j].0)
    {
      SameMembers(tree, kept, kept[i]);
      SameMembers(tree, kept, kept[j]);
      var p :| 0 <= p < |tree| && tree[p] == kept[i];
      var q :| 0 <= q < |tree| && tree[q] == kept[j];
      assert Ordered(kept[i].0, kept[j].0) && p != q;
      assert if p < q then Compatible(tree[p].0, tree[q].0) else Compatible(tree[q].0, tree[p].0);
    }
  }

  lemma StartsExactly<V>(tree: Tree<V>, kept: Tree<V>)
    requires Sorted(tree) && Fit(tree) && Same(tree, kept)
    ensures StartsInStripe0(tree) <==> LowestOnly(kept)
  {
    hide AddrRange.SlicesFit, AddrRange.Contains;
    if LowestOnly(kept) {
      forall j | 0 < j < |tree| && Holds(tree, j, tree[j].0.start)
        ensures tree[j].0.intlvMatch == 0
      {
        SameMembers(tree, kept, tree[0]);
        SameMembers(tree, kept, tree[j]);
        var p :| 0 <= p < |kept| && kept[p] == tree[0];
        var q :| 0 <= q < |kept| && kept[q] == tree[j];
        assert kept[p].0.Less(kept[q].0);
      }
    }
    if StartsInStripe0(tree) {
      forall i, j | 0 <= i < |kept| && 0 <= j < |kept| && kept[j].0.Less(kept[i].0)
        ensures StartIs0(kept[i].0)
      {
        SameMembers(tree, kept, kept[i]);
        SameMembers(tree, kept, kept[j]);
        var p :| 0 <= p < |tree| && tree[p] == kept[i];
        var q :| 0 <= q < |tree| && tree[q] == kept[j];
        assert p <= q ==> p == q || tree[p].0.Less(tree[q].0);
        assert p > 0 && (Holds(tree, p, tree[p].0.start) ==> tree[p].0.intlvMatch == 0);
      }
    }
  }

  // ---------- lookups against a scan ----------

  predicate Within(r: AddrRange, a: nat) {
    r.SlicesFit() && r.Contains(a)
  }

  /** The first of the ranges that contains the address. */
  function Scan<V>(kept: Tree<V>, a: nat): Option<V> {
    if kept == [] then None else if Within(kept[0].0, a) then Some(kept[0].1) else Scan(kept[1..], a)
  }

  function Looked<V>(tree: Tree<V>, a: nat): Option<V>
    requires Fit(tree)
  {
    match Search(tree, Point(a))
    case At(i) => if i < |tree| then Some(tree[i].1) else None
    case _ => None
  }

  lemma {:induction false} ScanFinds<V>(kept: Tree<V>, a: nat)
    ensures Scan(kept, a) == None <==> forall i :: 0 <= i < |kept| ==> !Within(kept[i].0, a)
    ensures Scan(kept, a) != None ==>
              exists i :: 0 <= i < |kept| && Within(kept[i].0, a) && Scan(kept, a) == Some(kept[i].1)
  {
    hide Within;
    if kept == [] {
    } else if Within(kept[0].0, a) {
    } else {
      ScanFinds(kept[1..], a);
      if Scan(kept, a) != None {
        var i :| 0 <= i < |kept[1..]| && Within(kept[1..][i].0, a) && Scan(kept[1..], a) == Some(kept[1..][i].1);
        assert kept[i + 1] == kept[1..][i];
      } else {
        assert forall i :: 1 <= i < |kept| ==> kept[i] == kept[1..][i - 1];
      }
    }
  }

  /** The search agrees with a scan of the tree exactly when it returns what a scan of the insertions does. */
  lemma AgreesIsScan<V>(tree: Tree<V>, kept: Tree<V>, a: nat)
    requires WellFormed(tree) && Same(tree, kept)
    ensures Agrees(tree, a) <==> Looked(tree, a) == Scan(kept, a)
  {
    hide Search, AddrRange.Contains, AddrRange.SlicesFit;
    SearchSound(tree, a);
    ScanFinds(kept, a);
    if Search(tree, Point(a)).At? {
      var i := Search(tree, Point(a)).index;
      SameMembers(tree, kept, tree[i]);
      assert Within(tree[i].0, a);
      var p :| 0 <= p < |kept| && kept[p] == tree[i];
      assert Within(kept[p].0, a);
      var q :| 0 <= q < |kept| && Within(kept[q].0, a) && Scan(kept, a) == Some(kept[q].1);
      SameMembers(tree, kept, kept[q]);
      var j :| 0 <= j < |tree| && tree[j] == kept[q];
      assert Holds(tree, j, a);
      UniqueHolder(tree, i, j, a);
    } else {
      forall i | 0 <= i < |tree| && Within(tree[i].0, a)
        ensures Scan(kept, a) != None
      {
        SameMembers(tree, kept, tree[i]);
        var p :| 0 <= p < |kept| && kept[p] == tree[i];
      }
      if Scan(kept, a) != None {
        var q :| 0 <= q < |kept| && Within(kept[q].0, a);
        SameMembers(tree, kept, kept[q]);
        var j :| 0 <= j < |tree| && tree[j] == kept[q];
        assert Holds(tree, j, a);
      }
    }
  }

  lemma LookupsExact<V>(tree: Tree<V>, kept: Tree<V>)
    requires WellFormed(tree) && Same(tree, kept)
    ensures (forall a: nat :: Looked(tree, a) == Scan(kept, a)) <==> LowestOnly(kept)
  {
    StartsExactly(tree, kept);
    FindAddressExact(tree);
    hide Scan, Looked, Agrees, StartsInStripe0, LowestOnly, WellFormed, Same;
    forall a: nat
      ensures Agrees(tree, a) <==> Looked(tree, a) == Scan(kept, a)
    {
      AgreesIsScan(tree, kept, a);
    }
    if forall a: nat :: Looked(tree, a) == Scan(kept, a) {
      assert forall a: nat :: Agrees(tree, a);
    }
  }

  /** After any run whose accepted ranges are valid and apart, every lookup returns what a scan of them would, if and
      only if every range but the lowest holds the start of its chunk in stripe 0 only. */
  lemma RunExact<V>(ops: seq<Op<V>>)
    requires FitOps(ops) && AllApart(Kept(ops))
    ensures (forall a: nat :: Looked(After(ops), a) == Scan(Kept(ops), a)) <==> LowestOnly(Kept(ops))
  {
    hide After, Kept, Scan, Looked, LowestOnly, WellFormed, Same, AllApart, AllOrdered;
    AfterIsKept(ops);
    WellFormedExactly(After(ops), Kept(ops));
    LookupsExact(After(ops), Kept(ops));
  }

  // ---------- which insertions are accepted ----------

  lemma {:induction false} WalkBackEnds<V>(tree: Tree<V>, orig: AddrRange, i: nat, r: AddrRange)
    requires Fit(tree) && i < |tree| && forall j :: 0 <= j <= i ==> tree[j].0.Intersects(r) == Some(false)
    ensures WalkBack(tree, orig, i, r) == End
    decreases i
  {
    if i == 0 {
    } else {
      hide AddrRange.Intersects;
      WalkBackEnds(tree, orig, i - 1, r);
    }
  }

  /** A stripe of size 1 whose chunk starts in `r`: `r` claims to meet it, whatever it holds. */
  predicate Claims(r: AddrRange, q: AddrRange) {
    r.SlicesFit() && q.Size() == 1 && r.Interleaved() && r.MergesWith(q) && r.Contains(q.start)
  }

  lemma ApartNoHit(r: AddrRange, q: AddrRange)
    requires r.SlicesFit() && r.Valid() && q.Valid() && Apart(r, q) && !Claims(r, q)
    ensures r.Intersects(q) == Some(false)
  {
    hide AddrRange.Size, AddrRange.SlicesFit, AddrRange.Stripe;
  }

  /** A range that is valid, apart from all others and claimed by none of them is accepted. */
  lemma AcceptsApart<V>(tree: Tree<V>, kept: Tree<V>, r: AddrRange)
    requires Sorted(tree) && Fit(tree) && Same(tree, kept) && r.Valid()
    requires forall i :: 0 <= i < |kept| ==> kept[i].0.Valid() && Apart(kept[i].0, r) && !Claims(kept[i].0, r)
    ensures Accepts(tree, r)
  {
    var k := UpperBound(tree, r, 0);
    forall i | 0 <= i < |tree|
      ensures tree[i].0.Intersects(r) == Some(false) && (tree[i].0.Less(r) || r.Less(tree[i].0))
    {
      SameMembers(tree, kept, tree[i]);
      ApartNoHit(tree[i].0, r);
    }
    hide AddrRange.Intersects, AddrRange.Less, Apart, Compatible, Claims, WalkBack;
    if tree != [] {
      var i := if k == 0 then 0 else k - 1;
      WalkBackEnds(tree, tree[i].0, i, r);
    }
  }

  /** The ranges that the client inserts. */
  ghost function Inserts<V>(ops: seq<Op<V>>): Tree<V> {
    if ops == [] then []
    else
      var op := ops[|ops| - 1];
      Inserts(ops[..|ops| - 1]) + if op.Insert? then [(op.r, op.d)] else []
  }

  /** No earlier range claims a later one. */
  ghost predicate NoClaims<V>(kept: Tree<V>) {
    forall i, j :: 0 <= i < j < |kept| ==> !Claims(kept[i].0, kept[j].0)
  }

  /** Ranges that are valid and apart are all accepted, unless one is claimed. */
  lemma {:induction false} AllAccepted<V>(ops: seq<Op<V>>)
    requires FitOps(ops) && AllApart(Inserts(ops)) && NoClaims(Inserts(ops))
    ensures Kept(ops) == Inserts(ops)
  {
    hide Apart, Claims;
    if ops == [] {
    } else {
      var before, op := ops[..|ops| - 1], ops[|ops| - 1];
      var kept := Inserts(before);
      assert kept == Inserts(ops)[..|kept|];
      AllAccepted(before);
      AfterIsKept(before);
      if op.Insert? {
        assert Inserts(ops)[|kept|] == (op.r, op.d);
        AcceptsApart(After(before), kept, op.r);
      }
    }
  }

  /** For a client whose ranges are valid, apart and not claimed: every insertion is accepted, and every lookup is
      right if and only if every range but the lowest holds the start of its chunk in stripe 0 only. */
  lemma ClientExact<V>(ops: seq<Op<V>>)
    requires FitOps(ops) && AllApart(Inserts(ops)) && NoClaims(Inserts(ops))
    ensures (forall a: nat :: Looked(After(ops), a) == Scan(Inserts(ops), a)) <==> LowestOnly(Inserts(ops))
  {
    hide After, Kept, Inserts, Scan, Looked, LowestOnly, AllApart, NoClaims;
    AllAccepted(ops);
    RunExact(ops);
  }

  // ---------- running it ----------

  ghost function AnswerOf<V>(tree: Tree<V>, op: Op<V>): Answer<V>
    requires Fit(tree)
  {
    match op
    case Insert(r, _) => if Search(tree, r) == Panic then Panicked else if Accepts(tree, r) then New else Refused
    case Lookup(a) => Value(Looked(tree, a))
  }

  method Do<V>(m: AddrRangeMap<V>, op: Op<V>) returns (answer: Answer<V>)
    requires m.Valid() && (op.Insert? ==> op.r.SlicesFit())
    modifies m
    ensures m.Valid() && m.tree == Step(old(m.tree), op) && answer == AnswerOf(old(m.tree), op)
  {
    match op
    case Insert(r, d) =>
      var n := |m.tree|;
      var at := m.Insert(r, d);
      answer := if at.Panic? then Panicked else if |m.tree| > n then New else Refused;
    case Lookup(a) =>
      SearchSound(m.tree, a);
      var found := m.FindRange(Point(a));
      answer := Value(if found.At? then Some(m.tree[found.index].1) else None);
  }

  /** Any run from the empty map: insertions and lookups answer as stated, and a lookup answers like a scan of the
      insertions accepted before it whenever those are valid, apart and start in stripe 0. */
  method Simulate<V>(ops: seq<Op<V>>) returns (answers: seq<Answer<V>>)
    requires FitOps(ops)
    ensures |answers| == |ops|
    ensures forall i :: 0 <= i < |ops| ==> answers[i] == AnswerOf(After(ops[..i]), ops[i])
    ensures forall i :: 0 <= i < |ops| && ops[i].Lookup? && AllApart(Kept(ops[..i])) && LowestOnly(Kept(ops[..i])) ==>
              answers[i] == Value(Scan(Kept(ops[..i]), ops[i].a))
  {
    var m := new AddrRangeMap<V>();
    answers := [];
    hide Step, AnswerOf;
    for k := 0 to |ops|
      invariant fresh(m) && m.Valid() && |answers| == k && m.tree == After(ops[..k])
      invariant forall i :: 0 <= i < k ==> answers[i] == AnswerOf(After(ops[..i]), ops[i])
    {
      assert ops[..k + 1][..k] == ops[..k];
      var answer := Do(m, ops[k]);
      answers := answers + [answer];
    }
    forall i | 0 <= i < |ops| && ops[i].Lookup? && AllApart(Kept(ops[..i])) && LowestOnly(Kept(ops[..i]))
      ensures answers[i] == Value(Scan(Kept(ops[..i]), ops[i].a))
    {
      LookupAnswer(ops[..i], ops[i]);
    }
  }

  lemma LookupAnswer<V>(ops: seq<Op<V>>, op: Op<V>)
    requires FitOps(ops) && op.Lookup? && AllApart(Kept(ops)) && LowestOnly(Kept(ops))
    ensures AnswerOf(After(ops), op) == Value(Scan(Kept(ops), op.a))
  {
    hide After, Kept, Scan, Looked, LowestOnly, AllApart;
    RunExact(ops);
    assert Looked(After(ops), op.a) == Scan(Kept(ops), op.a);
  }
}
