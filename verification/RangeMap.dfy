/** The map from address ranges to values: an ordered map whose lookup inspects the
    predecessor and, among stripes, walks backwards. */
module RangeMap {
  import opened AddrRanges
  import opened NatBits
  import opened Options

  /** The outcome of a search: an iterator, the end iterator, or the source's panic. */
  datatype Found = At(index: nat) | End | Panic

  type Tree<V> = seq<(AddrRange, V)>

  ghost predicate Sorted<V>(tree: Tree<V>) {
    forall i, j :: 0 <= i < j < |tree| ==> tree[i].0.Less(tree[j].0)
  }

  ghost predicate Fit<V>(tree: Tree<V>) {
    forall i :: 0 <= i < |tree| ==> tree[i].0.SlicesFit()
  }

  /** The first entry whose key is above `r`, among those from `from` on. */
  function UpperBound<V>(tree: Tree<V>, r: AddrRange, from: nat): (k: nat)
    requires from <= |tree|
    ensures from <= k <= |tree|
    ensures forall j :: from <= j < k ==> !r.Less(tree[j].0)
    ensures k < |tree| ==> r.Less(tree[k].0)
    decreases |tree| - from
  {
    if from == |tree| || r.Less(tree[from].0) then from else UpperBound(tree, r, from + 1)
  }

  /** Step backwards while looking at ranges of the same chunk. */
  function WalkBack<V>(tree: Tree<V>, orig: AddrRange, i: nat, r: AddrRange): Found
    requires Fit(tree) && i < |tree|
  {
    if i != 0 && tree[i].0.MergesWith(orig) then
      match tree[i - 1].0.Intersects(r)
      case None => Panic
      case Some(hit) => if hit then At(i - 1) else WalkBack(tree, orig, i - 1, r)
    else
      match tree[i].0.Intersects(r)
      case None => Panic
      case Some(hit) => if hit then At(i) else End
  }

  function Search<V>(tree: Tree<V>, r: AddrRange): Found
    requires Fit(tree)
  {
    if tree == [] then End
    else
      var k := UpperBound(tree, r, 0);
      var i := if k == 0 then 0 else k - 1;
      match tree[i].0.Intersects(r)
      case None => Panic
      case Some(hit) =>
        if hit then At(i)
        else if k != 0 && tree[i].0.Interleaved() then WalkBack(tree, tree[i].0, i, r)
        else End
  }

  /** The one-address range that a lookup by address searches for. */
  function Point(a: nat): AddrRange {
    AddrRange(a, a, 0, 0, 0, 0)
  }

  // ---------- well-formed maps ----------

  /** Spans apart, or different stripes of one chunk; `r` comes first. */
  predicate Compatible(r: AddrRange, q: AddrRange) {
    r.end < q.start || (r.Interleaved() && r.MergesWith(q) && r.intlvMatch != q.intlvMatch)
  }

  ghost predicate WellFormed<V>(tree: Tree<V>) {
    && Sorted(tree) && Fit(tree)
    && (forall i :: 0 <= i < |tree| ==> tree[i].0.Valid())
    && forall i, j :: 0 <= i < j < |tree| ==> Compatible(tree[i].0, tree[j].0)
  }

  ghost predicate Holds<V>(tree: Tree<V>, i: nat, a: nat) {
    i < |tree| && tree[i].0.SlicesFit() && tree[i].0.Contains(a)
  }

  /** No address belongs to two entries. */
  lemma UniqueHolder<V>(tree: Tree<V>, i: nat, j: nat, a: nat)
    requires WellFormed(tree) && Holds(tree, i, a) && Holds(tree, j, a)
    ensures i == j
  {
  }

  /** An entry that holds the start of its own chunk is stripe 0, or the first entry of all. */
  ghost predicate StartsInStripe0<V>(tree: Tree<V>) {
    forall j :: 0 < j < |tree| && Holds(tree, j, tree[j].0.start) ==> tree[j].0.intlvMatch == 0
  }

  lemma IntersectsPoint(r: AddrRange, a: nat)
    requires r.SlicesFit()
    ensures r.Intersects(Point(a)) == Some(r.Contains(a))
  {
    assert Point(a).Size() == 1;
  }

  lemma {:induction false} WalkBackSound<V>(tree: Tree<V>, orig: AddrRange, i: nat, a: nat)
    requires Fit(tree) && i < |tree|
    ensures WalkBack(tree, orig, i, Point(a)) != Panic
    ensures WalkBack(tree, orig, i, Point(a)).At? ==>
              WalkBack(tree, orig, i, Point(a)).index <= i && Holds(tree, WalkBack(tree, orig, i, Point(a)).index, a)
    decreases i
  {
    IntersectsPoint(tree[i].0, a);
    if i == 0 || !tree[i].0.MergesWith(orig) {
    } else {
      IntersectsPoint(tree[i - 1].0, a);
      WalkBackSound(tree, orig, i - 1, a);
    }
  }

  lemma {:induction false} WalkBackFinds<V>(tree: Tree<V>, orig: AddrRange, i: nat, a: nat, j: nat)
    requires Fit(tree) && j < i < |tree| && Holds(tree, j, a)
    requires forall m :: j < m <= i ==> tree[m].0.MergesWith(orig)
    ensures WalkBack(tree, orig, i, Point(a)).At?
    decreases i
  {
    IntersectsPoint(tree[i - 1].0, a);
    if j >= i - 1 {
    } else {
      WalkBackFinds(tree, orig, i - 1, a, j);
    }
  }

  /** What lies between two stripes of a chunk is a stripe of it. */
  lemma BetweenStripes<V>(tree: Tree<V>, j: nat, m: nat, i: nat)
    requires WellFormed(tree) && j <= m <= i < |tree| && tree[j].0.MergesWith(tree[i].0)
    ensures tree[m].0.MergesWith(tree[i].0)
  {
    if j < m < i {
      assert tree[j].0.Less(tree[m].0) && tree[m].0.Less(tree[i].0);
      assert Compatible(tree[j].0, tree[m].0);
    }
  }

  lemma SearchSound<V>(tree: Tree<V>, a: nat)
    requires Fit(tree)
    ensures Search(tree, Point(a)) != Panic
    ensures Search(tree, Point(a)).At? ==> Holds(tree, Search(tree, Point(a)).index, a)
  {
    if tree != [] {
      var k := UpperBound(tree, Point(a), 0);
      var i := if k == 0 then 0 else k - 1;
      IntersectsPoint(tree[i].0, a);
      WalkBackSound(tree, tree[i].0, i, a);
    }
  }

  lemma SearchComplete<V>(tree: Tree<V>, a: nat, j: nat)
    requires WellFormed(tree) && StartsInStripe0(tree) && Holds(tree, j, a)
    ensures Search(tree, Point(a)).At?
  {
    var k := UpperBound(tree, Point(a), 0);
    var i := if k == 0 then 0 else k - 1;
    IntersectsPoint(tree[i].0, a);
    if j >= k {
      assert k < j ==> tree[k].0.Less(tree[j].0);
      assert Point(a).Less(tree[j].0);
      assert j == 0;
    } else if j < i {
      assert tree[j].0.Less(tree[i].0) && Compatible(tree[j].0, tree[i].0);
      assert !Point(a).Less(tree[i].0);
      forall m | j < m <= i
        ensures tree[m].0.MergesWith(tree[i].0)
      {
        BetweenStripes(tree, j, m, i);
      }
      WalkBackFinds(tree, tree[i].0, i, a, j);
    }
  }

  /** The search agrees with a scan of all entries. */
  ghost predicate Agrees<V>(tree: Tree<V>, a: nat)
    requires Fit(tree)
  {
    match Search(tree, Point(a))
    case At(i) => Holds(tree, i, a)
    case End => forall i :: !Holds(tree, i, a)
    case Panic => false
  }

  /** In a well-formed map the lookup by address is right for every address, if and only if
      chunks start in their stripe 0. */
  lemma FindAddressExact<V>(tree: Tree<V>)
    requires WellFormed(tree)
    ensures (forall a: nat :: Agrees(tree, a)) <==> StartsInStripe0(tree)
  {
    if StartsInStripe0(tree) {
      forall a: nat
        ensures Agrees(tree, a)
      {
        SearchSound(tree, a);
        forall j: nat | Holds(tree, j, a)
          ensures Search(tree, Point(a)).At?
        {
          SearchComplete(tree, a, j);
        }
      }
    } else {
      var j :| 0 < j < |tree| && Holds(tree, j, tree[j].0.start) && tree[j].0.intlvMatch != 0;
      StartMissed(tree, j);
    }
  }

  /** An entry behind the first that holds the start of its chunk in another stripe is not found there. */
  lemma StartMissed<V>(tree: Tree<V>, j: nat)
    requires WellFormed(tree) && 0 < j < |tree| && Holds(tree, j, tree[j].0.start) && tree[j].0.intlvMatch != 0
    ensures !Agrees(tree, tree[j].0.start)
  {
    var a := tree[j].0.start;
    var k := UpperBound(tree, Point(a), 0);
    assert k <= j;
    var i := if k == 0 then 0 else k - 1;
    IntersectsPoint(tree[i].0, a);
    WalkBackSound(tree, tree[i].0, i, a);
    if Search(tree, Point(a)).At? {
      UniqueHolder(tree, Search(tree, Point(a)).index, j, a);
    }
  }

  /** What a search reports: a hit that the test confirms, or a panic of the test. */
  lemma {:induction false} WalkBackReports<V>(tree: Tree<V>, orig: AddrRange, i: nat, r: AddrRange)
    requires Fit(tree) && i < |tree|
    ensures match WalkBack(tree, orig, i, r)
            case At(j) => j <= i && tree[j].0.Intersects(r) == Some(true)
            case Panic => exists j :: 0 <= j <= i && tree[j].0.Intersects(r) == None
            case End => tree[i].0.Intersects(r) == Some(true) ==> i != 0 && tree[i].0.MergesWith(orig)
    decreases i
  {
    hide AddrRange.Intersects, AddrRange.MergesWith;
    if i == 0 || !tree[i].0.MergesWith(orig) {
    } else {
      WalkBackReports(tree, orig, i - 1, r);
    }
  }

  lemma SearchReports<V>(tree: Tree<V>, r: AddrRange)
    requires Fit(tree)
    ensures match Search(tree, r)
            case At(j) => j < |tree| && tree[j].0.Intersects(r) == Some(true)
            case Panic => exists j :: 0 <= j < |tree| && tree[j].0.Intersects(r) == None
            case End => true
  {
    hide AddrRange.Intersects, AddrRange.MergesWith, WalkBack;
    if tree != [] {
      var k := UpperBound(tree, r, 0);
      var i := if k == 0 then 0 else k - 1;
      WalkBackReports(tree, tree[i].0, i, r);
    }
  }

  ghost predicate AllPlain<V>(tree: Tree<V>) {
    forall i :: 0 <= i < |tree| ==> tree[i].0.intlvBits == 0 && tree[i].0.start <= tree[i].0.end
  }

  /** The entry before `r` in the order, or the first one, has an address in common with it. */
  ghost predicate Meets<V>(tree: Tree<V>, r: AddrRange)
    requires Fit(tree) && r.SlicesFit()
  {
    && tree != []
    && var k := UpperBound(tree, r, 0);
       Share(tree[if k == 0 then 0 else k - 1].0, r)
  }

  /** Among plain ranges a search never panics, and it reports exactly the entry before, or the first one, if that has
      an address in common with the range. */
  lemma PlainSearch<V>(tree: Tree<V>, r: AddrRange)
    requires Fit(tree) && AllPlain(tree) && r.intlvBits == 0 && r.start <= r.end
    ensures var k := UpperBound(tree, r, 0);
            Search(tree, r) == if Meets(tree, r) then At(if k == 0 then 0 else k - 1) else End
  {
    if tree != [] {
      var k := UpperBound(tree, r, 0);
      PlainExact(tree[if k == 0 then 0 else k - 1].0, r);
      hide AddrRange.Intersects;
    }
  }

  // ---------- insertion ----------

  function Put<V>(tree: Tree<V>, k: nat, r: AddrRange, d: V): Tree<V>
    requires k <= |tree|
  {
    tree[..k] + [(r, d)] + tree[k..]
  }

  /** Some key is equivalent to `r` in the order of the map: the map then refuses a second one. */
  predicate Taken<V>(tree: Tree<V>, r: AddrRange) {
    var k := UpperBound(tree, r, 0);
    k > 0 && !tree[k - 1].0.Less(r)
  }

  lemma PutSorted<V>(tree: Tree<V>, r: AddrRange, d: V)
    requires Sorted(tree) && !Taken(tree, r)
    ensures Sorted(Put(tree, UpperBound(tree, r, 0), r, d))
  {
    var k := UpperBound(tree, r, 0);
    var tree' := Put(tree, k, r, d);
    forall i, j | 0 <= i < j < |tree'|
      ensures tree'[i].0.Less(tree'[j].0)
    {
      if j == k {
        assert i < k - 1 ==> tree[i].0.Less(tree[k - 1].0);
      } else if i == k {
        assert k < j - 1 ==> tree[k].0.Less(tree[j - 1].0);
      }
    }
  }

  /** `r` fits between its neighbours. */
  predicate FitsIn<V>(tree: Tree<V>, r: AddrRange) {
    var k := UpperBound(tree, r, 0);
    && (k > 0 ==> Compatible(tree[k - 1].0, r))
    && (k < |tree| ==> Compatible(r, tree[k].0))
  }

  /** Two neighbours that are compatible with `r` make everything beyond them compatible, too. */
  lemma CompatibleBelow<V>(tree: Tree<V>, r: AddrRange, i: nat, k: nat)
    requires WellFormed(tree) && i < k <= |tree| && Compatible(tree[k - 1].0, r)
    requires tree[k - 1].0.Less(r)
    ensures Compatible(tree[i].0, r)
  {
    if i < k - 1 {
      assert Compatible(tree[i].0, tree[k - 1].0) && tree[i].0.Less(tree[k - 1].0);
    }
  }

  lemma CompatibleAbove<V>(tree: Tree<V>, r: AddrRange, k: nat, j: nat)
    requires WellFormed(tree) && k <= j < |tree| && Compatible(r, tree[k].0) && r.Less(tree[k].0)
    ensures Compatible(r, tree[j].0)
  {
    if k < j {
      assert Compatible(tree[k].0, tree[j].0) && tree[k].0.Less(tree[j].0);
    }
  }

  /** Inserting keeps the map well-formed if and only if the new range fits between its neighbours. */
  lemma PutExact<V>(tree: Tree<V>, r: AddrRange, d: V)
    requires WellFormed(tree) && r.Valid() && r.SlicesFit() && !Taken(tree, r)
    ensures WellFormed(Put(tree, UpperBound(tree, r, 0), r, d)) <==> FitsIn(tree, r)
  {
    var k := UpperBound(tree, r, 0);
    var tree' := Put(tree, k, r, d);
    PutSorted(tree, r, d);
    if FitsIn(tree, r) {
      PutCompatible(tree, r, d);
    }
    hide AddrRange.SlicesFit, Compatible;
    if WellFormed(tree') {
      assert k > 0 ==> Compatible(tree'[k - 1].0, tree'[k].0);
      assert k < |tree| ==> Compatible(tree'[k].0, tree'[k + 1].0);
    }
  }

  lemma PutCompatible<V>(tree: Tree<V>, r: AddrRange, d: V)
    requires WellFormed(tree) && r.Valid() && !Taken(tree, r) && FitsIn(tree, r)
    ensures var tree' := Put(tree, UpperBound(tree, r, 0), r, d);
            forall i, j :: 0 <= i < j < |tree'| ==> Compatible(tree'[i].0, tree'[j].0)
  {
    var k := UpperBound(tree, r, 0);
    var tree' := Put(tree, k, r, d);
    hide Compatible, AddrRange.SlicesFit, AddrRange.Valid;
    forall i, j | 0 <= i < j < |tree'|
      ensures Compatible(tree'[i].0, tree'[j].0)
    {
      if j == k {
        CompatibleBelow(tree, r, i, k);
      } else if i == k {
        CompatibleAbove(tree, r, k, j - 1);
      }
    }
  }

  /** A range that holds the start of its chunk is stripe 0. */
  predicate StartIs0(r: AddrRange) {
    r.SlicesFit() && r.Contains(r.start) ==> r.intlvMatch == 0
  }

  /** Chunks still start in stripe 0 after an insertion if and only if they did before and the new range does, or, if
      it goes to the front, the old first entry, which was exempt. */
  lemma PutStarts<V>(tree: Tree<V>, k: nat, r: AddrRange, d: V)
    requires k <= |tree|
    ensures StartsInStripe0(Put(tree, k, r, d)) <==>
            StartsInStripe0(tree) && (if k > 0 then StartIs0(r) else tree != [] ==> StartIs0(tree[0].0))
  {
    var tree' := Put(tree, k, r, d);
    hide AddrRange.Contains, AddrRange.SlicesFit;
    if StartsInStripe0(tree') {
      assert k > 0 ==> (Holds(tree', k, r.start) ==> tree'[k].0.intlvMatch == 0);
      forall j | 0 < j < |tree| && Holds(tree, j, tree[j].0.start)
        ensures tree[j].0.intlvMatch == 0
      {
        var j' := if j < k then j else j + 1;
        assert tree'[j'] == tree[j] && Holds(tree', j', tree'[j'].0.start);
      }
      if k == 0 && tree != [] {
        assert tree'[1] == tree[0] && (StartIs0(tree[0].0) || Holds(tree', 1, tree'[1].0.start));
      }
    } else {
      var j :| 0 < j < |tree'| && Holds(tree', j, tree'[j].0.start) && tree'[j].0.intlvMatch != 0;
      assert j < k ==> tree'[j] == tree[j];
      assert j > k ==> tree'[j] == tree[j - 1] && Holds(tree, j - 1, tree[j - 1].0.start);
    }
  }

  /** What a failed search says about the predecessor: for a range of size 1 it is cleared exactly when the range starts
      behind it or is another stripe of its chunk, for any other range always. Beyond that only the next entry can be in
      the way. */
  lemma PredecessorChecked<V>(tree: Tree<V>, r: AddrRange)
    requires WellFormed(tree) && r.Valid() && r.SlicesFit() && Search(tree, r) == End
    ensures var k := UpperBound(tree, r, 0); k > 0 ==> (Compatible(tree[k - 1].0, r) <==> Cleared(tree[k - 1].0, r))
    ensures FitsIn(tree, r) <==>
            var k := UpperBound(tree, r, 0); (k > 0 ==> Cleared(tree[k - 1].0, r)) && (k < |tree| ==> Compatible(r, tree[k].0))
  {
    hide AddrRange.Size, AddrRange.Stripe, WalkBack;
    var k := UpperBound(tree, r, 0);
    if k > 0 {
      assert !r.Less(tree[k - 1].0);
      assert tree[k - 1].0.Intersects(r) == Some(false);
    }
  }

  predicate Cleared(p: AddrRange, r: AddrRange) {
    r.Size() == 1 ==> p.end < r.start || (p.MergesWith(r) && p.intlvMatch != r.intlvMatch)
  }

  lemma Bit6(p: AddrRange)
    requires p.intlvHighBit == 6 && p.xorHighBit == 0 && p.intlvBits == 1
    ensures p.SlicesFit() && p.Stripe(64) == 1
  {
    BitsIsSlice(64, 6, 6);
    assert ShiftRight(64, 6) == ShiftRight(8, 3) == 1;
    assert Low(1, 1) == 1;
  }

  lemma AloneIsFirst<V>(tree: Tree<V>, r: AddrRange)
    requires |tree| == 1 && tree[0].0.Less(r)
    ensures UpperBound(tree, r, 0) == 1 && !Taken(tree, r)
  {
    assert UpperBound(tree, r, 0) == UpperBound(tree, r, 1);
  }

  /** A single address in the gap of a stripe: the insertion is accepted and breaks the map. */
  lemma GapSlipsIn<V>(tree: Tree<V>, p: AddrRange, a: nat, d: V)
    requires |tree| == 1 && tree[0].0 == p && p.SlicesFit() && p.Interleaved() && p.start < a <= p.end && !p.Contains(a)
    ensures WellFormed(tree) && Search(tree, Point(a)) == End && !Taken(tree, Point(a)) && UpperBound(tree, Point(a), 0) == 1
    ensures !WellFormed(Put(tree, 1, Point(a), d))
  {
    var r := Point(a);
    IntersectsPoint(p, a);
    AloneIsFirst(tree, r);
    assert r.SlicesFit() && !Compatible(p, r);
    hide UpperBound, Taken, Put, AddrRange.Stripe, AddrRange.Contains, AddrRange.Intersects, AddrRange.Size;
    assert WalkBack(tree, p, 0, r) == End;
    PutExact(tree, r, d);
  }

  /** The address 64 in the chunk [0,127], behind its stripe 0. */
  lemma SingleSlipsIn(tree: Tree<int>, r: AddrRange)
    requires tree == [(AddrRange(0, 127, 6, 0, 1, 0), 1)] && r == Point(64)
    ensures WellFormed(tree) && Search(tree, r) == End && !Taken(tree, r) && UpperBound(tree, r, 0) == |tree| == 1
    ensures !WellFormed(Put(tree, 1, r, 2))
  {
    hide Search, Taken, UpperBound, WellFormed, Put, AddrRange.Stripe;
    Bit6(tree[0].0);
    GapSlipsIn(tree, tree[0].0, 64, 2);
  }

  /** A stripe that claims to meet a later one of its chunk keeps that one out. */
  lemma ClaimRefuses<V>(tree: Tree<V>, q: AddrRange)
    requires |tree| == 1 && tree[0].0.SlicesFit() && tree[0].0.Valid() && tree[0].0.Interleaved() && tree[0].0.MergesWith(q)
    requires tree[0].0.intlvMatch < q.intlvMatch && tree[0].0.Intersects(q) == Some(true)
    ensures WellFormed(tree) && Search(tree, q) == At(0) && FitsIn(tree, q)
  {
    assert UpperBound(tree, q, 0) == UpperBound(tree, q, 1) == 1;
  }

  /** The second stripe of the chunk [0,1] is refused although it fits. */
  lemma StripeRefused(tree: Tree<int>, q: AddrRange)
    requires tree == [(AddrRange(0, 1, 0, 0, 1, 0), 1)] && q == AddrRange(0, 1, 0, 0, 1, 1)
    ensures WellFormed(tree) && Search(tree, q) == At(0) && FitsIn(tree, q)
  {
    hide Search, FitsIn, WellFormed, AddrRange.Intersects, AddrRange.Aligned, AddrRange.Size, Share, Build;
    WrongVerdict(tree[0].0, q);
    ClaimRefuses(tree, q);
  }

  /** The lookup of address 64 in a chunk that starts in its stripe 1. */
  lemma StartMissedAt64(tree: Tree<int>)
    requires tree == [(AddrRange(0, 63, 0, 0, 0, 0), 1), (AddrRange(64, 191, 6, 0, 1, 1), 2)]
    ensures WellFormed(tree) && Holds(tree, 1, 64) && !Agrees(tree, 64)
  {
    Bit6(tree[1].0);
    hide AddrRange.Stripe;
    assert Holds(tree, 1, tree[1].0.start);
    StartMissed(tree, 1);
  }

  /** The accepted insertion that breaks the map: [50,70] between [10,40] and [60,90]. */
  lemma OverlapSlipsIn()
    ensures var tree := [(AddrRange(10, 40, 0, 0, 0, 0), 5), (AddrRange(60, 90, 0, 0, 0, 0), 3)];
            var r := AddrRange(50, 70, 0, 0, 0, 0);
            WellFormed(tree) && Search(tree, r) == End && !Taken(tree, r) &&
            var tree' := Put(tree, UpperBound(tree, r, 0), r, 1);
            !WellFormed(tree') && Holds(tree', 1, 65) && Holds(tree', 2, 65)
  {
    var tree := [(AddrRange(10, 40, 0, 0, 0, 0), 5), (AddrRange(60, 90, 0, 0, 0, 0), 3)];
    var r := AddrRange(50, 70, 0, 0, 0, 0);
    assert UpperBound(tree, r, 0) == UpperBound(tree, r, 1) == 1;
    var tree' := Put(tree, 1, r, 1);
    assert tree'[1].0 == r && tree'[2].0 == AddrRange(60, 90, 0, 0, 0, 0);
    assert !Compatible(tree'[1].0, tree'[2].0);
  }

  /** What an accepted insertion does to the map. */
  lemma Accepted<V>(tree: Tree<V>, r: AddrRange, d: V)
    requires Sorted(tree) && Fit(tree) && r.SlicesFit() && Search(tree, r) == End && !Taken(tree, r)
    ensures var k := UpperBound(tree, r, 0);
            var tree' := Put(tree, k, r, d);
            && Sorted(tree') && Fit(tree')
            && (WellFormed(tree) ==> (WellFormed(tree') <==> r.Valid() && FitsIn(tree, r)))
            && (WellFormed(tree) && r.Valid() && r.Size() != 1 ==>
                  (WellFormed(tree') <==> (k < |tree| ==> Compatible(r, tree[k].0))))
            && (StartsInStripe0(tree') <==>
                StartsInStripe0(tree) && if k > 0 then StartIs0(r) else tree != [] ==> StartIs0(tree[0].0))
  {
    var k := UpperBound(tree, r, 0);
    var tree' := Put(tree, k, r, d);
    PutSorted(tree, r, d);
    PutStarts(tree, k, r, d);
    hide StartsInStripe0, StartIs0, FitsIn, Compatible, Search, Taken, AddrRange.Size;
    if WellFormed(tree) && r.Valid() {
      PutExact(tree, r, d);
      CheckedFits(tree, r);
    }
    assert tree'[k].0 == r;
  }

  lemma CheckedFits<V>(tree: Tree<V>, r: AddrRange)
    requires WellFormed(tree) && r.Valid() && r.SlicesFit() && Search(tree, r) == End
    ensures r.Size() != 1 ==> (FitsIn(tree, r) <==> var k := UpperBound(tree, r, 0); k < |tree| ==> Compatible(r, tree[k].0))
  {
    PredecessorChecked(tree, r);
    hide AddrRange.Size, Search, Compatible, FitsIn;
  }

  // ---------- the map object ----------

  class AddrRangeMap<V> {
    var tree: Tree<V>

    ghost predicate Valid()
      reads this
    {
      Sorted(tree) && Fit(tree)
    }

    constructor ()
      ensures Valid() && tree == []
    {
      tree := [];
    }

    method FindRange(r: AddrRange) returns (found: Found)
      requires Valid()
      ensures found == Search(tree, r)
    {
      if tree == [] {
        return End;
      }
      var i := UpperBound(tree, r, 0);
      if i == 0 {
        var hit := tree[i].0.Intersects(r);
        return if hit.None? then Panic else if hit.value then At(i) else End;
      }
      i := i - 1;
      var hit := tree[i].0.Intersects(r);
      if hit.None? { return Panic; }
      if hit.value { return At(i); }
      if tree[i].0.Interleaved() {
        var orig := tree[i].0;
        ghost var start := i;
        while i != 0 && tree[i].0.MergesWith(orig)
          invariant 0 <= i < |tree|
          invariant WalkBack(tree, orig, i, r) == WalkBack(tree, orig, start, r)
        {
          i := i - 1;
          hit := tree[i].0.Intersects(r);
          if hit.None? { return Panic; }
          if hit.value { return At(i); }
        }
        hit := tree[i].0.Intersects(r);
        if hit.None? { return Panic; }
        if hit.value { return At(i); }
      }
      return End;
    }

    /** In any map an entry found holds the address; in a well-formed one whose chunks start in stripe 0 it
        is the only one, and the end is returned only if there is none. */
    method Find(a: nat) returns (found: Found)
      requires Valid()
      ensures found != Panic && (found.At? ==> Holds(tree, found.index, a))
      ensures WellFormed(tree) && found.At? ==> forall j :: Holds(tree, j, a) ==> j == found.index
      ensures WellFormed(tree) && StartsInStripe0(tree) && found.End? ==> forall j :: !Holds(tree, j, a)
    {
      found := FindRange(Point(a));
      SearchSound(tree, a);
      if WellFormed(tree) {
        FindAddressExact(tree);
        assert StartsInStripe0(tree) ==> Agrees(tree, a);
        if found.At? {
          forall j | Holds(tree, j, a)
            ensures j == found.index
          {
            UniqueHolder(tree, j, found.index, a);
          }
        }
      }
    }

    /** The iterator of the new entry, of the equivalent old one, or the end iterator on a clash. */
    method Insert(r: AddrRange, d: V) returns (at: Found)
      requires Valid() && r.SlicesFit()
      modifies this
      ensures Valid() && at == (match Search(old(tree), r)
                                case Panic => Panic
                                case At(_) => End
                                case End => At(if Taken(old(tree), r) then UpperBound(old(tree), r, 0) - 1
                                               else UpperBound(old(tree), r, 0)))
      ensures tree == if Search(old(tree), r) == End && !Taken(old(tree), r)
                      then Put(old(tree), UpperBound(old(tree), r, 0), r, d) else old(tree)
      ensures old(WellFormed(tree)) && at.At? && !Taken(old(tree), r) ==>
                (WellFormed(tree) <==> r.Valid() && FitsIn(old(tree), r))
      ensures old(WellFormed(tree)) && at.At? && !Taken(old(tree), r) && r.Valid() && r.Size() != 1 ==>
                (WellFormed(tree) <==>
                 var k := UpperBound(old(tree), r, 0); k < |old(tree)| ==> Compatible(r, old(tree)[k].0))
      ensures at.At? && !Taken(old(tree), r) ==>
                (StartsInStripe0(tree) <==>
                 && old(StartsInStripe0(tree))
                 && if UpperBound(old(tree), r, 0) > 0 then StartIs0(r) else old(tree) != [] ==> StartIs0(old(tree)[0].0))
      ensures AllPlain(old(tree)) && r.intlvBits == 0 && r.start <= r.end ==>
                at != Panic && (at == End <==> Meets(old(tree), r))
    {
      hide StartsInStripe0, StartIs0, WellFormed, FitsIn, Compatible, AddrRange.Size, Search, Put, Meets;
      if AllPlain(tree) && r.intlvBits == 0 && r.start <= r.end {
        PlainSearch(tree, r);
      }
      var found := FindRange(r);
      match found
      case Panic =>
        at := Panic;
      case At(_) =>
        at := End;
      case End =>
        var k := UpperBound(tree, r, 0);
        if k > 0 && !tree[k - 1].0.Less(r) {
          at := At(k - 1);
        } else {
          Accepted(tree, r, d);
          tree := Put(tree, k, r, d);
          at := At(k);
        }
    }
  }
}
