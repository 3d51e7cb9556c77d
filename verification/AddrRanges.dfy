/** Address ranges, plain or striped: a stripe is picked by a slice of address
    bits, possibly XOR-hashed with a second slice. */
module AddrRanges {
  import opened NatBits
  import opened Options
  import SetSizes

  /** Addresses are 64 bits wide. */
  const ADDRESSES := 0x1_0000_0000_0000_0000

  datatype AddrRange = AddrRange(start: nat, end: nat, intlvHighBit: nat, xorHighBit: nat,
                                 intlvBits: nat, intlvMatch: nat) {

    /** The fields fit the source's 64-bit and 8-bit fields. */
    predicate Typed() {
      start < ADDRESSES && end < ADDRESSES &&
      intlvHighBit < 256 && xorHighBit < 256 && intlvBits < 256 && intlvMatch < 256
    }

    predicate Interleaved() {
      intlvBits != 0
    }

    predicate Hashed() {
      Interleaved() && xorHighBit != 0
    }

    /** Both slices lie within the address; shifting by anything else is undefined. */
    predicate SlicesFit() {
      && (Interleaved() ==> intlvBits <= intlvHighBit + 1 <= 64)
      && (Hashed() ==> intlvBits <= xorHighBit + 1 <= 64)
    }

    function Size(): nat {
      ShiftRight((end - start + 1) % ADDRESSES, intlvBits)
    }

    predicate Valid() {
      start <= end
    }

    predicate MergesWith(r: AddrRange) {
      r.start == start && r.end == end && r.intlvHighBit == intlvHighBit &&
      r.xorHighBit == xorHighBit && r.intlvBits == intlvBits
    }

    /** The stripe an address falls into. */
    function Stripe(a: nat): nat
      requires Interleaved() && SlicesFit()
    {
      var slice := Bits(a, intlvHighBit, intlvHighBit + 1 - intlvBits);
      if !Hashed() then slice
      else Xor(slice, Bits(a, xorHighBit, xorHighBit + 1 - intlvBits))
    }

    predicate Contains(a: nat)
      requires SlicesFit()
    {
      var inRange := start <= a <= end;
      if !Interleaved() then inRange
      else if inRange then Stripe(a) == intlvMatch
      else false
    }

    /** Do the ranges share an address? None: the source gives up with a panic. */
    function Intersects(r: AddrRange): Option<bool>
      requires SlicesFit()
    {
      if start > r.end || end < r.start then Some(false)
      else if !Interleaved() && !r.Interleaved() then Some(true)
      else if r.Size() == 1 then Some(Contains(r.start))
      else if MergesWith(r) then Some(intlvMatch == r.intlvMatch)
      else None
    }

    /** The order of the keys in a range map. */
    predicate Less(r: AddrRange) {
      if start != r.start then start < r.start else intlvMatch < r.intlvMatch
    }

    // ---------- every stripe gets its share ----------

    /** The two slices are not the same one. */
    predicate SlicesDiffer() {
      Hashed() ==> xorHighBit != intlvHighBit
    }

    /** The low end of the interleaving slice. */
    function LowBit(): nat
      requires Interleaved() && SlicesFit()
    {
      intlvHighBit + 1 - intlvBits
    }

    /** The address with slice value `u`, the bits `base` above the slice and `low` below it. */
    ghost function Join(base: nat, u: nat, low: nat): nat
      requires Interleaved() && SlicesFit()
    {
      (base * Pow2(intlvBits) + u) * Pow2(LowBit()) + low
    }

    lemma JoinBit(base: nat, u: nat, low: nat, j: nat)
      requires Interleaved() && SlicesFit() && u < Pow2(intlvBits) && low < Pow2(LowBit())
      ensures Bit(Join(base, u, low), j) ==
              if j < LowBit() then Bit(low, j)
              else if j < intlvHighBit + 1 then Bit(u, j - LowBit())
              else Bit(base, j - intlvHighBit - 1)
    {
      hide Pow2, Bit;
      BitSplitTwice(base, u, low, intlvBits, LowBit(), j);
    }

    lemma StripeBit(a: nat, i: nat)
      requires Interleaved() && SlicesFit() && i < intlvBits
      ensures Bit(Stripe(a), i) ==
              if Hashed() then Bit(a, LowBit() + i) != Bit(a, xorHighBit + 1 - intlvBits + i)
              else Bit(a, LowBit() + i)
    {
      BitOfBits(a, intlvHighBit, LowBit(), i);
      if Hashed() {
        var xlo := xorHighBit + 1 - intlvBits;
        BitOfBits(a, xorHighBit, xlo, i);
        BitOfXor(Bits(a, intlvHighBit, LowBit()), Bits(a, xorHighBit, xlo), i);
      }
    }

    lemma StripeFits(a: nat)
      requires Interleaved() && SlicesFit()
      ensures Stripe(a) < Pow2(intlvBits)
    {
      BitsIsSlice(a, intlvHighBit, LowBit());
      if Hashed() {
        var xlo := xorHighBit + 1 - intlvBits;
        BitsIsSlice(a, xorHighBit, xlo);
        XorFits(Bits(a, intlvHighBit, LowBit()), Bits(a, xorHighBit, xlo), intlvBits);
      }
    }

    /** With everything else fixed, different slice values go to different stripes,
        even where the two slices overlap. */
    lemma StripeInjective(base: nat, low: nat, u: nat, v: nat)
      requires Interleaved() && SlicesFit() && SlicesDiffer()
      requires low < Pow2(LowBit()) && u < Pow2(intlvBits) && v < Pow2(intlvBits) && u != v
      ensures Stripe(Join(base, u, low)) != Stripe(Join(base, v, low))
    {
      var i;
      if Hashed() && xorHighBit < intlvHighBit {
        i := LowestDifference(u, v, intlvBits);
      } else {
        i := HighestDifference(u, v, intlvBits);
      }
      var a, b := Join(base, u, low), Join(base, v, low);
      StripeBit(a, i);
      StripeBit(b, i);
      JoinBit(base, u, low, LowBit() + i);
      JoinBit(base, v, low, LowBit() + i);
      if Hashed() {
        var j := xorHighBit + 1 - intlvBits + i;
        JoinBit(base, u, low, j);
        JoinBit(base, v, low, j);
        assert Bit(a, j) == Bit(b, j);
      }
      assert Bit(Stripe(a), i) != Bit(Stripe(b), i);
    }

    /** ... and every stripe is reached. */
    lemma StripeOnto(base: nat, low: nat, m: nat)
      requires Interleaved() && SlicesFit() && SlicesDiffer() && low < Pow2(LowBit()) && m < Pow2(intlvBits)
      ensures exists u: nat :: u < Pow2(intlvBits) && Stripe(Join(base, u, low)) == m
    {
      var stripes := map u | u in SetSizes.Below(Pow2(intlvBits)) :: Stripe(Join(base, u, low));
      forall u | u in stripes
        ensures stripes[u] < Pow2(intlvBits)
      {
        StripeFits(Join(base, u, low));
      }
      forall u, v | u in stripes && v in stripes && stripes[u] == stripes[v]
        ensures u == v
      {
        if u != v { StripeInjective(base, low, u, v); }
      }
      SetSizes.InjectiveIsOnto(stripes, Pow2(intlvBits), m);
    }

    /** The addresses of the range. */
    ghost function Members(): set<nat>
      requires SlicesFit()
    {
      set a: nat | start <= a <= end && Contains(a)
    }

    /** Start and length are multiples of the block the interleaving slice divides. */
    predicate Aligned() {
      start <= end && Low(start, intlvHighBit + 1) == 0 && Low(end + 1 - start, intlvHighBit + 1) == 0
    }

    ghost function FirstBlock(): nat {
      ShiftRight(start, intlvHighBit + 1)
    }

    ghost function Blocks(): nat
      requires start <= end
    {
      ShiftRight(end + 1 - start, intlvHighBit + 1)
    }

    lemma BlockRange()
      requires Aligned()
      ensures start == FirstBlock() * Pow2(intlvHighBit + 1)
      ensures end + 1 == (FirstBlock() + Blocks()) * Pow2(intlvHighBit + 1)
    {
      HighLow(start, intlvHighBit + 1);
      HighLow(end + 1 - start, intlvHighBit + 1);
      Distribute(FirstBlock(), Blocks(), Pow2(intlvHighBit + 1));
    }

    lemma JoinRange(base: nat, u: nat, low: nat)
      requires Interleaved() && SlicesFit() && u < Pow2(intlvBits) && low < Pow2(LowBit())
      ensures base * Pow2(intlvHighBit + 1) <= Join(base, u, low) < (base + 1) * Pow2(intlvHighBit + 1)
    {
      Pow2Add(intlvBits, LowBit());
      JoinBounds(base, Pow2(intlvBits), u, Pow2(LowBit()), low);
    }

    /** Every address is the join of its parts. */
    lemma Parts(a: nat) returns (base: nat, u: nat, low: nat)
      requires Interleaved() && SlicesFit()
      ensures u < Pow2(intlvBits) && low < Pow2(LowBit()) && a == Join(base, u, low)
    {
      HighLow(a, LowBit());
      HighLow(ShiftRight(a, LowBit()), intlvBits);
      low := Low(a, LowBit());
      u := Low(ShiftRight(a, LowBit()), intlvBits);
      base := ShiftRight(ShiftRight(a, LowBit()), intlvBits);
    }

    lemma PartsUnique(base: nat, u: nat, low: nat, base': nat, u': nat, low': nat)
      requires Interleaved() && SlicesFit() && u < Pow2(intlvBits) && low < Pow2(LowBit())
      requires u' < Pow2(intlvBits) && low' < Pow2(LowBit()) && Join(base, u, low) == Join(base', u', low')
      ensures base == base' && u == u' && low == low'
    {
      hide Pow2;
      ThreeDigits(base, u, low, base', u', low', Pow2(intlvBits), Pow2(LowBit()));
    }

    /** The member that lies in block `base` of the address space at offset `low` of its granule. */
    ghost function Member(base: nat, low: nat): (a: nat)
      requires Interleaved() && SlicesFit() && SlicesDiffer() && low < Pow2(LowBit()) && intlvMatch < Pow2(intlvBits)
      ensures exists u: nat :: u < Pow2(intlvBits) && a == Join(base, u, low) && Stripe(a) == intlvMatch
    {
      StripeOnto(base, low, intlvMatch);
      var u: nat :| u < Pow2(intlvBits) && Stripe(Join(base, u, low)) == intlvMatch;
      Join(base, u, low)
    }

    /** The members, numbered. */
    ghost function Nth(t: nat): nat
      requires Interleaved() && SlicesFit() && SlicesDiffer() && intlvMatch < Pow2(intlvBits)
    {
      HighLow(t, LowBit());
      Member(FirstBlock() + ShiftRight(t, LowBit()), Low(t, LowBit()))
    }

    lemma NthInjective(t: nat, t': nat)
      requires Interleaved() && SlicesFit() && SlicesDiffer() && intlvMatch < Pow2(intlvBits) && Nth(t) == Nth(t')
      ensures t == t'
    {
      HighLow(t, LowBit());
      HighLow(t', LowBit());
      var base, low := FirstBlock() + ShiftRight(t, LowBit()), Low(t, LowBit());
      var base', low' := FirstBlock() + ShiftRight(t', LowBit()), Low(t', LowBit());
      var u: nat :| u < Pow2(intlvBits) && Member(base, low) == Join(base, u, low);
      var u': nat :| u' < Pow2(intlvBits) && Member(base', low') == Join(base', u', low');
      PartsUnique(base, u, low, base', u', low');
    }

    lemma NthIsMember(t: nat)
      requires Interleaved() && SlicesFit() && SlicesDiffer() && intlvMatch < Pow2(intlvBits)
      requires Aligned() && t < Blocks() * Pow2(LowBit())
      ensures Nth(t) in Members()
    {
      var q, low := ShiftRight(t, LowBit()), Low(t, LowBit());
      HighLow(t, LowBit());
      if q >= Blocks() { Times(Blocks(), q, Pow2(LowBit())); }
      var base := FirstBlock() + q;
      var u: nat :| u < Pow2(intlvBits) && Member(base, low) == Join(base, u, low) && Stripe(Member(base, low)) == intlvMatch;
      JoinRange(base, u, low);
      BlockRange();
      Times(FirstBlock(), base, Pow2(intlvHighBit + 1));
      Times(base + 1, FirstBlock() + Blocks(), Pow2(intlvHighBit + 1));
    }

    lemma MemberIsNth(a: nat) returns (t: nat)
      requires Interleaved() && SlicesFit() && SlicesDiffer() && intlvMatch < Pow2(intlvBits)
      requires Aligned() && a in Members()
      ensures t < Blocks() * Pow2(LowBit()) && Nth(t) == a
    {
      hide Pow2, ShiftRight, Low, Bits;
      var base, u, low := Parts(a);
      JoinRange(base, u, low);
      BlockRange();
      var block := Pow2(intlvHighBit + 1);
      if base + 1 <= FirstBlock() { Times(base + 1, FirstBlock(), block); }
      if base >= FirstBlock() + Blocks() { Times(FirstBlock() + Blocks(), base, block); }
      var q := base - FirstBlock();
      t := q * Pow2(LowBit()) + low;
      Joined(q, low, LowBit());
      Times(q + 1, Blocks(), Pow2(LowBit()));
      Distribute(q, 1, Pow2(LowBit()));
      var v: nat :| v < Pow2(intlvBits) && Member(base, low) == Join(base, v, low) && Stripe(Member(base, low)) == intlvMatch;
      if u != v { StripeInjective(base, low, u, v); }
    }

    lemma ShareSize()
      requires Interleaved() && SlicesFit() && Aligned()
      ensures ShiftRight(end + 1 - start, intlvBits) == Blocks() * Pow2(LowBit())
    {
      HighLow(end + 1 - start, intlvHighBit + 1);
      Pow2Add(LowBit(), intlvBits);
      Associate(Blocks(), Pow2(LowBit()), Pow2(intlvBits));
      Joined(Blocks() * Pow2(LowBit()), 0, intlvBits);
    }

    ghost function Numbered(count: nat): map<nat, nat>
      requires Interleaved() && SlicesFit() && SlicesDiffer() && intlvMatch < Pow2(intlvBits)
    {
      map t | t in SetSizes.Below(count) :: Nth(t)
    }

    lemma NumberedCovers()
      requires Interleaved() && SlicesFit() && SlicesDiffer() && Aligned() && intlvMatch < Pow2(intlvBits)
      ensures Members() == Numbered(Blocks() * Pow2(LowBit())).Values
    {
      var all := Numbered(Blocks() * Pow2(LowBit()));
      forall a | a in Members()
        ensures a in all.Values
      {
        var t := MemberIsNth(a);
        assert t in all;
      }
      forall t | t in all
        ensures all[t] in Members()
      {
        NthIsMember(t);
      }
    }

    /** Each stripe of an aligned range holds exactly its share of the addresses. */
    lemma Balanced()
      requires Interleaved() && SlicesFit() && SlicesDiffer() && Aligned() && intlvMatch < Pow2(intlvBits)
      ensures |Members()| == ShiftRight(end + 1 - start, intlvBits)
    {
      var count := Blocks() * Pow2(LowBit());
      var all := Numbered(count);
      forall t, t' | t in all && t' in all && all[t] == all[t']
        ensures t == t'
      {
        NthInjective(t, t');
      }
      SetSizes.InjectiveSize(all);
      SetSizes.BelowSize(count);
      assert all.Keys == SetSizes.Below(count);
      NumberedCovers();
      ShareSize();
    }

    // ---------- size ----------

    lemma ShareBounds()
      requires Interleaved() && SlicesFit() && Aligned()
      ensures 0 < ShiftRight(end + 1 - start, intlvBits) < end + 1 - start
    {
      assert Pow2(0) == 1;
      hide Pow2, ShiftRight, Low;
      var len := end + 1 - start;
      HighLow(len, intlvHighBit + 1);
      HighLow(len, intlvBits);
      Pow2Mono(intlvBits, intlvHighBit + 1);
      Pow2Mono(0, intlvBits);
      Shared(len, Blocks(), Pow2(intlvHighBit + 1), ShiftRight(len, intlvBits), Pow2(intlvBits), Low(len, intlvBits));
    }

    lemma Everything()
      requires SlicesFit() && start <= end && (Interleaved() ==> forall a :: start <= a <= end ==> Stripe(a) == intlvMatch)
      ensures |Members()| == end + 1 - start
    {
      SetSizes.IntervalSize(Members(), start, end + 1 - start);
    }

    /** A hashed range gets its share if and only if it is hashed with a different slice. */
    lemma HashedBalance()
      requires Hashed() && SlicesFit() && Aligned() && intlvMatch < Pow2(intlvBits)
      ensures |Members()| == ShiftRight(end + 1 - start, intlvBits) <==> xorHighBit != intlvHighBit
    {
      if xorHighBit != intlvHighBit {
        Balanced();
      } else {
        ShareBounds();
        forall a | start <= a <= end
          ensures Stripe(a) == 0
        {
          XorSelf(Bits(a, intlvHighBit, LowBit()));
        }
        if intlvMatch == 0 {
          Everything();
        } else {
          assert Members() == {};
        }
      }
    }

    lemma SizeOrWrap()
      requires Typed() && start <= end
      ensures Size() == if start == 0 && end == ADDRESSES - 1 then 0 else ShiftRight(end + 1 - start, intlvBits)
    {
      ShiftOfZero(intlvBits);
    }

    /** `Size` is the number of addresses, except for the range that spans the whole
        address space: its length wraps around to 0. */
    lemma SizeIsCount()
      requires Typed() && SlicesFit() && SlicesDiffer() && start <= end
      requires Interleaved() ==> Aligned() && intlvMatch < Pow2(intlvBits)
      ensures |Members()| == Size() <==> !(start == 0 && end == ADDRESSES - 1)
    {
      SizeOrWrap();
      if Interleaved() {
        Balanced();
        ShareBounds();
      } else {
        Everything();
        assert ShiftRight(end + 1 - start, 0) == end + 1 - start;
      }
    }
  }

  /** The checking constructor; None: the source stops with a fatal error. */
  function Build(start: nat, end: nat, intlvHighBit: nat, xorHighBit: nat, intlvBits: nat, intlvMatch: nat): Option<AddrRange> {
    var range := AddrRange(start, end, intlvHighBit, xorHighBit, intlvBits, intlvMatch);
    if intlvBits != 0 && intlvMatch >= Pow2(intlvBits) then None
    else if intlvBits != 0 && xorHighBit != 0 then
      if xorHighBit == intlvHighBit then None
      else if xorHighBit > intlvHighBit then
        if xorHighBit - intlvHighBit < intlvBits then None else Some(range)
      else
        if intlvHighBit - xorHighBit < intlvBits then None else Some(range)
    else Some(range)
  }

  /** Bit `i` belongs to the `bits`-wide slice whose high bit is `high`. */
  predicate InSlice(i: nat, high: nat, bits: nat) {
    i <= high < i + bits
  }

  /** A hashed range is accepted exactly when its match fits and its two slices share no bit. */
  lemma BuildHashed(range: AddrRange)
    requires range.Hashed() && range.SlicesFit()
    ensures Build(range.start, range.end, range.intlvHighBit, range.xorHighBit, range.intlvBits, range.intlvMatch).Some?
            <==> range.intlvMatch < Pow2(range.intlvBits) &&
                 forall i :: InSlice(i, range.intlvHighBit, range.intlvBits) ==> !InSlice(i, range.xorHighBit, range.intlvBits)
  {
    var high, xor, bits := range.intlvHighBit, range.xorHighBit, range.intlvBits;
    if xor >= high && xor - high < bits {
      assert InSlice(high, high, bits) && InSlice(high, xor, bits);
    }
    if high > xor && high - xor < bits {
      assert InSlice(xor, high, bits) && InSlice(xor, xor, bits);
    }
  }

  /** Bit `i` of the stripe number of an address: one of its bits, or the exclusive or of two. */
  predicate StripeBitOf(a: nat, high: nat, xor: nat, bits: nat, i: nat)
    requires i < bits <= high + 1 && (xor != 0 ==> bits <= xor + 1)
  {
    Bit(a, high + 1 - bits + i) != (xor != 0 && Bit(a, xor + 1 - bits + i))
  }

  lemma SameBits(u: nat, v: nat, n: nat)
    requires u < Pow2(n) && v < Pow2(n)
    ensures u == v <==> forall i :: 0 <= i < n ==> Bit(u, i) == Bit(v, i)
  {
    if u != v {
      var i := HighestDifference(u, v, n);
    }
  }

  /** Without hashing only the match value can be refused. What is built holds exactly the addresses between start and
      end whose chosen bits spell the given match value. */
  lemma BuildExact(start: nat, end: nat, intlvHighBit: nat, xorHighBit: nat, intlvBits: nat, intlvMatch: nat)
    requires intlvBits != 0 ==> intlvBits <= intlvHighBit + 1 <= 64 && (xorHighBit != 0 ==> intlvBits <= xorHighBit + 1 <= 64)
    ensures var built := Build(start, end, intlvHighBit, xorHighBit, intlvBits, intlvMatch);
            && (intlvBits == 0 || xorHighBit == 0 ==> (built.Some? <==> intlvBits == 0 || intlvMatch < Pow2(intlvBits)))
            && (built.Some? ==>
                  && built.value.SlicesFit()
                  && forall a: nat :: built.value.Contains(a) <==>
                       && start <= a <= end
                       && forall i :: 0 <= i < intlvBits ==>
                            (Bit(intlvMatch, i) <==> StripeBitOf(a, intlvHighBit, xorHighBit, intlvBits, i)))
  {
    var built := Build(start, end, intlvHighBit, xorHighBit, intlvBits, intlvMatch);
    if built.Some? && intlvBits != 0 {
      var r := built.value;
      forall a: nat
        ensures r.Stripe(a) == intlvMatch <==>
                forall i :: 0 <= i < intlvBits ==>
                  (Bit(intlvMatch, i) <==> StripeBitOf(a, intlvHighBit, xorHighBit, intlvBits, i))
      {
        r.StripeFits(a);
        SameBits(r.Stripe(a), intlvMatch, intlvBits);
        forall i | 0 <= i < intlvBits
          ensures Bit(r.Stripe(a), i) == StripeBitOf(a, intlvHighBit, xorHighBit, intlvBits, i)
        {
          r.StripeBit(a, i);
        }
      }
    }
  }

  /** What the constructor accepts is balanced, and reports its size correctly unless it spans everything. */
  lemma BuildBalanced(start: nat, end: nat, intlvHighBit: nat, xorHighBit: nat, intlvBits: nat, intlvMatch: nat)
    requires Build(start, end, intlvHighBit, xorHighBit, intlvBits, intlvMatch).Some?
    requires var r := AddrRange(start, end, intlvHighBit, xorHighBit, intlvBits, intlvMatch);
             r.Typed() && r.SlicesFit() && start <= end && (r.Interleaved() ==> r.Aligned())
    ensures var r := Build(start, end, intlvHighBit, xorHighBit, intlvBits, intlvMatch).value;
            |r.Members()| == r.Size() <==> !(start == 0 && end == ADDRESSES - 1)
  {
    AddrRange(start, end, intlvHighBit, xorHighBit, intlvBits, intlvMatch).SizeIsCount();
  }

  lemma {:induction false} ShiftOfZero(n: nat)
    ensures ShiftRight(0, n) == 0
  {
    if n != 0 { ShiftOfZero(n - 1); }
  }

  // ---------- merging stripes ----------

  /** The stripes of one chunk in order, numbered by an 8-bit counter. */
  ghost predicate Family(ranges: seq<AddrRange>)
    requires ranges != []
  {
    && |ranges| == Pow2(ranges[0].intlvBits)
    && forall i :: 0 <= i < |ranges| ==> ranges[0].MergesWith(ranges[i]) && ranges[i].intlvMatch == i % 256
  }

  /** The merging constructor; None: the source stops with a fatal error. */
  method Merge(ranges: seq<AddrRange>) returns (merged: Option<AddrRange>)
    requires ranges != [] ==> ranges[0].intlvBits < 64
    ensures ranges == [] ==> merged == Some(AddrRange(1, 0, 0, 0, 0, 0))
    ensures ranges != [] ==> (merged.Some? <==> Family(ranges))
    ensures ranges != [] && merged.Some? ==> merged.value == AddrRange(ranges[0].start, ranges[0].end, 0, 0, 0, 0)
  {
    var this' := AddrRange(1, 0, 0, 0, 0, 0);
    if ranges != [] {
      this' := ranges[0].(intlvMatch := 0);
      if |ranges| != Pow2(this'.intlvBits) {
        return None;
      }
      var match' := 0;
      for i := 0 to |ranges|
        invariant match' == i % 256
        invariant forall j :: 0 <= j < i ==> ranges[0].MergesWith(ranges[j]) && ranges[j].intlvMatch == j % 256
      {
        var r := ranges[i];
        if !this'.MergesWith(r) {
          return None;
        }
        if r.intlvMatch != match' {
          return None;
        }
        match' := (match' + 1) % 256;
      }
      this' := this'.(intlvHighBit := 0, xorHighBit := 0, intlvBits := 0);
    }
    merged := Some(this');
  }

  ghost predicate Holder(ranges: seq<AddrRange>, a: nat, i: nat) {
    i < |ranges| && ranges[i].SlicesFit() && ranges[i].Contains(a)
  }

  ghost predicate ExactlyOne(ranges: seq<AddrRange>, a: nat) {
    exists i :: Holder(ranges, a, i) && forall j :: Holder(ranges, a, j) ==> j == i
  }

  lemma HolderIsStripe(ranges: seq<AddrRange>, a: nat, i: nat)
    requires ranges != [] && Family(ranges) && ranges[0].SlicesFit() && i < |ranges|
    ensures Holder(ranges, a, i) <==>
            ranges[0].start <= a <= ranges[0].end && (ranges[0].Interleaved() ==> ranges[0].Stripe(a) == i % 256)
  {
    assert ranges[0].MergesWith(ranges[i]);
  }

  lemma CounterRange(bits: nat)
    ensures bits <= 8 ==> Pow2(bits) <= 256
    ensures bits > 8 ==> Pow2(bits) >= 512
  {
    assert Pow2(4) == 16;
    assert Pow2(8) == 256;
    if bits <= 8 { Pow2Mono(bits, 8); } else { Pow2Mono(9, bits); }
  }

  /** An address of the chunk lies in exactly one of the merged stripes, if and only if
      the 8-bit counter can number them all. */
  lemma ExactlyOneStripe(ranges: seq<AddrRange>, a: nat)
    requires ranges != [] && Family(ranges) && ranges[0].SlicesFit()
    ensures ExactlyOne(ranges, a) <==> ranges[0].start <= a <= ranges[0].end && ranges[0].intlvBits <= 8
  {
    var r := ranges[0];
    CounterRange(r.intlvBits);
    if r.start <= a <= r.end {
      var s := 0;
      if r.Interleaved() {
        s := r.Stripe(a);
        r.StripeFits(a);
      }
      if r.intlvBits <= 8 {
        OneHolder(ranges, a, s);
      } else {
        NotOneHolder(ranges, a, s);
      }
    }
  }

  lemma OneHolder(ranges: seq<AddrRange>, a: nat, s: nat)
    requires ranges != [] && Family(ranges) && ranges[0].SlicesFit() && ranges[0].start <= a <= ranges[0].end
    requires s < |ranges| <= 256 && s == if ranges[0].Interleaved() then ranges[0].Stripe(a) else 0
    ensures ExactlyOne(ranges, a)
  {
    hide Holder, AddrRange.Stripe;
    assert s % 256 == s;
    HolderIsStripe(ranges, a, s);
    forall j: nat | Holder(ranges, a, j)
      ensures j == s
    {
      HolderKnown(ranges, a, j);
      HolderIsStripe(ranges, a, j);
      assert j % 256 == j;
    }
  }

  lemma HolderKnown(ranges: seq<AddrRange>, a: nat, i: nat)
    requires Holder(ranges, a, i)
    ensures i < |ranges|
  {
  }

  lemma NotOneHolder(ranges: seq<AddrRange>, a: nat, s: nat)
    requires ranges != [] && Family(ranges) && ranges[0].SlicesFit() && ranges[0].start <= a <= ranges[0].end
    requires |ranges| >= 512 && ranges[0].Interleaved() && s == ranges[0].Stripe(a)
    ensures !ExactlyOne(ranges, a)
  {
    if s < 256 {
      HolderIsStripe(ranges, a, s);
      HolderIsStripe(ranges, a, s + 256);
      assert Holder(ranges, a, s) && Holder(ranges, a, s + 256);
    } else {
      forall i: nat
        ensures !Holder(ranges, a, i)
      {
        if i < |ranges| { HolderIsStripe(ranges, a, i); }
      }
    }
  }

  /** The merged range holds an address exactly when one stripe does: true of all
      addresses if and only if there are at most 8 interleaving bits. */
  lemma MergeExact(ranges: seq<AddrRange>)
    requires ranges != [] && Family(ranges) && ranges[0].SlicesFit() && ranges[0].start <= ranges[0].end
    ensures (forall a: nat :: AddrRange(ranges[0].start, ranges[0].end, 0, 0, 0, 0).Contains(a) <==> ExactlyOne(ranges, a))
            <==> ranges[0].intlvBits <= 8
  {
    var whole := AddrRange(ranges[0].start, ranges[0].end, 0, 0, 0, 0);
    forall a: nat
      ensures ExactlyOne(ranges, a) <==> whole.Contains(a) && ranges[0].intlvBits <= 8
    {
      ExactlyOneStripe(ranges, a);
    }
    assert whole.Contains(ranges[0].start);
  }

  /** 512 ranges that an 8-bit counter takes for a complete family of 9 interleaving bits. */
  ghost function NineBits(): seq<AddrRange> {
    seq(512, i => AddrRange(0, 1023, 9, 0, 9, i % 256))
  }

  lemma NineBitsMerge()
    ensures Family(NineBits()) && NineBits()[0].SlicesFit()
    ensures forall a: nat :: !ExactlyOne(NineBits(), a)
  {
    assert Pow2(3) == 8;
    assert Pow2(6) == 8 * Pow2(3);
    assert Pow2(9) == 8 * Pow2(6);
    forall a: nat ensures !ExactlyOne(NineBits(), a) {
      ExactlyOneStripe(NineBits(), a);
    }
  }

  // ---------- intersection ----------

  ghost predicate Share(r: AddrRange, q: AddrRange)
    requires r.SlicesFit() && q.SlicesFit()
  {
    exists a: nat :: r.Contains(a) && q.Contains(a)
  }

  /** The intersection test gives up, or it is right. */
  ghost predicate Right(r: AddrRange, q: AddrRange)
    requires r.SlicesFit() && q.SlicesFit()
  {
    r.Intersects(q).Some? ==> (r.Intersects(q).value <==> Share(r, q))
  }

  /** Stripes of one chunk share an address exactly when they are the same one and not empty. */
  lemma ShareOfStripes(r: AddrRange, q: AddrRange)
    requires r.SlicesFit() && q.SlicesFit() && r.Interleaved() && r.MergesWith(q)
    ensures Share(r, q) <==> r.intlvMatch == q.intlvMatch && r.Members() != {}
  {
    if Share(r, q) {
      var a: nat :| r.Contains(a) && q.Contains(a);
      assert a in r.Members();
    }
    if r.intlvMatch == q.intlvMatch && r.Members() != {} {
      var a :| a in r.Members();
      assert r.Contains(a) && q.Contains(a);
    }
  }

  /** For a plain argument, and for one of another chunk unless its size is 1, the test is never wrong. For stripes
      of one chunk it is right exactly when comparing the match values decides the matter, or, for a stripe of size
      1, looking at the start of the chunk does. */
  lemma IntersectsExact(r: AddrRange, q: AddrRange)
    requires r.Typed() && q.Typed() && r.SlicesFit() && q.SlicesFit() && r.Valid() && q.Valid()
    ensures !q.Interleaved() || (q.Size() != 1 && !r.MergesWith(q)) ==> Right(r, q)
    ensures q.Interleaved() && q.Size() == 1 && q.Members() == {q.start} ==> Right(r, q)
    ensures q.Interleaved() && r.MergesWith(q) ==>
              var same := r.intlvMatch == q.intlvMatch;
              (Right(r, q) <==> if q.Size() == 1 then (r.Stripe(q.start) == r.intlvMatch <==> same && r.Members() != {})
                                else same ==> r.Members() != {})
  {
    if q.Interleaved() {
      if r.MergesWith(q) {
        ShareOfStripes(r, q);
      }
      if q.Size() == 1 {
        SingleExact(q);
      }
    } else if r.start <= q.end && r.end >= q.start {
      if !r.Interleaved() {
        var a := if r.start <= q.start then q.start else r.start;
        assert r.Contains(a) && q.Contains(a);
      } else if q.Size() == 1 {
        q.SizeOrWrap();
        assert q.start == q.end;
        assert q.Contains(q.start);
      }
    }
  }

  /** A plain range is valid if and only if it holds some address. */
  lemma ValidExactly(r: AddrRange)
    requires r.intlvBits == 0
    ensures r.Valid() <==> exists a: nat :: r.Contains(a)
  {
    if r.start <= r.end {
      assert r.Contains(r.start);
    }
  }

  /** Plain ranges always get an answer, and it is right. */
  lemma PlainExact(r: AddrRange, q: AddrRange)
    requires r.intlvBits == 0 && q.intlvBits == 0 && r.Valid() && q.Valid()
    ensures r.Intersects(q) == Some(Share(r, q)) && (Share(r, q) <==> r.start <= q.end && q.start <= r.end)
  {
    if r.start <= q.end && q.start <= r.end {
      var a := if r.start <= q.start then q.start else r.start;
      assert r.Contains(a) && q.Contains(a);
    }
  }

  /** The test gives up if and only if the spans overlap, at least one range is striped, the argument has not size 1, and
      the two are not stripes of one chunk. */
  lemma GivesUpExactly(r: AddrRange, q: AddrRange)
    requires r.SlicesFit()
    ensures r.Intersects(q) == None <==>
            && r.start <= q.end && q.start <= r.end && (r.intlvBits != 0 || q.intlvBits != 0) && q.Size() != 1
            && (r.start, r.end, r.intlvHighBit, r.xorHighBit, r.intlvBits) !=
               (q.start, q.end, q.intlvHighBit, q.xorHighBit, q.intlvBits)
  {
  }

  /** A stripe of an aligned chunk is not empty. */
  lemma NotEmpty(r: AddrRange)
    requires r.Interleaved() && r.SlicesFit() && r.SlicesDiffer() && r.Aligned() && r.intlvMatch < Pow2(r.intlvBits)
    ensures r.Members() != {}
  {
    r.Balanced();
    r.ShareBounds();
  }

  /** Stripes of one aligned chunk: of size 1 the test is right exactly when the one that holds the start of the
      chunk is asked about itself, or another one about another; of any other size it is always right. */
  lemma IntersectsAligned(r: AddrRange, q: AddrRange)
    requires r.Typed() && q.Typed() && r.SlicesFit() && q.SlicesFit() && r.Interleaved() && r.MergesWith(q)
    requires r.SlicesDiffer() && r.Aligned() && r.intlvMatch < Pow2(r.intlvBits)
    ensures Right(r, q) <==> (q.Size() == 1 ==> (r.Stripe(q.start) == r.intlvMatch <==> r.intlvMatch == q.intlvMatch))
  {
    NotEmpty(r);
    IntersectsExact(r, q);
  }

  /** A stripe of size 1 has one address only. */
  lemma OneMember(q: AddrRange, a: nat)
    requires q.Typed() && q.SlicesFit() && q.Interleaved() && q.SlicesDiffer() && q.Aligned()
    requires q.intlvMatch < Pow2(q.intlvBits) && q.Size() == 1 && a in q.Members()
    ensures q.Members() == {a}
  {
    q.SizeIsCount();
    q.SizeOrWrap();
    var rest := q.Members() - {a};
    assert q.Members() == {a} + rest;
  }

  /** Asked about any stripe of size 1, every range answers rightly if and only if the stripe holds the start of its
      chunk and nothing else. */
  lemma SingleExact(q: AddrRange)
    requires q.SlicesFit() && q.Interleaved() && q.Valid() && q.Size() == 1
    ensures (forall r: AddrRange :: r.SlicesFit() ==> Right(r, q)) <==> q.Members() == {q.start}
  {
    assert forall a: nat :: q.Contains(a) <==> a in q.Members();
    hide AddrRange.Stripe, AddrRange.Size;
    if q.Members() == {q.start} {
      forall r: AddrRange | r.SlicesFit()
        ensures Right(r, q)
      {
        assert q.Contains(q.start) && forall a: nat :: q.Contains(a) ==> a == q.start;
      }
    } else if q.start in q.Members() {
      var a :| a in q.Members() && a != q.start;
      var r := AddrRange(a, a, 0, 0, 0, 0);
      assert r.Contains(a) && q.Contains(a) && !Right(r, q);
    } else {
      var r := AddrRange(q.start, q.start, 0, 0, 0, 0);
      assert r.Contains(q.start) && !Right(r, q);
    }
  }

  /** In an aligned chunk it is enough that the stripe holds the start. */
  lemma AlignedSingleExact(q: AddrRange)
    requires q.Typed() && q.SlicesFit() && q.Interleaved() && q.SlicesDiffer() && q.Aligned()
    requires q.intlvMatch < Pow2(q.intlvBits) && q.Size() == 1
    ensures (forall r: AddrRange :: r.SlicesFit() ==> Right(r, q)) <==> q.Contains(q.start)
  {
    SingleExact(q);
    if q.Contains(q.start) {
      OneMember(q, q.start);
    }
  }

  /** The two stripes of the chunk [0,1]: the first claims to meet the second. */
  lemma WrongVerdict(r: AddrRange, q: AddrRange)
    requires r == AddrRange(0, 1, 0, 0, 1, 0) && q == AddrRange(0, 1, 0, 0, 1, 1)
    ensures Build(0, 1, 0, 0, 1, 0) == Some(r) && Build(0, 1, 0, 0, 1, 1) == Some(q)
    ensures r.SlicesFit() && q.SlicesFit() && r.Aligned() && r.MergesWith(q) && q.Size() == 1
    ensures r.Intersects(q) == Some(true) && !Share(r, q)
  {
    TinyWords();
    hide Pow2, ShiftRight, Low, AddrRange.Stripe;
    q.SizeOrWrap();
    StripeOfZero(r);
    ShareOfStripes(r, q);
  }

  lemma TinyWords()
    ensures Pow2(1) == 2 && ShiftRight(2, 1) == 1 && Low(0, 1) == Low(2, 1) == 0
  {
  }

  lemma StripeOfZero(r: AddrRange)
    requires r.Interleaved() && r.SlicesFit()
    ensures r.Stripe(0) == 0
  {
    ShiftOfZero(r.LowBit());
    if r.Hashed() {
      ShiftOfZero(r.xorHighBit + 1 - r.intlvBits);
    }
  }

  lemma JoinBounds(base: nat, p: nat, u: nat, g: nat, low: nat)
    requires u < p && low < g
    ensures base * (p * g) <= (base * p + u) * g + low < (base + 1) * (p * g)
  {
    Associate(base, p, g);
    Associate(base + 1, p, g);
    Distribute(base, 1, p);
    Times(base * p, base * p + u, g);
    Times(base * p + u + 1, base * p + p, g);
    Distribute(base * p + u, 1, g);
  }

  lemma BitSplitTwice(base: nat, u: nat, low: nat, m: nat, n: nat, j: nat)
    requires u < Pow2(m) && low < Pow2(n)
    ensures Bit((base * Pow2(m) + u) * Pow2(n) + low, j) ==
            if j < n then Bit(low, j) else if j < n + m then Bit(u, j - n) else Bit(base, j - n - m)
  {
    hide Pow2, Bit;
    BitSplit(base * Pow2(m) + u, low, n, j);
    if j >= n {
      BitSplit(base, u, m, j - n);
    }
  }

  lemma DigitsUnique(x: nat, r: nat, x': nat, r': nat, d: nat)
    requires r < d && r' < d && x * d + r == x' * d + r'
    ensures x == x' && r == r'
  {
    Distribute(x, 1, d);
    Distribute(x', 1, d);
    if x < x' {
      Times(x + 1, x', d);
    } else if x' < x {
      Times(x' + 1, x, d);
    }
  }

  lemma ThreeDigits(base: nat, u: nat, low: nat, base': nat, u': nat, low': nat, p: nat, g: nat)
    requires u < p && u' < p && low < g && low' < g && (base * p + u) * g + low == (base' * p + u') * g + low'
    ensures base == base' && u == u' && low == low'
  {
    DigitsUnique(base * p + u, low, base' * p + u', low', g);
    DigitsUnique(base, u, base', u', p);
  }

  lemma Associate(x: nat, y: nat, z: nat)
    ensures x * (y * z) == (x * y) * z
  {
  }

  lemma Shared(len: nat, blocks: nat, block: nat, share: nat, d: nat, rest: nat)
    requires 0 < len == blocks * block && block >= d >= 2 && len == share * d + rest && rest < d
    ensures 0 < share < len
  {
    Times(1, blocks, block);
    assert share * d >= share * 2;
  }

  lemma Times(x: nat, y: nat, d: nat)
    requires x <= y
    ensures x * d <= y * d
  {
    assert y * d == x * d + (y - x) * d;
  }

  lemma Distribute(x: nat, y: nat, d: nat)
    ensures (x + y) * d == x * d + y * d
  {
  }
}
