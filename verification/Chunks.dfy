/** Splitting a region of memory into chunks that do not cross block boundaries. Addresses
    are 64-bit and sizes 32-bit unsigned numbers, and wrap around. */
module Chunks {
  import opened NatBits
  import AddrRanges

  const ADDRESSES := AddrRanges.ADDRESSES
  const SIZES := 0x1_0000_0000

  lemma Pow2Eight(n: nat)
    ensures Pow2(n + 8) == 256 * Pow2(n)
  {
    assert Pow2(n + 2) == 4 * Pow2(n);
    assert Pow2(n + 4) == 4 * Pow2(n + 2);
    assert Pow2(n + 6) == 4 * Pow2(n + 4);
    assert Pow2(n + 8) == 4 * Pow2(n + 6);
  }

  lemma WordSizes()
    ensures Pow2(32) == SIZES && Pow2(64) == ADDRESSES
  {
    Pow2Eight(0);
    Pow2Eight(8);
    Pow2Eight(16);
    Pow2Eight(24);
    Pow2Eight(32);
    Pow2Eight(40);
    Pow2Eight(48);
    Pow2Eight(56);
  }

  // ---------- powers of two and rounding, the way the bits do it ----------

  /** One less, in a word of `width` bits. */
  function Minus1(n: nat, width: nat): (m: nat)
    requires n < Pow2(width)
    ensures m < Pow2(width)
  {
    if n == 0 then Pow2(width) - 1 else n - 1
  }

  function LeastSigBit(n: nat, width: nat): nat
    requires n < Pow2(width)
  {
    And(n, Not(Minus1(n, width), width))
  }

  predicate IsPowerOf2(n: nat, width: nat)
    requires n < Pow2(width)
  {
    n != 0 && LeastSigBit(n, width) == n
  }

  lemma {:induction false} AndNotSelf(n: nat, width: nat)
    requires n < Pow2(width)
    ensures And(n, Not(n, width)) == 0
    decreases width
  {
    if width == 0 {
    } else {
      AndNotSelf(n / 2, width - 1);
      assert Not(n, width) / 2 == Not(n / 2, width - 1) && Not(n, width) % 2 != n % 2;
    }
  }

  lemma LeastSigBitStep(n: nat, width: nat)
    requires 0 < n < Pow2(width) && width > 0
    ensures LeastSigBit(n, width) == if n % 2 == 1 then 1 else 2 * LeastSigBit(n / 2, width - 1)
  {
    var m := Not(n - 1, width);
    if n % 2 == 1 {
      assert m / 2 == Not(n / 2, width - 1) && m % 2 == 1;
      AndNotSelf(n / 2, width - 1);
    } else {
      assert m / 2 == Not(n / 2 - 1, width - 1) && m % 2 == 0;
    }
  }

  ghost predicate Power(n: nat, width: nat) {
    exists k: nat :: k < width && n == Pow2(k)
  }

  /** The bit trick finds exactly the powers of two. */
  lemma {:induction false} PowersOf2(n: nat, width: nat)
    requires n < Pow2(width)
    ensures IsPowerOf2(n, width) <==> Power(n, width)
    decreases width
  {
    if n == 0 || width == 0 {
    } else if n % 2 == 1 {
      LeastSigBitStep(n, width);
      assert n == 1 ==> n == Pow2(0);
      assert Power(n, width) ==> n == 1;
    } else {
      LeastSigBitStep(n, width);
      PowersOf2(n / 2, width - 1);
      assert Power(n, width) ==> Power(n / 2, width - 1) by {
        if k: nat :| k < width && n == Pow2(k) {
          assert k >= 1 && n / 2 == Pow2(k - 1);
        }
      }
      assert Power(n / 2, width - 1) ==> Power(n, width) by {
        if k: nat :| k < width - 1 && n / 2 == Pow2(k) {
          assert n == Pow2(k + 1);
        }
      }
    }
  }

  lemma {:induction false} AndNotMask(u: nat, k: nat, width: nat)
    requires u < Pow2(width) && k <= width && MaskOf(k) < Pow2(width)
    ensures And(u, Not(MaskOf(k), width)) == u - Low(u, k) && Low(u, k) <= u
    decreases width
  {
    if u == 0 {
      LowOfZero(k);
    } else if k == 0 {
      AndOnes(u, width);
    } else {
      Pow2Mono(k - 1, width - 1);
      var m := Not(MaskOf(k), width);
      assert m / 2 == Not(MaskOf(k - 1), width - 1) && m % 2 == 0;
      AndNotMask(u / 2, k - 1, width - 1);
    }
  }

  lemma {:induction false} AndOnes(u: nat, width: nat)
    requires u < Pow2(width)
    ensures And(u, MaskOf(width)) == u
    decreases width
  {
    if u == 0 {
    } else {
      assert MaskOf(width) / 2 == MaskOf(width - 1) && MaskOf(width) % 2 == 1;
      AndOnes(u / 2, width - 1);
    }
  }

  /** An address sum in 64 bits. */
  function Plus(addr: nat, n: nat): (sum: nat)
    requires addr < ADDRESSES && n <= SIZES
    ensures sum < ADDRESSES
  {
    if addr + n >= ADDRESSES then addr + n - ADDRESSES else addr + n
  }

  /** The distance between two addresses in 64 bits. */
  function Minus(addr: nat, from: nat): (d: nat)
    requires addr < ADDRESSES && from < ADDRESSES
    ensures d < ADDRESSES
  {
    if addr < from then addr + ADDRESSES - from else addr - from
  }

  /** Round up to a multiple of a power of two, in 64 bits. */
  function RoundUp(val: nat, align: nat): nat
    requires val < ADDRESSES && 1 <= align <= SIZES
  {
    WordSizes();
    And(Plus(val, align - 1), Not(align - 1, 64))
  }

  /** The distance from an address to the end of its block. */
  function Room(addr: nat, k: nat): (r: nat)
    ensures 1 <= r <= Pow2(k)
  {
    HighLow(addr, k);
    Pow2(k) - Low(addr, k)
  }

  lemma {:induction false} LowPeriod(a: nat, k: nat, width: nat)
    requires k <= width
    ensures Low(a + Pow2(width), k) == Low(a, k)
  {
    if k == 0 {
    } else {
      assert (a + Pow2(width)) / 2 == a / 2 + Pow2(width - 1) && (a + Pow2(width)) % 2 == a % 2;
      LowPeriod(a / 2, k - 1, width - 1);
    }
  }

  lemma {:induction false} LowBeforeEnd(addr: nat, k: nat)
    ensures Low(addr + Pow2(k) - 1, k) == if Low(addr, k) == 0 then Pow2(k) - 1 else Low(addr, k) - 1
  {
    if k == 0 {
    } else {
      var a, b := addr / 2, addr % 2;
      var u := addr + Pow2(k) - 1;
      if b == 1 {
        assert u / 2 == a + Pow2(k - 1) && u % 2 == 0;
        LowPeriod(a, k - 1, k - 1);
      } else {
        assert u / 2 == a + Pow2(k - 1) - 1 && u % 2 == 1;
        LowBeforeEnd(a, k - 1);
      }
    }
  }

  /** No block sticks out of the address space. */
  lemma {:induction false} RoomFits(addr: nat, k: nat, width: nat)
    requires addr < Pow2(width) && k <= width
    ensures addr + Room(addr, k) <= Pow2(width)
  {
    if k == 0 {
    } else {
      RoomFits(addr / 2, k - 1, width - 1);
    }
  }

  lemma {:induction false} RoomAtEnd(addr: nat, k: nat)
    ensures Low(addr + Room(addr, k), k) == 0
  {
    if k == 0 {
    } else {
      var u := addr + Room(addr, k);
      assert Room(addr, k) == 2 * Room(addr / 2, k - 1) - addr % 2;
      assert u / 2 == addr / 2 + Room(addr / 2, k - 1) && u % 2 == 0;
      RoomAtEnd(addr / 2, k - 1);
    }
  }

  /** Rounding up reaches the end of the block, or stays when already there. */
  lemma RoundUpReaches(addr: nat, k: nat)
    requires addr < ADDRESSES && k < 32 && Pow2(k) <= SIZES
    ensures RoundUp(addr, Pow2(k)) == if Low(addr, k) == 0 then addr else Plus(addr, Room(addr, k))
  {
    hide And, Low, Pow2;
    WordSizes();
    var sum := addr + Pow2(k) - 1;
    var u := Plus(addr, Pow2(k) - 1);
    AndNotMask(u, k, 64);
    LowBeforeEnd(addr, k);
    RoomFits(addr, k, 64);
    if sum >= ADDRESSES {
      LowPeriod(u, k, 64);
    }
  }

  // ---------- the chunks ----------

  datatype Chunk = Chunk(addr: nat, size: nat)

  /** Block by block: up to the end of the address's block, and so on from there. */
  function Tiles(addr: nat, size: nat, k: nat): seq<Chunk>
    requires addr < ADDRESSES && size < SIZES
    decreases size
  {
    if size == 0 then []
    else
      var n := if size < Room(addr, k) then size else Room(addr, k);
      [Chunk(addr, n)] + Tiles(Plus(addr, n), size - n, k)
  }

  /** The addresses of a region, in order. */
  function Region(addr: nat, size: nat): seq<nat>
    requires addr < ADDRESSES && size < SIZES
    decreases size
  {
    if size == 0 then [] else [addr] + Region(Plus(addr, 1), size - 1)
  }

  function Covered(chunks: seq<Chunk>): seq<nat>
    requires forall i :: 0 <= i < |chunks| ==> chunks[i].addr < ADDRESSES && chunks[i].size < SIZES
  {
    if chunks == [] then [] else Region(chunks[0].addr, chunks[0].size) + Covered(chunks[1..])
  }

  lemma {:induction false} RegionSplit(addr: nat, m: nat, n: nat)
    requires addr < ADDRESSES && m + n < SIZES
    ensures Region(addr, m + n) == Region(addr, m) + Region(Plus(addr, m), n)
    decreases m
  {
    if m == 0 {
    } else {
      RegionSplit(Plus(addr, 1), m - 1, n);
    }
  }

  /** The chunks are not empty, none crosses a block boundary, and together, in order, they are the region. */
  lemma {:induction false} TilesCover(addr: nat, size: nat, k: nat)
    requires addr < ADDRESSES && size < SIZES
    ensures forall i :: 0 <= i < |Tiles(addr, size, k)| ==>
              var c := Tiles(addr, size, k)[i]; c.addr < ADDRESSES && 0 < c.size < SIZES && c.size <= Room(c.addr, k)
    ensures Covered(Tiles(addr, size, k)) == Region(addr, size)
    decreases size
  {
    if size == 0 {
    } else {
      var n := if size < Room(addr, k) then size else Room(addr, k);
      TilesCover(Plus(addr, n), size - n, k);
      RegionSplit(addr, n, size - n);
      assert Tiles(addr, size, k)[1..] == Tiles(Plus(addr, n), size - n, k);
    }
  }

  /** There are as many chunks as the region touches blocks. */
  lemma {:induction false} TilesCount(addr: nat, size: nat, k: nat)
    requires addr < ADDRESSES && 0 < size < SIZES && k < 32
    ensures var n := |Tiles(addr, size, k)|;
            n >= 1 && (n - 1) * Pow2(k) < Low(addr, k) + size <= n * Pow2(k)
    decreases size
  {
    var room := Room(addr, k);
    if size <= room {
    } else {
      var next := Plus(addr, room);
      TilesCount(next, size - room, k);
      NextIsAligned(addr, k);
      var n := |Tiles(next, size - room, k)|;
      assert |Tiles(addr, size, k)| == n + 1;
      assert n * Pow2(k) == (n - 1) * Pow2(k) + Pow2(k) && (n + 1) * Pow2(k) == n * Pow2(k) + Pow2(k);
    }
  }

  lemma NextIsAligned(addr: nat, k: nat)
    requires addr < ADDRESSES && k < 32
    ensures Room(addr, k) <= SIZES && Low(Plus(addr, Room(addr, k)), k) == 0
  {
    WordSizes();
    Pow2Mono(k, 32);
    RoomAtEnd(addr, k);
    RoomFits(addr, k, 64);
    LowOfZero(k);
  }

  // ---------- the generator ----------

  /** The first chunk's end, as the constructor computes it. */
  function FirstEnd(addr: nat, chunkSize: nat): (next: nat)
    requires addr < ADDRESSES && 1 <= chunkSize < SIZES
  {
    var up := RoundUp(addr, chunkSize);
    if addr == up then Plus(up, chunkSize) else up
  }

  lemma FirstEndReached(addr: nat, k: nat)
    requires addr < ADDRESSES && k < 32 && Pow2(k) < SIZES
    ensures FirstEnd(addr, Pow2(k)) == Plus(addr, Room(addr, k)) && Low(FirstEnd(addr, Pow2(k)), k) == 0
    ensures Minus(Plus(addr, Room(addr, k)), addr) == Room(addr, k) < SIZES
  {
    hide RoundUp, Low, Pow2;
    RoundUpReaches(addr, k);
    NextIsAligned(addr, k);
  }

  /** The chunks from a first one on. */
  function FromFirst(addr: nat, size: nat, next: nat, left: nat, k: nat): seq<Chunk>
    requires next < ADDRESSES && left < SIZES
  {
    if size == 0 then [] else [Chunk(addr, size)] + if left > 0 then Tiles(next, left, k) else []
  }

  lemma TilesFromFirst(addr: nat, size: nat, k: nat)
    requires addr < ADDRESSES && size < SIZES
    ensures var n := if size < Room(addr, k) then size else Room(addr, k);
            Tiles(addr, size, k) == FromFirst(addr, n, Plus(addr, n), size - n, k)
  {
  }

  class ChunkGenerator {
    var curAddr: nat
    var nextAddr: nat
    var curSize: nat
    var sizeLeft: nat
    const startAddr: nat
    const chunkSize: nat

    /** With `k` such that the chunk size is 2^k, the chunks still to come, the current one included,
        and how many bytes went before. */
    ghost predicate Yields(chunks: seq<Chunk>, before: nat, k: nat)
      reads this
    {
      && startAddr < ADDRESSES && curAddr < ADDRESSES && nextAddr < ADDRESSES && before + curSize + sizeLeft < SIZES
      && curAddr == Plus(startAddr, before)
      && (sizeLeft > 0 ==> k < 32 && chunkSize == Pow2(k) && nextAddr == Plus(curAddr, curSize) && Low(nextAddr, k) == 0)
      && (curSize == 0 ==> sizeLeft == 0)
      && chunks == FromFirst(curAddr, curSize, nextAddr, sizeLeft, k)
    }

    lemma Current(chunks: seq<Chunk>, before: nat, k: nat)
      requires Yields(chunks, before, k)
      ensures curSize == 0 <==> chunks == []
      ensures curSize != 0 ==> chunks[0] == Chunk(curAddr, curSize)
    {
    }

    constructor (startAddr: nat, totalSize: nat, chunkSize: nat, ghost k: nat)
      requires startAddr < ADDRESSES && totalSize < SIZES && chunkSize < SIZES
      requires chunkSize == 0 || (k < 32 && chunkSize == Pow2(k))
      ensures this.startAddr == startAddr && this.chunkSize == chunkSize
      ensures Yields(if chunkSize == 0 then FromFirst(startAddr, totalSize, startAddr, 0, k) else Tiles(startAddr, totalSize, k), 0, k)
    {
      hide RoundUp, Low, Pow2, Tiles, FirstEnd;
      var next;
      if chunkSize == 0 {
        next := Plus(startAddr, totalSize);
      } else {
        next := FirstEnd(startAddr, chunkSize);
        FirstEndReached(startAddr, k);
        TilesFromFirst(startAddr, totalSize, k);
      }
      var leftInChunk := Minus(next, startAddr) % SIZES;
      var size := if totalSize < leftInChunk then totalSize else leftInChunk;
      this.startAddr, this.chunkSize := startAddr, chunkSize;
      curAddr, nextAddr, curSize, sizeLeft := startAddr, next, size, totalSize - size;
    }

    method Next(ghost chunks: seq<Chunk>, ghost before: nat, ghost k: nat) returns (more: bool)
      requires Yields(chunks, before, k) && curSize > 0
      modifies `curAddr, `nextAddr, `curSize, `sizeLeft
      ensures chunks != [] && more == (|chunks| > 1)
      ensures more ==> Yields(chunks[1..], before + old(curSize), k)
      ensures !more ==> curSize == 0 && curAddr == old(curAddr)
    {
      if sizeLeft == 0 {
        curSize := 0;
        return false;
      }
      TilesFromFirst(nextAddr, sizeLeft, k);
      NextIsAligned(nextAddr, k);
      curAddr := nextAddr;
      curSize := if sizeLeft < chunkSize then sizeLeft else chunkSize;
      sizeLeft := sizeLeft - curSize;
      nextAddr := Plus(nextAddr, curSize);
      more := true;
    }

    /** The bytes before the current chunk. */
    method Complete(ghost chunks: seq<Chunk>, ghost before: nat, ghost k: nat) returns (n: nat)
      requires Yields(chunks, before, k)
      ensures n == before
    {
      n := Minus(curAddr, startAddr) % SIZES;
    }
  }

  /** The chunks are the region, in order; with a chunk size of 2^k none crosses a block boundary and there are
      as many as blocks touched; with a chunk size of 0 there is one at most. */
  ghost predicate Tiling(chunks: seq<Chunk>, startAddr: nat, totalSize: nat, chunkSize: nat, k: nat)
    requires startAddr < ADDRESSES && totalSize < SIZES
  {
    && (forall i :: 0 <= i < |chunks| ==> chunks[i].addr < ADDRESSES && 0 < chunks[i].size < SIZES)
    && Covered(chunks) == Region(startAddr, totalSize)
    && (chunkSize != 0 ==> forall i :: 0 <= i < |chunks| ==> chunks[i].size <= Room(chunks[i].addr, k))
    && (chunkSize != 0 && totalSize != 0 ==> (|chunks| - 1) * chunkSize < Low(startAddr, k) + totalSize <= |chunks| * chunkSize)
    && (chunkSize == 0 ==> |chunks| <= 1)
  }

  lemma AllTile(startAddr: nat, totalSize: nat, chunkSize: nat, k: nat)
    requires startAddr < ADDRESSES && totalSize < SIZES && chunkSize < SIZES
    requires chunkSize == 0 || (k < 32 && chunkSize == Pow2(k))
    ensures Tiling(if chunkSize == 0 then FromFirst(startAddr, totalSize, startAddr, 0, k) else Tiles(startAddr, totalSize, k),
                   startAddr, totalSize, chunkSize, k)
  {
    if chunkSize == 0 {
      var all := FromFirst(startAddr, totalSize, startAddr, 0, k);
      if totalSize != 0 {
        assert all == [Chunk(startAddr, totalSize)] && all[1..] == [];
        assert Covered(all) == Region(startAddr, totalSize) + Covered(all[1..]) == Region(startAddr, totalSize);
      }
      assert Tiling(all, startAddr, totalSize, 0, k);
    } else {
      TilesCover(startAddr, totalSize, k);
      if totalSize != 0 {
        TilesCount(startAddr, totalSize, k);
      }
    }
  }

  /** The generator's loop ends, and its chunks tile the region. */
  method Collect(startAddr: nat, totalSize: nat, chunkSize: nat, ghost k: nat) returns (chunks: seq<Chunk>)
    requires startAddr < ADDRESSES && totalSize < SIZES && chunkSize < SIZES
    requires chunkSize == 0 || (k < 32 && chunkSize == Pow2(k))
    ensures Tiling(chunks, startAddr, totalSize, chunkSize, k)
  {
    hide Tiling, Tiles, Pow2, Low, FromFirst, ChunkGenerator.Yields;
    ghost var all := if chunkSize == 0 then FromFirst(startAddr, totalSize, startAddr, 0, k) else Tiles(startAddr, totalSize, k);
    AllTile(startAddr, totalSize, chunkSize, k);
    var gen := new ChunkGenerator(startAddr, totalSize, chunkSize, k);
    chunks := [];
    ghost var before := 0;
    gen.Current(all, before, k);
    assert all[0..] == all;
    while gen.curSize != 0
      invariant |chunks| <= |all| && chunks == all[..|chunks|]
      invariant gen.curSize == 0 ==> |chunks| == |all|
      invariant gen.curSize != 0 ==> gen.Yields(all[|chunks|..], before, k)
      decreases |all| - |chunks|
    {
      ghost var left, size := all[|chunks|..], gen.curSize;
      gen.Current(left, before, k);
      assert left[0] == all[|chunks|] && left[1..] == all[|chunks| + 1..];
      chunks := chunks + [Chunk(gen.curAddr, gen.curSize)];
      var more := gen.Next(left, before, k);
      before := before + size;
      if more {
        gen.Current(all[|chunks|..], before, k);
      }
    }
    assert chunks == all;
  }
}
