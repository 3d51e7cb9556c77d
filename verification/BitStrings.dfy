/** Fixed-width machine words as bit strings, most significant bit first.
    The trie is generic in its integral key type, so the width is a parameter. */
module BitStrings {

  type Bits = seq<bool>

  function And(a: Bits, b: Bits): Bits
    requires |a| == |b|
  {
    seq(|a|, i requires 0 <= i < |a| => a[i] && b[i])
  }

  function Or(a: Bits, b: Bits): Bits
    requires |a| == |b|
  {
    seq(|a|, i requires 0 <= i < |a| => a[i] || b[i])
  }

  /** Logical shift towards the least significant end. */
  function ShiftRight(a: Bits, n: nat): Bits {
    seq(|a|, i requires 0 <= i < |a| => i >= n && a[i - n])
  }

  /** Shift towards the most significant end. */
  function ShiftLeft(a: Bits, n: nat): Bits {
    seq(|a|, i requires 0 <= i < |a| => i + n < |a| && a[i + n])
  }

  function Ones(size: nat): Bits {
    seq(size, _ => true)
  }

  function One(size: nat): Bits {
    seq(size, i => i == size - 1)
  }

  /** The word whose `width` top bits are set: the only masks the trie builds. */
  function Mask(size: nat, width: nat): Bits {
    seq(size, i => i < width)
  }

  /** The word that starts with `prefix` and is zero below it. */
  function Pad(prefix: Bits, size: nat): Bits {
    seq(size, i => 0 <= i < |prefix| && prefix[i])
  }

  lemma MaskInjective(size: nat, v: nat, w: nat)
    requires v <= size && w <= size
    ensures Mask(size, v) == Mask(size, w) <==> v == w
  {
    if v < w {
      assert Mask(size, v)[v] != Mask(size, w)[v];
    } else if w < v {
      assert Mask(size, v)[w] != Mask(size, w)[w];
    }
  }

  lemma AndMaskPads(a: Bits, width: nat)
    requires width <= |a|
    ensures And(a, Mask(|a|, width)) == Pad(a[..width], |a|)
  {
  }

  lemma PadKeepsPrefix(prefix: Bits, size: nat)
    requires |prefix| <= size
    ensures prefix <= Pad(prefix, size)
  {
  }

  /** Comparing under a mask is comparing prefixes. */
  lemma MatchIsPrefix(test: Bits, prefix: Bits)
    requires |prefix| <= |test|
    ensures And(test, Mask(|test|, |prefix|)) == Pad(prefix, |test|) <==> prefix <= test
  {
    var masked := And(test, Mask(|test|, |prefix|));
    if prefix <= test {
      assert masked == Pad(prefix, |test|);
    } else {
      var i :| 0 <= i < |prefix| && prefix[i] != test[i];
      assert masked[i] != Pad(prefix, |test|)[i];
    }
  }

  lemma MaskedEqual(a: Bits, b: Bits, width: nat)
    requires |a| == |b| && width <= |a|
    ensures And(a, Mask(|a|, width)) == And(b, Mask(|a|, width)) <==> a[..width] == b[..width]
  {
    AndMaskPads(b, width);
    MatchIsPrefix(a, b[..width]);
  }

  lemma SubMask(size: nat, v: nat, w: nat)
    requires v <= size && w <= size
    ensures And(Mask(size, v), Mask(size, w)) == Mask(size, v) <==> v <= w
  {
    if v <= w {
      assert And(Mask(size, v), Mask(size, w)) == Mask(size, v);
    } else {
      assert And(Mask(size, v), Mask(size, w))[w] != Mask(size, v)[w];
    }
  }

  lemma ShiftedOnesIsMask(size: nat, width: nat)
    requires width <= size
    ensures ShiftLeft(Ones(size), size - width) == Mask(size, width)
  {
  }
}
