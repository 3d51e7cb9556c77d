/** The path-compressed binary trie itself: nodes on the heap whose `parent` and
    `kids` pointers insert and remove rewrite in place. */
module Trie {
  import opened BitStrings
  import opened Options
  import opened TrieShape

  /** The reference lookup: the width of the shortest stored prefix of `key`
      that is at least `from` bits long. */
  ghost function Shortest<V>(m: map<Bits, V>, key: Bits, from: nat): (w: Option<nat>)
    ensures w.Some? ==> from <= w.value <= |key| && key[..w.value] in m
    decreases |key| - from
  {
    if from > |key| then None
    else if key[..from] in m then Some(from)
    else Shortest(m, key, from + 1)
  }

  ghost function Find<V>(m: map<Bits, V>, key: Bits): Option<V> {
    var w := Shortest(m, key, 0);
    if w.Some? then Some(m[key[..w.value]]) else None
  }

  /** The map without the entry that a lookup of `key` finds. */
  ghost function Drop<V>(m: map<Bits, V>, key: Bits): map<Bits, V> {
    var w := Shortest(m, key, 0);
    if w.Some? then m - {key[..w.value]} else m
  }

  lemma {:induction false} ShortestFound<V>(m: map<Bits, V>, key: Bits, from: nat, width: nat)
    requires from <= width <= |key| && key[..width] in m
    requires forall p :: p in m && p <= key ==> width <= |p|
    ensures Shortest(m, key, from) == Some(width)
    decreases width - from
  {
    if from >= width {
    } else {
      assert key[..from] <= key;
      ShortestFound(m, key, from + 1, width);
    }
  }

  lemma {:induction false} ShortestMissing<V>(m: map<Bits, V>, key: Bits, from: nat)
    requires forall p :: p in m ==> !(p <= key)
    ensures Shortest(m, key, from) == None
    decreases |key| + 1 - from
  {
    if from > |key| {
    } else {
      assert key[..from] <= key;
      ShortestMissing(m, key, from + 1);
    }
  }

  /** How many bits of the key a given width keeps. */
  function Kept(width: nat, maxBits: nat): (n: nat)
    ensures n <= width && n <= maxBits && (n == width || n == maxBits)
  {
    if width < maxBits then width else maxBits
  }

  /** Extend a mask one more bit towards the least significant end. */
  function ExtendMask(orig: Bits): Bits
    requires |orig| >= 1
  {
    var msb := ShiftLeft(One(|orig|), |orig| - 1);
    Or(Or(orig, ShiftRight(orig, 1)), msb)
  }

  lemma ExtendMaskStep(size: nat, width: nat)
    requires width <= size && size >= 1
    ensures ExtendMask(Mask(size, width)) == Mask(size, if width < size then width + 1 else width)
  {
  }

  /** How many of the first `limit` bits two keys have in common from the top. */
  ghost function Agreeing(a: Bits, b: Bits, limit: nat): (n: nat)
    requires limit <= |a| == |b|
    ensures n <= limit && a[..n] == b[..n] && (n < limit ==> a[n] != b[n])
  {
    if limit == 0 then 0
    else
      var n := Agreeing(a, b, limit - 1);
      if n == limit - 1 && a[n] == b[n] then
        assert a[..limit] == a[..n] + [a[n]] && b[..limit] == b[..n] + [b[n]];
        limit
      else n
  }

  lemma AgreeingUnique(a: Bits, b: Bits, limit: nat, n: nat)
    requires n <= limit <= |a| == |b| && a[..n] == b[..n] && (n < limit ==> a[n] != b[n])
    ensures n == Agreeing(a, b, limit)
  {
    var m := Agreeing(a, b, limit);
    assert forall j :: 0 <= j < n ==> a[j] == a[..n][j] == b[..n][j] == b[j];
    assert forall j :: 0 <= j < m ==> a[j] == a[..m][j] == b[..m][j] == b[j];
  }

  /** Walk down a leg, one mask bit at a time, until the keys part or the new
      mask is reached: the longest common prefix that is no longer than the new one. */
  method CommonMask(key: Bits, kidKey: Bits, start: Bits, newMask: Bits, ghost from: nat, ghost width: nat)
    returns (lastMask: Bits, ghost common: nat)
    requires |key| == |kidKey| && from < width <= |key|
    requires start == Mask(|key|, from) && newMask == Mask(|key|, width) && key[..from] == kidKey[..from]
    ensures lastMask == Mask(|key|, Agreeing(key, kidKey, width))
    ensures from <= common <= width && lastMask == Mask(|key|, common)
    ensures key[..common] == kidKey[..common]
    ensures common < width ==> key[common] != kidKey[common]
  {
    var size := |key|;
    var curMask, done := start, false;
    lastMask, common := start, from;
    ghost var cur := from;
    while !done
      invariant from <= cur <= width && (!done ==> curMask == Mask(size, cur) && key[..cur] == kidKey[..cur])
      invariant from <= common <= width && lastMask == Mask(size, common) && key[..common] == kidKey[..common]
      invariant done ==> common == width || key[common] != kidKey[common]
      decreases !done, width - cur
    {
      lastMask, common := curMask, cur;
      ExtendMaskStep(size, cur);
      curMask := ExtendMask(curMask);
      MaskInjective(size, common, width);
      if cur < width {
        MaskedEqual(key, kidKey, cur + 1);
        assert key[..cur + 1] == key[..cur] + [key[cur]];
        assert kidKey[..cur + 1] == kidKey[..cur] + [kidKey[cur]];
      }
      done := And(key, curMask) != And(kidKey, curMask) || lastMask == newMask;
      if !done { cur := cur + 1; }
    }
    AgreeingUnique(key, kidKey, width, common);
  }

  /** Keys that part after `common` bits: the kid's prefix reaches beyond that point. */
  lemma SplitPoint(here: Bits, kid: Bits, prefix: Bits, key: Bits, kidKey: Bits, common: nat)
    requires here < prefix <= key && here < kid <= kidKey && |key| == |kidKey| && !(kid <= prefix)
    requires |here| <= common <= |prefix| && key[..common] == kidKey[..common]
    requires common < |prefix| ==> key[common] != kidKey[common]
    ensures common < |kid| && prefix[..common] == kid[..common]
    ensures common < |prefix| ==> prefix[common] != kid[common]
  {
    assert forall j :: 0 <= j < common ==> prefix[j] == key[..common][j] == kidKey[..common][j];
    assert forall j :: 0 <= j < common && j < |kid| ==> kid[j] == prefix[j];
  }

  class Trie<V> {
    const maxBits: nat
    const head: Node<V>
    ghost var shape: Shape<V>

    /** The fields of `n` are what the shape says they are. */
    ghost predicate Mirrors(n: Node<V>)
      requires n in shape.nodes
      reads this, n
    {
      var r := shape.nodes[n];
      && n.key == Pad(r.prefix, maxBits) && n.mask == Mask(maxBits, |r.prefix|)
      && n.value == r.value && n.parent == r.parent && n.kids == r.kids
    }

    ghost predicate Faithful()
      reads this, shape.nodes.Keys
    {
      shape.maxBits == maxBits && shape.head == head && forall n :: n in shape.nodes ==> Mirrors(n)
    }

    ghost predicate Valid()
      reads this, shape.nodes.Keys
    {
      Faithful() && shape.Valid()
    }

    constructor (maxBits: nat)
      requires maxBits >= 1
      ensures Valid() && this.maxBits == maxBits && shape.handles == map[] && fresh(shape.nodes.Keys)
    {
      this.maxBits := maxBits;
      var zero := seq(maxBits, _ => false);
      var h := new Node(zero, zero, None);
      head := h;
      shape := Shape(maxBits, h, map[h := Rec([], None, null, [null, null])], map[]);
      new;
      assert head.mask == Mask(maxBits, 0) && head.key == Pad([], maxBits);
      assert shape.Linked(head);
    }

    // ---------- lookup ----------

    /** A non-null kid, as the shape sees it. */
    lemma KidKnown(node: Node<V>, i: nat, key: Bits)
      requires Faithful() && shape.Wired() && node in shape.nodes && i < 2 && node.kids[i] != null && |key| == maxBits
      ensures node.kids[i] in shape.nodes && shape.KidOk(node, node.kids[i]) && Mirrors(node.kids[i])
      ensures |shape.nodes[node.kids[i]].prefix| <= maxBits
      ensures node.kids[i].Matches(key) <==> shape.nodes[node.kids[i]].prefix <= key
    {
      assert shape.Linked(node);
      MatchIsPrefix(key, shape.nodes[node.kids[i]].prefix);
    }

    /** The kid of `node` that matches `key`; at most one does. */
    method MatchingKid(node: Node<V>, key: Bits) returns (next: Node?<V>)
      requires Faithful() && shape.Wired() && node in shape.nodes && |key| == maxBits
      ensures next != null ==> shape.KidOk(node, next) && shape.nodes[next].prefix <= key
      ensures next == null ==> forall kid: Node<V> :: shape.KidOk(node, kid) && kid in shape.nodes[node].kids ==>
                                 !(shape.nodes[kid].prefix <= key)
    {
      assert Mirrors(node);
      if node.kids[0] != null { KidKnown(node, 0, key); }
      if node.kids[1] != null { KidKnown(node, 1, key); }
      if node.kids[0] != null && node.kids[0].Matches(key) {
        next := node.kids[0];
      } else if node.kids[1] != null && node.kids[1].Matches(key) {
        next := node.kids[1];
      } else {
        next := null;
      }
    }

    method LookupHandle(key: Bits) returns (found: Node?<V>)
      requires Valid() && |key| == maxBits
      ensures found == null ==> forall p :: p in shape.handles ==> !(p <= key)
      ensures found != null ==> found in shape.nodes && found.value.Some?
      ensures found != null ==> shape.nodes[found].prefix <= key
      ensures found != null ==> forall p :: p in shape.handles && p <= key ==> |shape.nodes[found].prefix| <= |p|
    {
      var node := head;
      assert shape.Linked(head);
      while true
        invariant node in shape.nodes && shape.nodes[node].prefix <= key && shape.ClearPath(node)
        decreases maxBits - |shape.nodes[node].prefix|
      {
        assert Mirrors(node);
        if node.value.Some? {
          shape.FirstMatch(node, key);
          return node;
        }
        var next := MatchingKid(node, key);
        if next == null {
          shape.DeadEnd(node, key);
          return null;
        }
        node := next;
      }
    }

    method Lookup(key: Bits) returns (r: Option<V>)
      requires Valid() && |key| == maxBits
      ensures r == Find(shape.Contents(), key)
    {
      var node := LookupHandle(key);
      if node != null {
        r := node.value;
        HandleIsShortest(node, key);
      } else {
        r := None;
        ShortestMissing(shape.Contents(), key, 0);
      }
    }

    lemma HandleIsShortest(node: Node<V>, key: Bits)
      requires Valid() && node in shape.nodes && node.value.Some? && shape.nodes[node].prefix <= key
      requires forall p :: p in shape.handles && p <= key ==> |shape.nodes[node].prefix| <= |p|
      ensures Shortest(shape.Contents(), key, 0) == Some(|shape.nodes[node].prefix|)
      ensures key[..|shape.nodes[node].prefix|] == shape.nodes[node].prefix
      ensures node.value == Find(shape.Contents(), key)
    {
      var prefix := shape.nodes[node].prefix;
      assert Mirrors(node) && key[..|prefix|] == prefix;
      ShortestFound(shape.Contents(), key, 0, |prefix|);
    }

    // ---------- insert ----------

    /** `kid` lies on the way to the new node. */
    predicate GoesAfter(kid: Node?<V>, key: Bits, newMask: Bits)
      requires kid != null ==> |kid.mask| == |key| == |newMask|
      reads kid
    {
      kid != null && kid.Matches(key) && And(kid.mask, newMask) == kid.mask
    }

    lemma GoesAfterIsPrefix(node: Node<V>, i: nat, key: Bits, width: nat)
      requires Faithful() && shape.Wired() && node in shape.nodes && i < 2 && node.kids[i] != null
      requires |key| == maxBits && width <= maxBits
      ensures node.kids[i] in shape.nodes && |node.kids[i].mask| == maxBits
      ensures GoesAfter(node.kids[i], key, Mask(maxBits, width)) <==> shape.nodes[node.kids[i]].prefix <= key[..width]
    {
      KidKnown(node, i, key);
      SubMask(maxBits, |shape.nodes[node.kids[i]].prefix|, width);
    }

    /** The lowest node whose prefix the new one extends. */
    method WalkPast(key: Bits, newMask: Bits, ghost width: nat) returns (node: Node<V>)
      requires Valid() && |key| == maxBits && width <= maxBits && newMask == Mask(maxBits, width)
      ensures node in shape.nodes && shape.nodes[node].prefix <= key[..width]
      ensures forall i :: 0 <= i < 2 && node.kids[i] != null ==>
                node.kids[i] in shape.nodes && !(shape.nodes[node.kids[i]].prefix <= key[..width])
    {
      node := head;
      while true
        invariant node in shape.nodes && shape.nodes[node].prefix <= key[..width]
        decreases maxBits - |shape.nodes[node].prefix|
      {
        assert Mirrors(node);
        if node.kids[0] != null { KidKnown(node, 0, key); GoesAfterIsPrefix(node, 0, key, width); }
        if node.kids[1] != null { KidKnown(node, 1, key); GoesAfterIsPrefix(node, 1, key, width); }
        if GoesAfter(node.kids[0], key, newMask) {
          node := node.kids[0];
        } else if GoesAfter(node.kids[1], key, newMask) {
          node := node.kids[1];
        } else {
          return;
        }
      }
    }

    method PutLeaf(node: Node<V>, i: nat, key: Bits, mask: Bits, val: V, ghost prefix: Bits) returns (leaf: Node<V>)
      requires Faithful() && node in shape.nodes && i < |node.kids| == 2 && shape.Formed(node)
      requires |key| == maxBits && prefix <= key && mask == Mask(maxBits, |prefix|)
      modifies this, node
      ensures fresh(leaf) && leaf !in old(shape.nodes)
      ensures Faithful() && shape == old(shape).AddLeaf(node, i, leaf, prefix, val)
    {
      assert Mirrors(node);
      leaf := new Node(key, mask, Some(val));
      AndMaskPads(key, |prefix|);
      assert key[..|prefix|] == prefix;
      leaf.parent := node;
      node.kids := node.kids[i := leaf];
      shape := shape.AddLeaf(node, i, leaf, prefix, val);
    }

    /** A node without a value between `node` and `kid`. */
    method NewInner(node: Node<V>, kid: Node<V>, key: Bits, mask: Bits) returns (mid: Node<V>)
      requires |key| == |mask|
      ensures fresh(mid) && mid.key == And(key, mask) && mid.mask == mask && mid.value == None
      ensures mid.parent == node && mid.kids == [kid, null]
    {
      mid := new Node(key, mask, None);
      mid.parent := node;
      mid.kids := mid.kids[0 := kid];
    }

    method PutMid(node: Node<V>, i: nat, key: Bits, mask: Bits, ghost prefix: Bits) returns (mid: Node<V>)
      requires Faithful() && node in shape.nodes && i < |node.kids| == 2 && shape.Formed(node)
      requires node.kids[i] != null && node.kids[i] in shape.nodes && node.kids[i] != node
      requires |key| == maxBits && prefix <= key && mask == Mask(maxBits, |prefix|)
      modifies this, node, node.kids[i]
      ensures fresh(mid) && mid !in old(shape.nodes)
      ensures old(shape.nodes[node].kids[i] == node.kids[i])
      ensures Faithful() && shape == old(shape).SpliceIn(node, i, mid, prefix)
    {
      assert Mirrors(node) && |mask| == maxBits && key[..|prefix|] == prefix;
      hide Pad, Mask, And;
      AndMaskPads(key, |prefix|);
      var kid := node.kids[i];
      mid := NewInner(node, kid, key, mask);
      kid.parent := mid;
      node.kids := node.kids[i := mid];
      shape := shape.SpliceIn(node, i, mid, prefix);
    }

    method PutValue(node: Node<V>, val: V)
      requires Faithful() && node in shape.nodes
      modifies this, node
      ensures Faithful() && shape == old(shape).SetValue(node, val)
    {
      node.value := Some(val);
      shape := shape.SetValue(node, val);
    }

    /** Put an inner node where the kid and the new prefix part, and the value at or below it. */
    method SplitLeg(node: Node<V>, i: nat, key: Bits, curMask: Bits, newMask: Bits, val: V, ghost prefix: Bits, ghost common: nat)
      returns (handle: Node<V>, ghost mid: Node<V>)
      requires Faithful() && node in shape.nodes && i < |node.kids| == 2 && shape.Formed(node)
      requires node.kids[i] != null && node.kids[i] in shape.nodes && node.kids[i] != node
      requires |key| == maxBits && prefix <= key && newMask == Mask(maxBits, |prefix|)
      requires common <= |prefix| && curMask == Mask(maxBits, common)
      modifies this, node, node.kids[i]
      ensures fresh(handle) && fresh(mid) && mid !in old(shape.nodes) && handle !in old(shape.nodes)
      ensures (common < |prefix|) == (handle != mid) && old(shape.nodes[node].kids[i] == node.kids[i])
      ensures Faithful() && shape == old(shape).Place(node, i, mid, handle, prefix, common, val)
    {
      assert Mirrors(node);
      var inner := PutMid(node, i, key, curMask, prefix[..common]);
      mid := inner;
      assert shape.Formed(mid);
      MaskInjective(maxBits, common, |prefix|);
      if curMask == newMask {
        PutValue(inner, val);
        handle := inner;
      } else {
        assert Mirrors(inner);
        handle := PutLeaf(inner, 1, key, newMask, val, prefix);
      }
    }

    /** Try to place the new node on leg `i` of `node`; null when the kid there leads
        away from the new prefix at the very first bit. */
    method TryLeg(node: Node<V>, i: nat, key: Bits, newMask: Bits, val: V, ghost prefix: Bits)
      returns (handle: Node?<V>, ghost mid: Node<V>, ghost common: nat)
      requires Faithful() && node in shape.nodes && i < |node.kids| == 2 && shape.Formed(node)
      requires node.kids[i] != null ==> shape.KidOk(node, node.kids[i]) && shape.Formed(node.kids[i])
      requires node.kids[i] != null ==> !(shape.nodes[node.kids[i]].prefix <= prefix)
      requires |key| == maxBits && shape.nodes[node].prefix < prefix <= key && newMask == Mask(maxBits, |prefix|)
      modifies this, node, node.kids[i]
      ensures Faithful() && old(shape.nodes[node].kids[i] == node.kids[i])
      ensures handle == null ==> shape == old(shape) && shape.nodes[node].kids[i] != null
      ensures handle == null ==> var r := shape.nodes[node]; shape.nodes[r.kids[i]].prefix[|r.prefix|] != prefix[|r.prefix|]
      ensures handle != null ==> fresh(handle) && fresh(mid) && mid !in old(shape.nodes) && handle !in old(shape.nodes)
      ensures handle != null ==> common <= |prefix| && (common < |prefix| <==> handle != mid)
      ensures handle != null && old(node.kids[i]) != null ==>
                var kid := old(shape.nodes[node.kids[i]].prefix);
                && old(shape).nodes[node].prefix < prefix[..common] < kid
                && (common < |prefix| ==> kid[common] != prefix[common])
      ensures handle != null ==> shape == old(shape).Place(node, i, mid, handle, prefix, common, val)
    {
      assert Mirrors(node);
      var kid := node.kids[i];
      mid, common := node, |prefix|;
      if kid == null {
        handle := PutLeaf(node, i, key, newMask, val, prefix);
        mid := handle;
        return;
      }
      ghost var here, kidPrefix := shape.nodes[node].prefix, shape.nodes[kid].prefix;
      assert Mirrors(kid);
      PadKeepsPrefix(kidPrefix, maxBits);
      assert key[..|here|] == here == kid.key[..|here|];
      var curMask;
      curMask, common := CommonMask(key, kid.key, node.mask, newMask, |here|, |prefix|);
      SplitPoint(here, kidPrefix, prefix, key, kid.key, common);
      MaskInjective(maxBits, common, |here|);
      if curMask == node.mask {
        return null, mid, common;
      }
      assert here < prefix[..common] < kidPrefix;
      handle, mid := SplitLeg(node, i, key, curMask, newMask, val, prefix, common);
    }

    /** Try the legs in order; the panic behind the loop is never reached. */
    method PutBelow(node: Node<V>, key: Bits, newMask: Bits, val: V, ghost prefix: Bits)
      returns (handle: Node<V>, ghost leg: nat, ghost mid: Node<V>, ghost common: nat)
      requires Faithful() && shape.Wired() && node in shape.nodes && |key| == maxBits && newMask == Mask(maxBits, |prefix|)
      requires shape.nodes[node].prefix < prefix <= key && prefix !in shape.handles
      requires forall i :: 0 <= i < 2 && node.kids[i] != null ==>
                 node.kids[i] in shape.nodes && !(shape.nodes[node.kids[i]].prefix <= prefix)
      modifies this, shape.nodes.Keys
      ensures fresh(handle) && fresh(mid) && leg < 2 && old(shape).Takes(node, leg, mid, handle, prefix, common)
      ensures Faithful() && old(shape).Linked(node) && shape == old(shape).Place(node, leg, mid, handle, prefix, common, val)
    {
      ghost var before := shape;
      assert before.Linked(node);
      for i := 0 to 2
        invariant Faithful() && shape == before
        invariant i >= 1 ==> before.WrongLeg(node, 0, prefix)
        invariant i >= 2 ==> before.WrongLeg(node, 1, prefix)
      {
        assert Mirrors(node) && before.Linked(node);
        leg := i;
        var placed;
        placed, mid, common := TryLeg(node, i, key, newMask, val, prefix);
        if placed != null {
          handle := placed;
          return;
        }
      }
      assert false;
    }

    /** Ones in the first `width` places, zeros in the others. */
    method NewMask(width: nat) returns (newMask: Bits)
      ensures newMask == Mask(maxBits, Kept(width, maxBits))
      ensures |newMask| == maxBits && forall i :: 0 <= i < maxBits ==> (newMask[i] <==> i < width)
    {
      newMask := Ones(maxBits);
      ShiftedOnesIsMask(maxBits, Kept(width, maxBits));
      if width < maxBits {
        newMask := ShiftLeft(newMask, maxBits - width);
      } else {
        assert newMask == Mask(maxBits, maxBits);
      }
    }

    method InsertBelow(node: Node<V>, key: Bits, newMask: Bits, val: V, ghost prefix: Bits) returns (handle: Node<V>)
      requires Valid() && node in shape.nodes && |key| == maxBits && newMask == Mask(maxBits, |prefix|)
      requires shape.nodes[node].prefix < prefix <= key && prefix !in shape.handles
      requires forall i :: 0 <= i < 2 && node.kids[i] != null ==>
                 node.kids[i] in shape.nodes && !(shape.nodes[node.kids[i]].prefix <= prefix)
      modifies this, shape.nodes.Keys
      ensures Valid() && old(shape.nodes.Keys) <= shape.nodes.Keys && fresh(shape.nodes.Keys - old(shape.nodes.Keys))
      ensures shape.handles == old(shape.handles)[prefix := handle]
      ensures shape.Contents() == old(shape.Contents())[prefix := val]
    {
      hide Shape.Wired, Shape.Indexed, Shape.Compressed, Shape.Place;
      ghost var before := shape;
      ghost var leg, mid, common;
      handle, leg, mid, common := PutBelow(node, key, newMask, val, prefix);
      before.PlaceValid(node, leg, mid, handle, prefix, common, val);
    }

    /** The value goes into `node` itself if that is its place, else below it. */
    method InsertAt(node: Node<V>, key: Bits, newMask: Bits, val: V, ghost prefix: Bits) returns (handle: Node<V>)
      requires Valid() && node in shape.nodes && |key| == maxBits && newMask == Mask(maxBits, |prefix|)
      requires shape.nodes[node].prefix <= prefix <= key && prefix != [] && prefix !in shape.handles
      requires forall i :: 0 <= i < 2 && node.kids[i] != null ==>
                 node.kids[i] in shape.nodes && !(shape.nodes[node.kids[i]].prefix <= prefix)
      modifies this, shape.nodes.Keys
      ensures Valid() && old(shape.nodes.Keys) <= shape.nodes.Keys && fresh(shape.nodes.Keys - old(shape.nodes.Keys))
      ensures shape.handles == old(shape.handles)[prefix := handle]
      ensures shape.Contents() == old(shape.Contents())[prefix := val]
    {
      ghost var before := shape;
      assert Mirrors(node);
      MaskInjective(maxBits, |before.nodes[node].prefix|, |prefix|);
      if node.mask == newMask {
        assert before.nodes[node].prefix == prefix;
        assert node.value == None;
        before.SetValueValid(node, val);
        PutValue(node, val);
        handle := node;
      } else {
        handle := InsertBelow(node, key, newMask, val, prefix);
      }
    }

    method Insert(key: Bits, width: nat, val: V) returns (handle: Node<V>)
      requires Valid() && |key| == maxBits && width >= 1
      requires key[..Kept(width, maxBits)] !in shape.handles
      modifies this, shape.nodes.Keys
      ensures Valid() && old(shape.nodes.Keys) <= shape.nodes.Keys && fresh(shape.nodes.Keys - old(shape.nodes.Keys))
      ensures shape.handles == old(shape.handles)[key[..Kept(width, maxBits)] := handle]
      ensures shape.Contents() == old(shape.Contents())[key[..Kept(width, maxBits)] := val]
    {
      ghost var kept := Kept(width, maxBits);
      var newMask := NewMask(width);
      var tidy := And(key, newMask);
      AndMaskPads(key, kept);
      PadKeepsPrefix(key[..kept], maxBits);
      assert tidy[..kept] == key[..kept];
      var node := WalkPast(tidy, newMask, kept);
      handle := InsertAt(node, tidy, newMask, val, key[..kept]);
    }

    // ---------- remove ----------

    method TakeValue(node: Node<V>)
      requires Faithful() && node in shape.nodes
      modifies this, node
      ensures Faithful() && shape == old(shape).ClearValue(node)
    {
      node.value := None;
      shape := shape.ClearValue(node);
    }

    /** Figure out which kid `node` is and put `kid` in its place. */
    method Relink(parent: Node<V>, node: Node<V>, kid: Node?<V>)
      requires |parent.kids| == 2 && (parent.kids[0] == node || parent.kids[1] == node)
      modifies parent`kids
      ensures parent.kids == ReplaceKid(old(parent.kids), node, kid)
    {
      if parent.kids[0] == node {
        parent.kids := parent.kids[0 := kid];
      } else {
        assert parent.kids[1] == node;
        parent.kids := parent.kids[1 := kid];
      }
      if parent.kids[1] != null && parent.kids[0] == null {
        parent.kids := parent.kids[0 := parent.kids[1]];
        parent.kids := parent.kids[1 := null];
      }
    }

    /** Make the parent point to the only kid of `node`, and the kid to the parent. */
    method Detach(node: Node<V>)
      requires Faithful() && shape.Wired() && node in shape.nodes && node != head && shape.nodes[node].kids[1] == null
      modifies this, shape.nodes.Keys
      ensures Faithful() && shape == old(shape).Unlink(node)
    {
      hide Shape.Unlink, Shape.Wired, ReplaceKid;
      assert Mirrors(node) && shape.Linked(node) by { shape.WiredAt(node); }
      var parent := node.parent;
      assert Mirrors(parent);
      var kid := node.kids[0];
      if kid != null {
        kid.parent := parent;
      }
      Relink(parent, node, kid);
      ghost var before := shape;
      before.UnlinkWired(node);
      shape := before.Unlink(node);
      forall n | n in shape.nodes
        ensures Mirrors(n)
      {
        before.UnlinkRecs(node, n);
      }
    }

    /** Remove the value of `node`, and with it every node that is no longer needed. The recursion
        only ever reaches the parent; `calls` counts the activations. */
    method RemoveNode(node: Node<V>) returns (val: Option<V>, ghost calls: nat)
      requires Faithful() && shape.ValidBut(node) && node in shape.nodes && node != head
      requires node.value == None ==> shape.nodes[node].kids[0] != null && shape.nodes[node].kids[1] == null
      modifies this, shape.nodes.Keys
      ensures Valid() && shape.nodes.Keys <= old(shape.nodes.Keys) && val == old(node.value)
      ensures calls <= if val.Some? then 2 else 1
      ensures shape.handles == if val.Some? then old(shape.handles) - {old(shape).nodes[node].prefix} else old(shape.handles)
      ensures shape.Contents() == if val.Some? then old(shape.Contents()) - {old(shape).nodes[node].prefix} else old(shape.Contents())
      decreases shape.nodes.Keys
    {
      hide Shape.Wired, Shape.Indexed, Shape.Compressed, Shape.Unlink, Shape.ClearValue;
      ghost var before := shape;
      assert Mirrors(node) && before.Linked(node) by { before.WiredAt(node); }
      val, calls := node.value, 1;
      if node.kids[1] != null {
        TakeValue(node);
        before.ClearValueValid(node);
        return;
      }
      var parent := node.parent;
      Detach(node);
      before.UnlinkValid(node);
      before.UnlinkCascade(node);
      assert Mirrors(parent);
      if parent.kids[1] == null && parent.value == None && parent.parent != null {
        ghost var more;
        var none;
        none, more := RemoveNode(parent);
        calls := calls + more;
      }
    }

    method Remove(handle: Node<V>, ghost prefix: Bits) returns (val: Option<V>)
      requires Valid() && prefix in shape.handles && shape.handles[prefix] == handle
      modifies this, shape.nodes.Keys
      ensures Valid() && shape.nodes.Keys <= old(shape.nodes.Keys) && val == Some(old(shape.Contents()[prefix]))
      ensures shape.Contents() == old(shape.Contents()) - {prefix}
      ensures shape.handles == old(shape.handles) - {prefix}
    {
      assert Mirrors(handle);
      ghost var calls;
      val, calls := RemoveNode(handle);
    }

    method RemoveKey(key: Bits) returns (val: Option<V>)
      requires Valid() && |key| == maxBits
      modifies this, shape.nodes.Keys
      ensures Valid() && shape.nodes.Keys <= old(shape.nodes.Keys) && val == Find(old(shape.Contents()), key)
      ensures shape.Contents() == Drop(old(shape.Contents()), key)
      ensures shape.handles == Drop(old(shape.handles), key)
    {
      var handle := LookupHandle(key);
      if handle == null {
        ShortestMissing(shape.Contents(), key, 0);
        ShortestMissing(shape.handles, key, 0);
        return None;
      }
      HandleIsShortest(handle, key);
      ShortestFound(shape.handles, key, 0, |shape.nodes[handle].prefix|);
      assert Mirrors(handle);
      val := Remove(handle, shape.nodes[handle].prefix);
    }
  }

  // ---------- whole runs ----------

  datatype Op<V> =
    | Insert(key: Bits, width: nat, val: V)
    | RemoveHandle(prefix: Bits)
    | RemoveKey(key: Bits)
    | Lookup(key: Bits)

  /** What the callers owe: keys of the right size, no live prefix inserted twice, only live handles removed. */
  ghost predicate Legal<V>(m: map<Bits, V>, op: Op<V>, maxBits: nat) {
    match op
    case Insert(key, width, _) => |key| == maxBits && width >= 1 && key[..Kept(width, maxBits)] !in m
    case RemoveHandle(prefix) => prefix in m
    case RemoveKey(key) => |key| == maxBits
    case Lookup(key) => |key| == maxBits
  }

  ghost function Effect<V>(m: map<Bits, V>, op: Op<V>, maxBits: nat): map<Bits, V>
    requires Legal(m, op, maxBits)
  {
    match op
    case Insert(key, width, val) => m[key[..Kept(width, maxBits)] := val]
    case RemoveHandle(prefix) => m - {prefix}
    case RemoveKey(key) => Drop(m, key)
    case Lookup(_) => m
  }

  ghost function Answer<V>(m: map<Bits, V>, op: Op<V>, maxBits: nat): Option<V>
    requires Legal(m, op, maxBits)
  {
    match op
    case Insert(_, _, _) => None
    case RemoveHandle(prefix) => Some(m[prefix])
    case RemoveKey(key) => Find(m, key)
    case Lookup(key) => Find(m, key)
  }

  /** The first `width` bits are the same, or all of them. */
  predicate Agree(k: Bits, key: Bits, width: nat)
    requires |k| == |key|
  {
    forall i :: 0 <= i < |key| && i < width ==> k[i] == key[i]
  }

  lemma AgreeIsPrefix(k: Bits, key: Bits, width: nat)
    requires |k| == |key|
    ensures Agree(k, key, width) <==> key[..Kept(width, |key|)] <= k
  {
    var n := Kept(width, |key|);
    if key[..n] <= k {
      assert forall i :: 0 <= i < n ==> key[..n][i] == k[i];
    }
  }

  lemma {:induction false} ShortestLeast<V>(m: map<Bits, V>, key: Bits, from: nat, p: Bits)
    requires p in m && p <= key && from <= |p|
    ensures Shortest(m, key, from).Some? && Shortest(m, key, from).value <= |p|
    decreases |p| - from
  {
    assert key[..|p|] == p;
    if key[..from] in m {
    } else {
      ShortestLeast(m, key, from + 1, p);
    }
  }

  lemma {:induction false} ShortestSame<V>(m: map<Bits, V>, m': map<Bits, V>, key: Bits, from: nat)
    requires forall n :: from <= n <= |key| ==> (key[..n] in m <==> key[..n] in m')
    ensures Shortest(m', key, from) == Shortest(m, key, from)
    decreases |key| + 1 - from
  {
    if from > |key| {
    } else {
      ShortestSame(m, m', key, from + 1);
    }
  }

  /** A lookup after an insertion finds the new value if and only if the first `width` bits agree and nothing shorter
      is stored; otherwise it finds what it found before. */
  lemma LookupAfterInsert<V>(m: map<Bits, V>, key: Bits, width: nat, val: V, k: Bits, maxBits: nat)
    requires Legal(m, Op.Insert(key, width, val), maxBits) && |k| == maxBits
    ensures Find(Effect(m, Op.Insert(key, width, val), maxBits), k) ==
            if Agree(k, key, width) && (forall p :: p in m && p <= k ==> |p| >= width) then Some(val) else Find(m, k)
  {
    var n := Kept(width, maxBits);
    var prefix := key[..n];
    var m' := m[prefix := val];
    AgreeIsPrefix(k, key, width);
    if !Agree(k, key, width) {
      assert forall i :: 0 <= i <= |k| ==> k[..i] != prefix;
      ShortestSame(m, m', k, 0);
    } else if forall p :: p in m && p <= k ==> |p| >= width {
      assert k[..n] == prefix;
      ShortestFound(m', k, 0, n);
    } else {
      var p :| p in m && p <= k && |p| < width;
      ShortestLeast(m, k, 0, p);
      var w := Shortest(m, k, 0).value;
      assert k[..n] == prefix && k[..w] != prefix;
      assert w < n;
      forall q | q in m' && q <= k
        ensures w <= |q|
      {
        if q in m { ShortestLeast(m, k, 0, q); }
      }
      ShortestFound(m', k, 0, w);
    }
  }

  /** The stored prefix that a lookup finds. */
  ghost function FoundAt<V>(m: map<Bits, V>, key: Bits): Option<Bits> {
    var w := Shortest(m, key, 0);
    if w.Some? then Some(key[..w.value]) else None
  }

  /** Removing by key answers what a lookup would have answered; afterwards that entry is gone, and lookups that did not
      find it find what they found before. */
  lemma LookupAfterRemove<V>(m: map<Bits, V>, key: Bits, k: Bits)
    requires |key| == |k|
    ensures Answer(m, Op.RemoveKey(key), |key|) == Answer(m, Op.Lookup(key), |key|)
    ensures var m' := Effect(m, Op.RemoveKey(key), |key|);
            && m'.Keys <= m.Keys && |m.Keys| - |m'.Keys| == (if Answer(m, Op.Lookup(key), |key|) == None then 0 else 1)
            && (FoundAt(m, k) != FoundAt(m, key) ==> Find(m', k) == Find(m, k))
  {
    var w := Shortest(m, key, 0);
    var m' := Drop(m, key);
    if w.Some? {
      var p := key[..w.value];
      assert m.Keys == m'.Keys + {p};
      var u := Shortest(m, k, 0);
      if u.Some? && k[..u.value] != p {
        forall q | q in m' && q <= k
          ensures u.value <= |q|
        {
          ShortestLeast(m, k, 0, q);
        }
        ShortestFound(m', k, 0, u.value);
      } else if u.None? {
        forall q | q in m'
          ensures !(q <= k)
        {
          if q <= k { ShortestLeast(m, k, 0, q); }
        }
        ShortestMissing(m', k, 0);
      }
    }
  }

  /** After one insertion into an empty trie, exactly the keys that agree on the first `width` bits are found. */
  lemma InsertThenLookup<V>(key: Bits, width: nat, val: V, k: Bits)
    requires |k| == |key| && width >= 1
    ensures var ops := [Op.Insert(key, width, val), Op.Lookup(k)];
            && LegalRun(map[], ops, |key|)
            && Answers(map[], ops, |key|) == [None, if forall i :: 0 <= i < |key| && i < width ==> k[i] == key[i] then Some(val) else None]
  {
    var m: map<Bits, V> := map[];
    var ops := [Op.Insert(key, width, val), Op.Lookup(k)];
    LookupAfterInsert(m, key, width, val, k, |key|);
    ShortestMissing(m, k, 0);
    var m' := Effect(m, ops[0], |key|);
    assert ops[1..] == [Op.Lookup(k)] && ops[1..][1..] == [];
    assert Answers(m', ops[1..], |key|) == [Find(m', k)];
    assert Agree(k, key, width) <==> forall i :: 0 <= i < |key| && i < width ==> k[i] == key[i];
  }

  ghost predicate LegalRun<V>(m: map<Bits, V>, ops: seq<Op<V>>, maxBits: nat)
    decreases |ops|
  {
    ops == [] || (Legal(m, ops[0], maxBits) && LegalRun(Effect(m, ops[0], maxBits), ops[1..], maxBits))
  }

  /** What a plain map answers to a run of operations. */
  ghost function Answers<V>(m: map<Bits, V>, ops: seq<Op<V>>, maxBits: nat): seq<Option<V>>
    requires LegalRun(m, ops, maxBits)
    decreases |ops|
  {
    if ops == [] then []
    else [Answer(m, ops[0], maxBits)] + Answers(Effect(m, ops[0], maxBits), ops[1..], maxBits)
  }

  /** Every live prefix is still denoted by the handle that its insert returned. */
  ghost predicate Holds<V>(table: map<Bits, Node<V>>, handles: map<Bits, Node<V>>) {
    forall p :: p in handles ==> p in table && table[p] == handles[p]
  }

  /** The trie stands for the map `m` and the client's table for its live handles. */
  ghost predicate Stands<V>(trie: Trie<V>, table: map<Bits, Node<V>>, m: map<Bits, V>)
    reads trie, trie.shape.nodes.Keys
  {
    trie.Valid() && trie.shape.Contents() == m && Holds(table, trie.shape.handles)
  }

  /** Drive a trie with a run of operations, keeping the handles that insert returned: it answers like the map. */
  method Run<V>(ops: seq<Op<V>>, maxBits: nat) returns (answers: seq<Option<V>>)
    requires maxBits >= 1 && LegalRun(map[], ops, maxBits)
    ensures answers == Answers(map[], ops, maxBits)
  {
    hide Stands, Effect, Answer, Legal;
    var trie, table := Start<V>(maxBits);
    answers := [];
    ghost var m: map<Bits, V> := map[];
    for i := 0 to |ops|
      invariant fresh(trie) && fresh(trie.shape.nodes.Keys) && trie.maxBits == maxBits && Stands(trie, table, m)
      invariant LegalRun(m, ops[i..], maxBits)
      invariant answers + Answers(m, ops[i..], maxBits) == Answers(map[], ops, maxBits)
    {
      assert ops[i..][0] == ops[i] && ops[i..][1..] == ops[i + 1..];
      var answer;
      answer, table := Do(trie, table, ops[i], m);
      answers := answers + [answer];
      m := Effect(m, ops[i], maxBits);
    }
  }

  method Start<V>(maxBits: nat) returns (trie: Trie<V>, table: map<Bits, Node<V>>)
    requires maxBits >= 1
    ensures fresh(trie) && fresh(trie.shape.nodes.Keys) && trie.maxBits == maxBits && Stands(trie, table, map[])
  {
    trie := new Trie<V>(maxBits);
    table := map[];
  }

  method Do<V>(trie: Trie<V>, table: map<Bits, Node<V>>, op: Op<V>, ghost m: map<Bits, V>)
    returns (answer: Option<V>, table': map<Bits, Node<V>>)
    requires Stands(trie, table, m) && Legal(m, op, trie.maxBits)
    modifies trie, trie.shape.nodes.Keys
    ensures Stands(trie, table', Effect(m, op, trie.maxBits)) && answer == Answer(m, op, trie.maxBits)
    ensures fresh(trie.shape.nodes.Keys - old(trie.shape.nodes.Keys))
  {
    hide Shape.Valid, Shape.Contents, Trie.Faithful, Find, Shortest;
    table' := table;
    match op
    case Insert(key, width, val) =>
      var handle := trie.Insert(key, width, val);
      answer, table' := None, table[key[..Kept(width, trie.maxBits)] := handle];
    case RemoveHandle(prefix) =>
      answer := trie.Remove(table[prefix], prefix);
    case RemoveKey(key) =>
      answer := trie.RemoveKey(key);
    case Lookup(key) =>
      answer := trie.Lookup(key);
  }
}
