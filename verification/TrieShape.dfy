/** The trie's shape as a value: what every node holds and points to, the invariant
    that insert and remove keep, and the effect of each rewiring step.
    The heap-based trie carries such a value and is proved to mirror it. */
module TrieShape {
  import opened BitStrings
  import opened Options
  import SetSizes

  class Node<V> {
    var key: Bits
    var mask: Bits
    var value: Option<V>
    var parent: Node?<V>
    var kids: seq<Node?<V>>

    constructor (key: Bits, mask: Bits, value: Option<V>)
      requires |key| == |mask|
      ensures this.key == And(key, mask) && this.mask == mask && this.value == value
      ensures parent == null && kids == [null, null]
    {
      this.key, this.mask, this.value := And(key, mask), mask, value;
      parent, kids := null, [null, null];
    }

    predicate Matches(test: Bits)
      requires |test| == |mask|
      reads this
    {
      And(test, mask) == key
    }
  }

  /** Put `kid` in the place of `node`; a lone kid moves to kids[0]. */
  function ReplaceKid<V>(kids: seq<Node?<V>>, node: Node<V>, kid: Node?<V>): seq<Node?<V>>
    requires |kids| == 2
  {
    var kids' := if kids[0] == node then [kid, kids[1]] else [kids[0], kid];
    if kids'[1] != null && kids'[0] == null then [kids'[1], null] else kids'
  }

  /** The contents of one node; `prefix` is the part of its key that its mask keeps. */
  datatype Rec<V> = Rec(prefix: Bits, value: Option<V>, parent: Node?<V>, kids: seq<Node?<V>>)

  /** `handles` names the nodes that carry a value by their prefix. */
  datatype Shape<V> = Shape(maxBits: nat, head: Node<V>, nodes: map<Node<V>, Rec<V>>, handles: map<Bits, Node<V>>) {

    ghost predicate Formed(n: Node<V>)
      requires n in nodes
    {
      |nodes[n].prefix| <= maxBits && |nodes[n].kids| == 2
    }

    ghost predicate KidOk(n: Node<V>, kid: Node<V>)
      requires n in nodes
    {
      kid in nodes && nodes[kid].parent == n && nodes[n].prefix < nodes[kid].prefix
    }

    /** A lone kid is kids[0]; two kids part at the bit just below the mask. */
    ghost predicate KidsOk(n: Node<V>)
      requires n in nodes && Formed(n)
    {
      var r := nodes[n];
      && (r.kids[0] != null ==> KidOk(n, r.kids[0]))
      && (r.kids[1] != null ==> r.kids[0] != null && KidOk(n, r.kids[1]) &&
                                nodes[r.kids[0]].prefix[|r.prefix|] != nodes[r.kids[1]].prefix[|r.prefix|])
    }

    ghost predicate ParentOk(n: Node<V>)
      requires n in nodes
    {
      var p := nodes[n].parent;
      && (p == null <==> n == head)
      && (p != null ==> p in nodes && Formed(p) && nodes[p].prefix < nodes[n].prefix &&
                        (nodes[p].kids[0] == n || nodes[p].kids[1] == n))
    }

    ghost predicate Linked(n: Node<V>)
      requires n in nodes && Formed(n)
    {
      KidsOk(n) && ParentOk(n)
    }

    // Linked is only instantiated where a proof names it: neighbours of
    // neighbours would otherwise be followed without end.
    ghost predicate Wired() {
      && maxBits >= 1
      && head in nodes && nodes[head].prefix == [] && nodes[head].value == None
      && (forall n :: n in nodes ==> Formed(n))
      && forall n {:trigger Linked(n)} :: n in nodes ==> Linked(n)
    }

    lemma WiredAt(n: Node<V>)
      requires Wired() && n in nodes
      ensures Formed(n) && Linked(n)
    {
    }

    /** A node without a value has two kids, unless it is the head or on its way out. */
    ghost predicate Compressed(except: Node?<V>)
      requires Wired()
    {
      forall n :: n in nodes && n != head && n != except && nodes[n].value == None ==>
        nodes[n].kids[1] != null
    }

    ghost predicate Indexed() {
      && (forall p :: p in handles ==>
            handles[p] in nodes && nodes[handles[p]].value.Some? && nodes[handles[p]].prefix == p)
      && (forall n :: n in nodes && nodes[n].value.Some? ==>
            nodes[n].prefix in handles && handles[nodes[n].prefix] == n)
    }

    ghost predicate ValidBut(except: Node?<V>) {
      Wired() && Indexed() && Compressed(except)
    }

    ghost predicate Valid() {
      ValidBut(null)
    }

    /** The finite map from prefixes to values that the trie stands for. */
    ghost function Contents(): (m: map<Bits, V>)
      requires Indexed()
      ensures m.Keys == handles.Keys
    {
      map p | p in handles :: nodes[handles[p]].value.value
    }

    // ---------- prefixes and ancestry ----------

    /** `a` is `m` or one of its ancestors. */
    ghost predicate Above(a: Node<V>, m: Node<V>)
      requires Wired() && m in nodes
      decreases |nodes[m].prefix|
    {
      a == m || (assert Linked(m); nodes[m].parent != null && Above(a, nodes[m].parent))
    }

    lemma {:induction false} AboveIsPrefix(a: Node<V>, m: Node<V>)
      requires Wired() && a in nodes && m in nodes && Above(a, m)
      ensures nodes[a].prefix <= nodes[m].prefix
      ensures nodes[a].prefix == nodes[m].prefix ==> a == m
      decreases |nodes[m].prefix|
    {
      if a == m {
      } else {
        assert Linked(m);
        AboveIsPrefix(a, nodes[m].parent);
      }
    }

    lemma {:induction false} HeadAbove(m: Node<V>)
      requires Wired() && m in nodes
      ensures Above(head, m)
      decreases |nodes[m].prefix|
    {
      if m == head {
      } else {
        assert Linked(m);
        HeadAbove(nodes[m].parent);
      }
    }

    /** The kid through which a strict descendant is reached. */
    lemma {:induction false} KidToward(a: Node<V>, m: Node<V>) returns (kid: Node<V>)
      requires Wired() && a in nodes && m in nodes && Above(a, m) && a != m
      ensures (kid == nodes[a].kids[0] || kid == nodes[a].kids[1]) && KidOk(a, kid) && Above(kid, m)
      decreases |nodes[m].prefix|
    {
      assert Linked(m);
      if nodes[m].parent == a {
        kid := m;
        assert Linked(a);
      } else {
        kid := KidToward(a, nodes[m].parent);
      }
    }

    lemma {:induction false} PrefixIsAncestorFrom(top: Node<V>, a: Node<V>, b: Node<V>)
      requires Wired() && top in nodes && a in nodes && b in nodes
      requires Above(top, a) && Above(top, b) && nodes[a].prefix <= nodes[b].prefix
      ensures Above(a, b)
      decreases maxBits - |nodes[top].prefix|
    {
      if top == a {
      } else {
        AboveIsPrefix(top, a);
        var i := KidToward(top, a);
        var j := KidToward(top, b);
        AboveIsPrefix(i, a);
        AboveIsPrefix(j, b);
        assert Linked(top);
        assert nodes[a].prefix[|nodes[top].prefix|] == nodes[b].prefix[|nodes[top].prefix|];
        PrefixIsAncestorFrom(i, a, b);
      }
    }

    /** Prefix order among stored nodes is exactly ancestry. */
    lemma PrefixIsAncestor(a: Node<V>, b: Node<V>)
      requires Wired() && a in nodes && b in nodes
      ensures nodes[a].prefix <= nodes[b].prefix <==> Above(a, b)
    {
      if nodes[a].prefix <= nodes[b].prefix {
        HeadAbove(a);
        HeadAbove(b);
        PrefixIsAncestorFrom(head, a, b);
      }
      if Above(a, b) {
        AboveIsPrefix(a, b);
      }
    }

    /** Kid `k` of `n` is untouched in `s`. */
    ghost predicate SameKid(s: Shape<V>, k: Node?<V>) {
      k != null && k in nodes ==> k in s.nodes && s.nodes[k].parent == nodes[k].parent && s.nodes[k].prefix == nodes[k].prefix
    }

    lemma KidsKept(s: Shape<V>, n: Node<V>)
      requires n in nodes && Formed(n) && KidsOk(n) && s.maxBits == maxBits
      requires n in s.nodes && s.nodes[n].kids == nodes[n].kids && s.nodes[n].prefix == nodes[n].prefix
      requires SameKid(s, nodes[n].kids[0]) && SameKid(s, nodes[n].kids[1])
      ensures s.Formed(n) && s.KidsOk(n)
    {
    }

    /** Prefixes of one word are ordered by length. */
    lemma PrefixesOfOneWord(p: Bits, q: Bits, word: Bits)
      requires p <= word && q <= word && |p| <= |q|
      ensures p <= q
    {
    }

    // ---------- lookup ----------

    /** No strict ancestor of `node` carries a value. */
    ghost predicate ClearPath(node: Node<V>)
      requires Wired() && node in nodes
      decreases |nodes[node].prefix|
    {
      assert Linked(node);
      var p := nodes[node].parent;
      p == null || (nodes[p].value == None && ClearPath(p))
    }

    lemma {:induction false} ClearPathAbove(a: Node<V>, node: Node<V>)
      requires Wired() && a in nodes && node in nodes && ClearPath(node) && Above(a, node) && a != node
      ensures nodes[a].value == None
      decreases |nodes[node].prefix|
    {
      assert Linked(node);
      if a == nodes[node].parent {
      } else {
        ClearPathAbove(a, nodes[node].parent);
      }
    }

    /** The walk meets a value only after passing every shorter match. */
    lemma FirstMatch(node: Node<V>, key: Bits)
      requires Valid() && node in nodes && ClearPath(node) && nodes[node].prefix <= key
      ensures forall p :: p in handles && p <= key ==> |nodes[node].prefix| <= |p|
    {
      forall p | p in handles && p <= key
        ensures |nodes[node].prefix| <= |p|
      {
        if |p| < |nodes[node].prefix| {
          PrefixesOfOneWord(p, nodes[node].prefix, key);
          PrefixIsAncestor(handles[p], node);
          ClearPathAbove(handles[p], node);
        }
      }
    }

    /** Where the walk has nowhere to go, no stored prefix matches at all. */
    lemma DeadEnd(node: Node<V>, key: Bits)
      requires Valid() && node in nodes && ClearPath(node) && nodes[node].value == None
      requires nodes[node].prefix <= key
      requires forall kid: Node<V> :: KidOk(node, kid) && kid in nodes[node].kids ==> !(nodes[kid].prefix <= key)
      ensures forall p :: p in handles ==> !(p <= key)
    {
      forall p | p in handles && p <= key
        ensures false
      {
        var m := handles[p];
        if |p| <= |nodes[node].prefix| {
          PrefixesOfOneWord(p, nodes[node].prefix, key);
          PrefixIsAncestor(m, node);
          ClearPathAbove(m, node);
        } else {
          PrefixesOfOneWord(nodes[node].prefix, p, key);
          PrefixIsAncestor(node, m);
          var kid := KidToward(node, m);
          AboveIsPrefix(kid, m);
        }
      }
    }

    // ---------- the steps of insert ----------

    /** `s` carries the same values under the same prefixes, plus `val` at `node`. */
    ghost predicate Gains(s: Shape<V>, node: Node<V>, val: V) {
      && node in s.nodes && s.nodes[node].value == Some(val) && s.nodes[node].prefix !in handles
      && s.handles == handles[s.nodes[node].prefix := node]
      && (forall n :: n in nodes ==> n in s.nodes && s.nodes[n].prefix == nodes[n].prefix)
      && (forall n :: n in nodes && n != node ==> s.nodes[n].value == nodes[n].value)
      && (forall n :: n in s.nodes && n !in nodes && n != node ==> s.nodes[n].value == None)
    }

    /** `s` carries the same values under the same prefixes, less the one at `node`. */
    ghost predicate Loses(s: Shape<V>, node: Node<V>) {
      && node in nodes && (node in s.nodes ==> s.nodes[node].value == None)
      && s.handles == (if nodes[node].value.Some? then handles - {nodes[node].prefix} else handles)
      && (forall n :: n in nodes && n != node ==>
            n in s.nodes && s.nodes[n].prefix == nodes[n].prefix && s.nodes[n].value == nodes[n].value)
      && (forall n :: n in s.nodes && n !in nodes ==> s.nodes[n].value == None)
    }

    lemma LosesIndexed(s: Shape<V>, node: Node<V>)
      requires Indexed() && Loses(s, node)
      ensures s.Indexed()
      ensures s.Contents() == if nodes[node].value.Some? then Contents() - {nodes[node].prefix} else Contents()
    {
    }

    lemma GainsIndexed(s: Shape<V>, node: Node<V>, val: V)
      requires Indexed() && Gains(s, node, val)
      ensures s.Indexed()
    {
    }

    lemma GainsContents(s: Shape<V>, node: Node<V>, val: V)
      requires Indexed() && s.Indexed() && Gains(s, node, val)
      ensures s.Contents() == Contents()[s.nodes[node].prefix := val]
    {
    }

    ghost function SetValue(node: Node<V>, val: V): Shape<V>
      requires node in nodes
    {
      this.(nodes := nodes[node := nodes[node].(value := Some(val))], handles := handles[nodes[node].prefix := node])
    }

    lemma SetValueLinked(node: Node<V>, val: V, n: Node<V>)
      requires Wired() && node in nodes && n in nodes
      ensures SetValue(node, val).Formed(n) && SetValue(node, val).Linked(n)
    {
      assert Linked(n);
    }

    lemma SetValueWired(node: Node<V>, val: V)
      requires Wired() && node in nodes && node != head
      ensures SetValue(node, val).Wired()
    {
      var s := SetValue(node, val);
      forall n | n in nodes
        ensures s.Formed(n) && s.Linked(n)
      {
        SetValueLinked(node, val, n);
      }
    }

    lemma SetValueValid(node: Node<V>, val: V)
      requires ValidBut(node) && node in nodes && node != head && nodes[node].prefix !in handles
      ensures SetValue(node, val).Valid()
      ensures SetValue(node, val).Contents() == Contents()[nodes[node].prefix := val]
    {
      var s := SetValue(node, val);
      SetValueWired(node, val);
      GainsIndexed(s, node, val);
      GainsContents(s, node, val);
    }

    /** Hang a new node with a value on leg `i` of `node`. */
    ghost function AddLeaf(node: Node<V>, i: nat, leaf: Node<V>, prefix: Bits, val: V): Shape<V>
      requires node in nodes && Formed(node) && i < 2
    {
      this.(nodes := nodes[node := nodes[node].(kids := nodes[node].kids[i := leaf])]
                          [leaf := Rec(prefix, Some(val), node, [null, null])],
            handles := handles[prefix := leaf])
    }

    /** The leg `i` of `node` is free for a longer prefix. */
    ghost predicate Free(node: Node<V>, i: nat, prefix: Bits)
      requires Wired() && node in nodes
    {
      var r := nodes[node];
      assert Linked(node);
      && i < 2 && r.prefix < prefix && |prefix| <= maxBits && r.kids[i] == null
      && (i == 1 ==> r.kids[0] != null && nodes[r.kids[0]].prefix[|r.prefix|] != prefix[|r.prefix|])
    }

    /** The kid on leg `i` leads away from `prefix` at the very first bit. */
    ghost predicate WrongLeg(node: Node<V>, i: nat, prefix: Bits)
      requires Wired() && node in nodes && i < 2 && nodes[node].prefix < prefix
    {
      assert Linked(node);
      var r := nodes[node];
      r.kids[i] != null && nodes[r.kids[i]].prefix[|r.prefix|] != prefix[|r.prefix|]
    }

    lemma AddLeafKids(node: Node<V>, i: nat, leaf: Node<V>, prefix: Bits, val: V, n: Node<V>)
      requires Wired() && node in nodes && Free(node, i, prefix) && leaf !in nodes
      requires n in nodes || n == leaf
      ensures AddLeaf(node, i, leaf, prefix, val).Formed(n)
      ensures AddLeaf(node, i, leaf, prefix, val).KidsOk(n)
    {
      if n in nodes { assert Linked(n); }
    }

    lemma AddLeafParent(node: Node<V>, i: nat, leaf: Node<V>, prefix: Bits, val: V, n: Node<V>)
      requires Wired() && node in nodes && Free(node, i, prefix) && leaf !in nodes
      requires n in nodes || n == leaf
      ensures AddLeaf(node, i, leaf, prefix, val).ParentOk(n)
    {
      if n in nodes { assert Linked(n); }
    }

    lemma AddLeafWired(node: Node<V>, i: nat, leaf: Node<V>, prefix: Bits, val: V)
      requires Wired() && node in nodes && Free(node, i, prefix) && leaf !in nodes
      ensures AddLeaf(node, i, leaf, prefix, val).Wired()
    {
      var s := AddLeaf(node, i, leaf, prefix, val);
      forall n | n in s.nodes
        ensures s.Formed(n) && s.Linked(n)
      {
        AddLeafKids(node, i, leaf, prefix, val, n);
        AddLeafParent(node, i, leaf, prefix, val, n);
      }
    }

    lemma AddLeafValid(node: Node<V>, i: nat, leaf: Node<V>, prefix: Bits, val: V)
      requires ValidBut(if i == 1 then node else null) && node in nodes
      requires Free(node, i, prefix) && leaf !in nodes && prefix !in handles
      ensures AddLeaf(node, i, leaf, prefix, val).Valid()
      ensures AddLeaf(node, i, leaf, prefix, val).Contents() == Contents()[prefix := val]
    {
      var s := AddLeaf(node, i, leaf, prefix, val);
      AddLeafWired(node, i, leaf, prefix, val);
      GainsIndexed(s, leaf, val);
      GainsContents(s, leaf, val);
    }

    /** Put `mid`, without a value, between `node` and its kid on leg `i`. */
    ghost function SpliceIn(node: Node<V>, i: nat, mid: Node<V>, prefix: Bits): Shape<V>
      requires node in nodes && Formed(node) && i < 2
      requires nodes[node].kids[i] != null && nodes[node].kids[i] in nodes
    {
      var kid := nodes[node].kids[i];
      this.(nodes := nodes[node := nodes[node].(kids := nodes[node].kids[i := mid])]
                          [kid := nodes[kid].(parent := mid)]
                          [mid := Rec(prefix, None, node, [kid, null])])
    }

    ghost predicate Between(node: Node<V>, i: nat, mid: Node<V>, prefix: Bits)
      requires Wired() && node in nodes
    {
      assert Linked(node);
      && i < 2 && mid !in nodes && nodes[node].kids[i] != null
      && nodes[node].prefix < prefix < nodes[nodes[node].kids[i]].prefix
    }

    lemma SpliceInRecs(node: Node<V>, i: nat, mid: Node<V>, prefix: Bits, n: Node<V>)
      requires Wired() && node in nodes && Between(node, i, mid, prefix) && n in nodes
      ensures Linked(node) && n in SpliceIn(node, i, mid, prefix).nodes
      ensures SpliceIn(node, i, mid, prefix).nodes[n] ==
              if n == node then nodes[n].(kids := nodes[n].kids[i := mid])
              else if n == nodes[node].kids[i] then nodes[n].(parent := mid)
              else nodes[n]
    {
      assert Linked(node);
    }

    lemma SpliceInKids(node: Node<V>, i: nat, mid: Node<V>, prefix: Bits, n: Node<V>)
      requires Wired() && node in nodes && Between(node, i, mid, prefix) && (n in nodes || n == mid)
      ensures Linked(node) && SpliceIn(node, i, mid, prefix).Formed(n) && SpliceIn(node, i, mid, prefix).KidsOk(n)
    {
      assert Linked(node);
      var s := SpliceIn(node, i, mid, prefix);
      var kid := nodes[node].kids[i];
      assert s.nodes[kid] == nodes[kid].(parent := mid);
      if n == mid {
      } else if n == node {
        SpliceInAtNode(node, i, mid, prefix);
      } else {
        assert Linked(n);
        KidsKept(s, n);
      }
    }

    lemma SpliceInAtNode(node: Node<V>, i: nat, mid: Node<V>, prefix: Bits)
      requires Wired() && node in nodes && Between(node, i, mid, prefix)
      ensures Linked(node) && SpliceIn(node, i, mid, prefix).Formed(node) && SpliceIn(node, i, mid, prefix).KidsOk(node)
    {
      assert Linked(node);
      var s := SpliceIn(node, i, mid, prefix);
      var kid, other := nodes[node].kids[i], nodes[node].kids[1 - i];
      assert s.nodes[node].kids[i] == mid && s.nodes[node].kids[1 - i] == other;
      assert prefix[|nodes[node].prefix|] == nodes[kid].prefix[|nodes[node].prefix|];
      if other != null {
        assert other != kid;
        assert s.nodes[other] == nodes[other];
      }
    }

    lemma SpliceInParent(node: Node<V>, i: nat, mid: Node<V>, prefix: Bits, n: Node<V>)
      requires Wired() && node in nodes && Between(node, i, mid, prefix) && (n in nodes || n == mid)
      ensures Linked(node) && SpliceIn(node, i, mid, prefix).ParentOk(n)
    {
      assert Linked(node);
      SpliceInRecs(node, i, mid, prefix, node);
      if n != mid {
        assert Linked(n);
        SpliceInRecs(node, i, mid, prefix, n);
        if n != head {
          SpliceInRecs(node, i, mid, prefix, nodes[n].parent);
        }
      }
    }

    lemma SpliceInWired(node: Node<V>, i: nat, mid: Node<V>, prefix: Bits)
      requires Wired() && node in nodes && Between(node, i, mid, prefix)
      ensures Linked(node) && SpliceIn(node, i, mid, prefix).Wired()
    {
      assert Linked(node);
      var s := SpliceIn(node, i, mid, prefix);
      forall n | n in s.nodes
        ensures s.Formed(n) && s.Linked(n)
      {
        SpliceInKids(node, i, mid, prefix, n);
        SpliceInParent(node, i, mid, prefix, n);
      }
      assert Linked(nodes[node].kids[i]);
    }

    lemma SpliceInValid(node: Node<V>, i: nat, mid: Node<V>, prefix: Bits)
      requires Valid() && node in nodes && Between(node, i, mid, prefix)
      ensures Linked(node) && SpliceIn(node, i, mid, prefix).ValidBut(mid)
      ensures SpliceIn(node, i, mid, prefix).Contents() == Contents()
    {
      SpliceInWired(node, i, mid, prefix);
      var s := SpliceIn(node, i, mid, prefix);
      forall n | n in nodes
        ensures n in s.nodes && s.nodes[n].prefix == nodes[n].prefix && s.nodes[n].value == nodes[n].value
        ensures s.nodes[n].kids[1] == null ==> nodes[n].kids[1] == null
      {
        SpliceInRecs(node, i, mid, prefix, n);
      }
      LosesIndexed(s, head);
    }

    /** Put the new prefix below `node` on leg `i`: on its own if the leg is free, else next to or
        above the kid there, from which it parts after `common` bits. */
    ghost function Place(node: Node<V>, i: nat, mid: Node<V>, leaf: Node<V>, prefix: Bits, common: nat, val: V): Shape<V>
      requires node in nodes && Formed(node) && i < 2 && common <= |prefix| <= maxBits
      requires nodes[node].kids[i] != null ==> nodes[node].kids[i] in nodes
    {
      if nodes[node].kids[i] == null then AddLeaf(node, i, leaf, prefix, val)
      else
        var s := SpliceIn(node, i, mid, prefix[..common]);
        if common == |prefix| then s.SetValue(mid, val) else s.AddLeaf(mid, 1, leaf, prefix, val)
    }

    /** Where `prefix` and the kid on leg `i` part. */
    ghost predicate PartsAt(node: Node<V>, i: nat, prefix: Bits, common: nat)
      requires Wired() && node in nodes && i < 2 && nodes[node].kids[i] != null
    {
      assert Linked(node);
      var kid := nodes[nodes[node].kids[i]].prefix;
      && common <= |prefix| && nodes[node].prefix < prefix[..common] < kid
      && (common < |prefix| ==> kid[common] != prefix[common])
    }

    /** Leg `i` of `node` takes the new prefix, which is not stored yet. */
    ghost predicate Takes(node: Node<V>, i: nat, mid: Node<V>, leaf: Node<V>, prefix: Bits, common: nat)
      requires Wired() && node in nodes && i < 2
    {
      && common <= |prefix| <= maxBits && prefix !in handles && mid !in nodes && leaf !in nodes
      && (common < |prefix| <==> leaf != mid)
      && if nodes[node].kids[i] == null then Free(node, i, prefix) else PartsAt(node, i, prefix, common)
    }

    lemma PlaceKeys(node: Node<V>, i: nat, mid: Node<V>, leaf: Node<V>, prefix: Bits, common: nat, val: V)
      requires Wired() && node in nodes && i < 2 && Takes(node, i, mid, leaf, prefix, common)
      ensures Linked(node) && Place(node, i, mid, leaf, prefix, common, val).handles == handles[prefix := leaf]
      ensures nodes.Keys <= Place(node, i, mid, leaf, prefix, common, val).nodes.Keys <= nodes.Keys + {mid, leaf}
    {
      assert Linked(node);
      assert common == |prefix| ==> prefix[..common] == prefix;
    }

    /** The heart of insert: wherever the new prefix goes, the shape stays valid and the map gains one entry. */
    lemma PlaceValid(node: Node<V>, i: nat, mid: Node<V>, leaf: Node<V>, prefix: Bits, common: nat, val: V)
      requires Valid() && node in nodes && i < 2 && Takes(node, i, mid, leaf, prefix, common)
      ensures Linked(node)
      ensures var s := Place(node, i, mid, leaf, prefix, common, val);
              s.Valid() && s.Contents() == Contents()[prefix := val] && s.handles == handles[prefix := leaf] &&
              nodes.Keys <= s.nodes.Keys <= nodes.Keys + {mid, leaf}
    {
      assert Linked(node);
      PlaceKeys(node, i, mid, leaf, prefix, common, val);
      if nodes[node].kids[i] == null {
        AddLeafValid(node, i, leaf, prefix, val);
      } else {
        SplitValid(node, i, mid, leaf, prefix, common, val);
      }
    }

    lemma SplitValid(node: Node<V>, i: nat, mid: Node<V>, leaf: Node<V>, prefix: Bits, common: nat, val: V)
      requires Valid() && node in nodes && i < 2 && nodes[node].kids[i] != null && |prefix| <= maxBits
      requires PartsAt(node, i, prefix, common) && prefix !in handles
      requires mid !in nodes && leaf !in nodes && (common < |prefix| <==> leaf != mid)
      ensures Linked(node) && Place(node, i, mid, leaf, prefix, common, val).Valid()
      ensures Place(node, i, mid, leaf, prefix, common, val).Contents() == Contents()[prefix := val]
    {
      SpliceInValid(node, i, mid, prefix[..common]);
      var s := SpliceIn(node, i, mid, prefix[..common]);
      var kid := nodes[node].kids[i];
      assert s.nodes[mid] == Rec(prefix[..common], None, node, [kid, null]);
      if common == |prefix| {
        assert prefix[..common] == prefix;
        s.SetValueValid(mid, val);
      } else {
        SpliceInRecs(node, i, mid, prefix[..common], kid);
        assert s.Free(mid, 1, prefix);
        s.AddLeafValid(mid, 1, leaf, prefix, val);
      }
    }

    // ---------- the steps of remove ----------

    ghost function ClearValue(node: Node<V>): Shape<V>
      requires node in nodes
    {
      this.(nodes := nodes[node := nodes[node].(value := None)], handles := handles - {nodes[node].prefix})
    }

    lemma ClearValueLinked(node: Node<V>, n: Node<V>)
      requires Wired() && node in nodes && n in nodes
      ensures ClearValue(node).Formed(n) && ClearValue(node).Linked(n)
    {
      assert Linked(n);
    }

    lemma ClearValueWired(node: Node<V>)
      requires Wired() && node in nodes
      ensures ClearValue(node).Wired()
    {
      var s := ClearValue(node);
      forall n | n in nodes
        ensures s.Formed(n) && s.Linked(n)
      {
        ClearValueLinked(node, n);
      }
    }

    lemma ClearValueValid(node: Node<V>)
      requires ValidBut(node) && node in nodes && nodes[node].value.Some? && nodes[node].kids[1] != null
      ensures ClearValue(node).Valid() && ClearValue(node).nodes.Keys == nodes.Keys
      ensures ClearValue(node).handles == handles - {nodes[node].prefix}
      ensures ClearValue(node).Contents() == Contents() - {nodes[node].prefix}
    {
      ClearValueWired(node);
      LosesIndexed(ClearValue(node), node);
    }

    /** The parent's kids once `node` is replaced by its only kid. */
    ghost function KidsWithout(node: Node<V>): seq<Node?<V>>
      requires Wired() && node in nodes && node != head
    {
      assert Linked(node);
      ReplaceKid(nodes[nodes[node].parent].kids, node, nodes[node].kids[0])
    }

    /** Take `node`, which has at most one kid, out of the tree. */
    ghost function Unlink(node: Node<V>): Shape<V>
      requires Wired() && node in nodes && node != head
    {
      assert Linked(node);
      var parent := nodes[node].parent;
      var kid := nodes[node].kids[0];
      var lifted := if kid == null then nodes else nodes[kid := nodes[kid].(parent := parent)];
      this.(nodes := lifted[parent := lifted[parent].(kids := KidsWithout(node))] - {node},
            handles := if nodes[node].value.Some? then handles - {nodes[node].prefix} else handles)
    }

    lemma UnlinkRecs(node: Node<V>, n: Node<V>)
      requires Wired() && node in nodes && node != head && n in nodes && n != node
      ensures n in Unlink(node).nodes
      ensures Unlink(node).nodes[n] ==
              if n == nodes[node].parent then nodes[n].(kids := KidsWithout(node))
              else if n == nodes[node].kids[0] then nodes[n].(parent := nodes[node].parent)
              else nodes[n]
    {
      assert Linked(node);
    }

    lemma UnlinkAtParent(node: Node<V>)
      requires Wired() && node in nodes && node != head && nodes[node].kids[1] == null
      ensures Linked(node)
      ensures var p := nodes[node].parent; p in Unlink(node).nodes && Unlink(node).Formed(p) && Unlink(node).KidsOk(p)
    {
      assert Linked(node);
      var p, kid := nodes[node].parent, nodes[node].kids[0];
      assert Linked(p);
      var other := if nodes[p].kids[0] == node then nodes[p].kids[1] else nodes[p].kids[0];
      UnlinkRecs(node, p);
      if kid != null {
        UnlinkRecs(node, kid);
        assert nodes[kid].prefix[|nodes[p].prefix|] == nodes[node].prefix[|nodes[p].prefix|];
      }
      if other != null {
        UnlinkRecs(node, other);
      }
    }

    lemma UnlinkKids(node: Node<V>, n: Node<V>)
      requires Wired() && node in nodes && node != head && nodes[node].kids[1] == null
      requires n in nodes && n != node
      ensures n in Unlink(node).nodes && Unlink(node).Formed(n) && Unlink(node).KidsOk(n)
    {
      assert Linked(node) && Linked(n);
      UnlinkRecs(node, n);
      if n == nodes[node].parent {
        UnlinkAtParent(node);
      } else {
        if nodes[n].kids[0] != null { UnlinkRecs(node, nodes[n].kids[0]); }
        if nodes[n].kids[1] != null { UnlinkRecs(node, nodes[n].kids[1]); }
        KidsKept(Unlink(node), n);
      }
    }

    lemma UnlinkParent(node: Node<V>, n: Node<V>)
      requires Wired() && node in nodes && node != head && nodes[node].kids[1] == null
      requires n in nodes && n != node
      ensures n in Unlink(node).nodes && Unlink(node).ParentOk(n)
    {
      assert Linked(node) && Linked(n);
      UnlinkRecs(node, n);
      var p := nodes[node].parent;
      if n == nodes[node].kids[0] {
        UnlinkRecs(node, p);
        assert Linked(p);
      } else if n != head {
        UnlinkRecs(node, nodes[n].parent);
      }
    }

    lemma UnlinkWired(node: Node<V>)
      requires Wired() && node in nodes && node != head && nodes[node].kids[1] == null
      ensures Unlink(node).Wired() && Unlink(node).nodes.Keys == nodes.Keys - {node}
      ensures Unlink(node).maxBits == maxBits && Unlink(node).head == head
    {
      assert Linked(node);
      var s := Unlink(node);
      forall n | n in s.nodes
        ensures s.Formed(n) && s.Linked(n)
      {
        UnlinkKids(node, n);
        UnlinkParent(node, n);
      }
      assert Linked(head);
      if nodes[node].kids[0] != null { assert Linked(nodes[node].kids[0]); }
    }

    lemma UnlinkValid(node: Node<V>)
      requires ValidBut(node) && node in nodes && node != head && nodes[node].kids[1] == null
      ensures Linked(node) && Unlink(node).ValidBut(nodes[node].parent)
      ensures Unlink(node).Contents() ==
              if nodes[node].value.Some? then Contents() - {nodes[node].prefix} else Contents()
    {
      assert Linked(node);
      UnlinkWired(node);
      forall n | n in nodes && n != node
        ensures n in Unlink(node).nodes && Unlink(node).nodes[n].prefix == nodes[n].prefix
        ensures Unlink(node).nodes[n].value == nodes[n].value
        ensures n != nodes[node].parent ==> Unlink(node).nodes[n].kids == nodes[n].kids
      {
        UnlinkRecs(node, n);
      }
      LosesIndexed(Unlink(node), node);
    }

    /** Once `node` is gone its parent may have to go too; if `node` itself was such a parent, nothing more follows. */
    ghost predicate GoesToo(parent: Node<V>)
      requires Wired() && parent in nodes
    {
      nodes[parent].kids[1] == null && nodes[parent].value == None && nodes[parent].parent != null
    }

    lemma UnlinkCascade(node: Node<V>)
      requires ValidBut(node) && node in nodes && node != head && nodes[node].kids[1] == null
      ensures Linked(node) && Unlink(node).Wired() && nodes[node].parent in Unlink(node).nodes
      ensures var s, p := Unlink(node), nodes[node].parent;
              && s.nodes.Keys == nodes.Keys - {node} && s.Formed(p) && p != node
              && s.handles == (if nodes[node].value.Some? then handles - {nodes[node].prefix} else handles)
              && (s.GoesToo(p) ==> p != head && s.nodes[p].kids[0] != null && s.nodes[p].prefix != [])
              && (!s.GoesToo(p) ==> s.Valid())
              && (nodes[node].kids[0] != null ==> !s.GoesToo(p))
    {
      UnlinkValid(node);
      UnlinkWired(node);
      var p := nodes[node].parent;
      UnlinkRecs(node, p);
      assert Linked(p) && Unlink(node).Linked(p);
    }

    // ---------- size ----------

    ghost function KidsOf(some: set<Node<V>>): set<Node<V>> {
      set k | k in nodes && nodes[k].parent != null && nodes[k].parent in some
    }

    lemma {:induction false} TwoKidsEach(some: set<Node<V>>)
      requires Wired() && some <= nodes.Keys && forall n :: n in some ==> nodes[n].kids[1] != null
      ensures |KidsOf(some)| == 2 * |some|
    {
      if some == {} {
        assert KidsOf(some) == {};
      } else {
        var n :| n in some;
        TwoKidsEach(some - {n});
        assert Linked(n);
        var pair: set<Node<V>> := {nodes[n].kids[0], nodes[n].kids[1]};
        assert KidsOf(some) == KidsOf(some - {n}) + pair by {
          forall k | k in KidsOf(some)
            ensures k in KidsOf(some - {n}) + pair
          {
            assert Linked(k);
          }
        }
      }
    }

    /** Every node without a value has two kids of its own, so there are
        at most as many of those as there are stored prefixes. */
    lemma NodesBound()
      requires Valid()
      ensures |nodes| - 1 <= 2 * |handles|
    {
      var rest := nodes.Keys - {head};
      var bare := set n | n in rest && nodes[n].value == None;
      TwoKidsEach(bare);
      forall k | k in KidsOf(bare)
        ensures k in rest
      {
        assert Linked(k);
      }
      SetSizes.SubsetSize(KidsOf(bare), rest);
      SetSizes.InjectiveSize(handles);
      forall n | n in rest - bare
        ensures n in handles.Values
      {
        assert handles[nodes[n].prefix] == n;
      }
      SetSizes.SubsetSize(rest - bare, handles.Values);
    }
  }
}
