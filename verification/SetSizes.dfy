/** Counting finite sets. */
module SetSizes {

  lemma SubsetSize<T>(a: set<T>, b: set<T>)
    requires a <= b
    ensures |a| <= |b|
  {
    assert b == a + (b - a);
  }

  ghost predicate Injective<A, B>(m: map<A, B>) {
    forall a, b :: a in m && b in m && m[a] == m[b] ==> a == b
  }

  /** An injective map has as many values as keys. */
  lemma {:induction false} InjectiveSize<A, B>(m: map<A, B>)
    requires Injective(m)
    ensures |m.Values| == |m.Keys| == |m|
    decreases |m|
  {
    if m.Keys != {} {
      var a :| a in m;
      var rest := m - {a};
      assert m.Keys == rest.Keys + {a};
      assert m.Values == rest.Values + {m[a]} by {
        forall v | v in m.Values
          ensures v in rest.Values + {m[a]}
        {
          var k :| k in m && m[k] == v;
          if k != a { assert rest[k] == v; }
        }
        forall k | k in rest
          ensures rest[k] in m.Values
        {
          assert m[k] == rest[k];
        }
      }
      InjectiveSize(rest);
    } else {
      assert m.Values == {};
    }
  }

  /** {0, ..., n-1} */
  ghost function Below(n: nat): (s: set<nat>)
    ensures forall i: nat :: i in s <==> i < n
  {
    if n == 0 then {} else Below(n - 1) + {n - 1}
  }

  lemma BelowSize(n: nat)
    ensures |Below(n)| == n
  {
    IntervalSize(Below(n), 0, n);
  }

  /** An injective map of {0, ..., n-1} into itself hits every element. */
  lemma InjectiveIsOnto(m: map<nat, nat>, n: nat, v: nat)
    requires m.Keys == Below(n) && Injective(m) && v < n
    requires forall k :: k in m ==> m[k] < n
    ensures exists k :: k in m && m[k] == v
  {
    InjectiveSize(m);
    BelowSize(n);
    assert m.Values <= Below(n);
    if v !in m.Values {
      assert m.Values <= Below(n) - {v};
      SubsetSize(m.Values, Below(n) - {v});
      assert false;
    }
  }

  /** {from, ..., from+n-1} has n elements. */
  lemma {:induction false} IntervalSize(s: set<nat>, from: nat, n: nat)
    requires forall i: nat :: i in s <==> from <= i < from + n
    ensures |s| == n
    decreases n
  {
    if n == 0 {
      assert s == {};
    } else {
      IntervalSize(s - {from + n - 1}, from, n - 1);
    }
  }
}
