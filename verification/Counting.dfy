/** Counting the entries of a finite map that satisfy a test, and how updates change the count. */
module Counting {

  ghost function Matching<K, V>(m: map<K, V>, p: V -> bool): set<K> {
    set k | k in m && p(m[k])
  }

  ghost function Count<K, V>(m: map<K, V>, p: V -> bool): nat {
    |Matching(m, p)|
  }

  lemma CountRemove<K, V>(m: map<K, V>, k: K, p: V -> bool)
    ensures Count(m - {k}, p) == Count(m, p) - (if k in m && p(m[k]) then 1 else 0)
  {
    var a, b := Matching(m, p), Matching(m - {k}, p);
    assert b == a - {k};
    assert k !in a ==> a - {k} == a;
  }

  lemma CountAdd<K, V>(m: map<K, V>, k: K, v: V, p: V -> bool)
    requires k !in m
    ensures Count(m[k := v], p) == Count(m, p) + if p(v) then 1 else 0
  {
    var a, b := Matching(m, p), Matching(m[k := v], p);
    assert k !in a;
    if p(v) {
      assert b == a + {k};
    } else {
      assert b == a;
    }
  }

  lemma CountUpdate<K, V>(m: map<K, V>, k: K, v: V, p: V -> bool)
    ensures Count(m[k := v], p) ==
            Count(m, p) - (if k in m && p(m[k]) then 1 else 0) + (if p(v) then 1 else 0)
  {
    hide Count;
    CountRemove(m, k, p);
    CountAdd(m - {k}, k, v, p);
    assert m[k := v] == (m - {k})[k := v];
  }

  lemma CountPositive<K, V>(m: map<K, V>, k: K, p: V -> bool)
    requires k in m && p(m[k])
    ensures Count(m, p) > 0
  {
    assert k in Matching(m, p);
  }

  lemma CountWitness<K, V>(m: map<K, V>, p: V -> bool) returns (k: K)
    requires Count(m, p) > 0
    ensures k in m && p(m[k])
  {
    assert Matching(m, p) != {};
    k :| k in Matching(m, p);
  }

  lemma CountNone<K, V>(m: map<K, V>, p: V -> bool)
    requires forall k :: k in m ==> !p(m[k])
    ensures Count(m, p) == 0
  {
  }

  /** Two entries that pass the test are one entry if only one passes. */
  lemma CountOne<K, V>(m: map<K, V>, p: V -> bool, k: K, l: K)
    requires Count(m, p) <= 1 && k in m && p(m[k]) && l in m && p(m[l])
    ensures k == l
  {
    if k != l {
      assert {k, l} <= Matching(m, p);
      assert |{k, l}| == 2;
      SubsetSize({k, l}, Matching(m, p));
    }
  }

  lemma {:induction false} SubsetSize<X>(a: set<X>, b: set<X>)
    requires a <= b
    ensures |a| <= |b|
    decreases |a|
  {
    if a != {} {
      var x :| x in a;
      SubsetSize(a - {x}, b - {x});
    }
  }

  lemma OnlyMember<X>(s: set<X>, x: X)
    requires |s| == 1 && x in s
    ensures s == {x}
  {
    assert |s - {x}| == 0;
    assert s == (s - {x}) + {x};
  }
}
