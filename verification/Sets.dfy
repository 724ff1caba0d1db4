/** Cardinalities of finite sets. */
module Sets {
  lemma CardWithout<T>(a: set<T>, d: T)
    ensures |a - {d}| == |a| - (if d in a then 1 else 0)
  {
    if d in a { assert a == (a - {d}) + {d}; } else { assert a - {d} == a; }
  }

  lemma CardSubset<T>(a: set<T>, b: set<T>)
    requires a <= b
    ensures |a| <= |b|
  {
    assert b == a + (b - a);
  }
}
