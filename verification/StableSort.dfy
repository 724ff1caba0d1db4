/** Merging and sorting sequences under a total preorder; what "stable" determines. */
module StableSort {

  type Le<!T> = (T, T) -> bool

  /** le is a total preorder on the elements of u. */
  ghost predicate TotalPreorder<T>(le: Le<T>, u: seq<T>) {
    && (forall x, y :: x in u && y in u ==> le(x, y) || le(y, x))
    && (forall x, y, z :: x in u && y in u && z in u && le(x, y) && le(y, z) ==> le(x, z))
  }

  ghost predicate Within<T>(s: seq<T>, u: seq<T>) {
    forall x :: x in s ==> x in u
  }

  ghost predicate Sorted<T>(le: Le<T>, s: seq<T>) {
    forall i, j :: 0 <= i < j < |s| ==> le(s[i], s[j])
  }

  /** Ties go to the first list. */
  function Merge<T>(le: Le<T>, a: seq<T>, b: seq<T>): (r: seq<T>)
    ensures |r| == |a| + |b|
    decreases |a| + |b|
  {
    if a == [] then b
    else if b == [] then a
    else if le(a[0], b[0]) then [a[0]] + Merge(le, a[1..], b)
    else [b[0]] + Merge(le, a, b[1..])
  }

  /** The reference: insert the elements one after the other. */
  function Sort<T>(le: Le<T>, s: seq<T>): seq<T> {
    if s == [] then [] else Merge(le, Sort(le, s[..|s| - 1]), [s[|s| - 1]])
  }

  /** The elements of s that le does not tell from e, in order. */
  ghost function Class<T>(le: Le<T>, e: T, s: seq<T>): seq<T> {
    if s == [] then []
    else if le(s[0], e) && le(e, s[0]) then [s[0]] + Class(le, e, s[1..])
    else Class(le, e, s[1..])
  }

  lemma {:induction false} MergeMembers<T>(le: Le<T>, a: seq<T>, b: seq<T>)
    ensures forall x :: x in Merge(le, a, b) <==> x in a || x in b
    decreases |a| + |b|
  {
    if a != [] && b != [] {
      if le(a[0], b[0]) {
        MergeMembers(le, a[1..], b);
        assert a == [a[0]] + a[1..];
      } else {
        MergeMembers(le, a, b[1..]);
        assert b == [b[0]] + b[1..];
      }
    }
  }

  lemma MergeUnfold<T>(le: Le<T>, a: seq<T>, b: seq<T>)
    ensures a == [] ==> Merge(le, a, b) == b
    ensures b == [] ==> Merge(le, a, b) == a
    ensures a != [] && b != [] ==>
              Merge(le, a, b) == if le(a[0], b[0]) then [a[0]] + Merge(le, a[1..], b) else [b[0]] + Merge(le, a, b[1..])
  {
  }

  lemma ConsMultiset<T>(x: T, s: seq<T>)
    ensures multiset([x] + s) == multiset{x} + multiset(s)
  {
  }

  lemma HeadTail<T>(s: seq<T>)
    requires s != []
    ensures [s[0]] + s[1..] == s
  {
  }

  lemma {:induction false} MergeMultiset<T>(le: Le<T>, a: seq<T>, b: seq<T>)
    ensures multiset(Merge(le, a, b)) == multiset(a) + multiset(b)
    decreases |a| + |b|
  {
    hide Merge;
    MergeUnfold(le, a, b);
    if a == [] {
      assert multiset(a) == multiset{};
    } else if b == [] {
      assert multiset(b) == multiset{};
    } else if le(a[0], b[0]) {
      MergeMultiset(le, a[1..], b);
      ConsMultiset(a[0], Merge(le, a[1..], b));
      ConsMultiset(a[0], a[1..]);
      HeadTail(a);
    } else {
      MergeMultiset(le, a, b[1..]);
      ConsMultiset(b[0], Merge(le, a, b[1..]));
      ConsMultiset(b[0], b[1..]);
      HeadTail(b);
    }
  }

  lemma PrependSorted<T>(le: Le<T>, x: T, s: seq<T>)
    requires Sorted(le, s) && forall y :: y in s ==> le(x, y)
    ensures Sorted(le, [x] + s)
  {
  }

  lemma HeadLeast<T>(le: Le<T>, u: seq<T>, s: seq<T>)
    requires TotalPreorder(le, u) && Within(s, u) && Sorted(le, s) && s != []
    ensures forall y :: y in s ==> le(s[0], y)
  {
    assert s[0] in u;
  }

  lemma {:induction false} MergeSorted<T>(le: Le<T>, u: seq<T>, a: seq<T>, b: seq<T>)
    requires TotalPreorder(le, u) && Within(a, u) && Within(b, u) && Sorted(le, a) && Sorted(le, b)
    ensures Sorted(le, Merge(le, a, b)) && Within(Merge(le, a, b), u)
    decreases |a| + |b|
  {
    MergeMembers(le, a, b);
    if a != [] && b != [] {
      HeadLeast(le, u, a);
      HeadLeast(le, u, b);
      assert a[0] in u && b[0] in u;
      if le(a[0], b[0]) {
        MergeSorted(le, u, a[1..], b);
        MergeMembers(le, a[1..], b);
        forall y | y in Merge(le, a[1..], b) ensures le(a[0], y) {
          if y in b { assert le(b[0], y); }
        }
        PrependSorted(le, a[0], Merge(le, a[1..], b));
      } else {
        MergeSorted(le, u, a, b[1..]);
        MergeMembers(le, a, b[1..]);
        forall y | y in Merge(le, a, b[1..]) ensures le(b[0], y) {
          if y in a { assert le(a[0], y); }
        }
        PrependSorted(le, b[0], Merge(le, a, b[1..]));
      }
    }
  }

  lemma {:induction false} ClassConcat<T>(le: Le<T>, e: T, a: seq<T>, b: seq<T>)
    ensures Class(le, e, a + b) == Class(le, e, a) + Class(le, e, b)
    decreases |a|
  {
    if a == [] {
      assert a + b == b;
    } else {
      assert (a + b)[1..] == a[1..] + b;
      ClassConcat(le, e, a[1..], b);
    }
  }

  lemma {:induction false} ClassEmpty<T>(le: Le<T>, e: T, s: seq<T>)
    requires forall y :: y in s ==> !(le(y, e) && le(e, y))
    ensures Class(le, e, s) == []
    decreases |s|
  {
    if s != [] {
      ClassEmpty(le, e, s[1..]);
    }
  }

  /** A sorted list that starts above x has no member of x's class. */
  lemma LargerClass<T>(le: Le<T>, u: seq<T>, e: T, a: seq<T>, x: T)
    requires TotalPreorder(le, u) && e in u && x in u && Within(a, u) && Sorted(le, a) && a != []
    requires !le(a[0], x) && le(x, e) && le(e, x)
    ensures Class(le, e, a) == []
  {
    HeadLeast(le, u, a);
    assert a[0] in u;
    forall y | y in a ensures !(le(y, e) && le(e, y)) {
      assert y in u;
    }
    ClassEmpty(le, e, a);
  }

  lemma ClassCons<T>(le: Le<T>, e: T, x: T, s: seq<T>)
    ensures Class(le, e, [x] + s) == (if le(x, e) && le(e, x) then [x] else []) + Class(le, e, s)
  {
    assert ([x] + s)[1..] == s;
    assert [] + Class(le, e, s) == Class(le, e, s);
  }

  lemma SortedTail<T>(le: Le<T>, u: seq<T>, s: seq<T>)
    requires Sorted(le, s) && Within(s, u) && s != []
    ensures Sorted(le, s[1..]) && Within(s[1..], u)
  {
  }

  /** A merge keeps every class in order, the first list's elements first. */
  lemma {:induction false} MergeStable<T>(le: Le<T>, u: seq<T>, e: T, a: seq<T>, b: seq<T>)
    requires TotalPreorder(le, u) && e in u && Within(a, u) && Within(b, u) && Sorted(le, a) && Sorted(le, b)
    ensures Class(le, e, Merge(le, a, b)) == Class(le, e, a) + Class(le, e, b)
    decreases |a| + |b|
  {
    MergeUnfold(le, a, b);
    hide Class, Merge;
    if a == [] || b == [] {
      ClassEmpty(le, e, []);
    } else if le(a[0], b[0]) {
      SortedTail(le, u, a);
      hide Sorted, TotalPreorder, Within;
      MergeStable(le, u, e, a[1..], b);
      hide *;
      ClassCons(le, e, a[0], Merge(le, a[1..], b));
      ClassCons(le, e, a[0], a[1..]);
      HeadTail(a);
    } else {
      SortedTail(le, u, b);
      assert b[0] in u;
      hide Sorted, TotalPreorder, Within;
      MergeStable(le, u, e, a, b[1..]);
      if le(b[0], e) && le(e, b[0]) {
        LargerClass(le, u, e, a, b[0]);
      }
      hide *;
      ClassCons(le, e, b[0], Merge(le, a, b[1..]));
      ClassCons(le, e, b[0], b[1..]);
      HeadTail(b);
    }
  }

  lemma {:induction false} SortFacts<T>(le: Le<T>, u: seq<T>, s: seq<T>)
    requires TotalPreorder(le, u) && Within(s, u)
    ensures Sorted(le, Sort(le, s)) && Within(Sort(le, s), u) && |Sort(le, s)| == |s|
    ensures multiset(Sort(le, s)) == multiset(s)
    decreases |s|
  {
    if s != [] {
      var t, x := s[..|s| - 1], s[|s| - 1];
      SortFacts(le, u, t);
      MergeSorted(le, u, Sort(le, t), [x]);
      MergeMultiset(le, Sort(le, t), [x]);
      assert s == t + [x];
    }
  }

  lemma {:induction false} SortStable<T>(le: Le<T>, u: seq<T>, s: seq<T>, e: T)
    requires TotalPreorder(le, u) && Within(s, u) && e in u
    ensures Class(le, e, Sort(le, s)) == Class(le, e, s)
    decreases |s|
  {
    if s != [] {
      var t, x := s[..|s| - 1], s[|s| - 1];
      SortFacts(le, u, t);
      SortStable(le, u, t, e);
      MergeStable(le, u, e, Sort(le, t), [x]);
      ClassConcat(le, e, t, [x]);
      assert s == t + [x];
    }
  }

  lemma {:induction false} ClassMember<T>(le: Le<T>, e: T, s: seq<T>, y: T)
    ensures y in Class(le, e, s) ==> y in s && le(y, e) && le(e, y)
    ensures y in s && le(y, e) && le(e, y) ==> y in Class(le, e, s)
    decreases |s|
  {
    if s != [] {
      ClassMember(le, e, s[1..], y);
      assert s == [s[0]] + s[1..];
    }
  }

  lemma ClassOfSelf<T>(le: Le<T>, u: seq<T>, t: seq<T>)
    requires TotalPreorder(le, u) && Within(t, u)
    ensures t == [] || exists e :: e in u && Class(le, e, t) != []
  {
    if t != [] {
      assert t[0] in u;
      ClassMember(le, t[0], t, t[0]);
    }
  }

  /** Sortedness and the order inside each class determine the sequence. */
  lemma {:induction false} SortedUnique<T>(le: Le<T>, u: seq<T>, s: seq<T>, t: seq<T>)
    requires TotalPreorder(le, u) && Within(s, u) && Within(t, u) && Sorted(le, s) && Sorted(le, t)
    requires forall e :: e in u ==> Class(le, e, s) == Class(le, e, t)
    ensures s == t
    decreases |s|
  {
    if s == [] {
      ClassOfSelf(le, u, t);
    } else {
      assert s[0] in u;
      ClassMember(le, s[0], s, s[0]);
      ClassMember(le, s[0], t, s[0]);
      assert s[0] in t && t != [];
      assert t[0] in u;
      ClassMember(le, t[0], t, t[0]);
      ClassMember(le, t[0], s, t[0]);
      HeadLeast(le, u, s);
      HeadLeast(le, u, t);
      assert Class(le, s[0], s)[0] == s[0] && Class(le, s[0], t)[0] == t[0];
      assert s[0] == t[0];
      forall e | e in u ensures Class(le, e, s[1..]) == Class(le, e, t[1..]) {
        assert Class(le, e, s) == Class(le, e, t);
        if le(s[0], e) && le(e, s[0]) {
          assert Class(le, e, s)[1..] == Class(le, e, s[1..]);
          assert Class(le, e, t)[1..] == Class(le, e, t[1..]);
        }
      }
      SortedUnique(le, u, s[1..], t[1..]);
    }
  }

  /** Sorting is the only stable sort. */
  lemma OnlyStableSort<T>(le: Le<T>, s: seq<T>, t: seq<T>)
    requires TotalPreorder(le, s) && Within(t, s) && Sorted(le, t)
    requires forall e :: e in s ==> Class(le, e, t) == Class(le, e, s)
    ensures t == Sort(le, s)
  {
    SortFacts(le, s, s);
    forall e | e in s ensures Class(le, e, t) == Class(le, e, Sort(le, s)) {
      SortStable(le, s, s, e);
    }
    SortedUnique(le, s, t, Sort(le, s));
  }

  /** Merging two sorted blocks sorts their concatenation. */
  lemma MergeOfSorts<T>(le: Le<T>, u: seq<T>, x: seq<T>, y: seq<T>)
    requires TotalPreorder(le, u) && Within(x, u) && Within(y, u)
    ensures Merge(le, Sort(le, x), Sort(le, y)) == Sort(le, x + y)
  {
    SortFacts(le, u, x);
    SortFacts(le, u, y);
    SortFacts(le, u, x + y);
    var m := Merge(le, Sort(le, x), Sort(le, y));
    MergeSorted(le, u, Sort(le, x), Sort(le, y));
    forall e | e in u ensures Class(le, e, m) == Class(le, e, Sort(le, x + y)) {
      MergeStable(le, u, e, Sort(le, x), Sort(le, y));
      SortStable(le, u, x, e);
      SortStable(le, u, y, e);
      SortStable(le, u, x + y, e);
      ClassConcat(le, e, x, y);
    }
    SortedUnique(le, u, m, Sort(le, x + y));
  }
}
