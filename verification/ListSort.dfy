/** The bottom-up list sort on a circular doubly linked list. */
module ListSort {
  import opened StableSort

  const MAX_LIST_LENGTH_BITS: nat := 20

  class Node {
    var next: Node?
    var prev: Node?

    constructor ()
      ensures next == null && prev == null
    {
      next, prev := null, null;
    }
  }

  type Cmp = (Node, Node) -> int

  function Leq(cmp: Cmp): Le<Node> {
    (a: Node, b: Node) => cmp(a, b) <= 0
  }

  ghost predicate NoDup(s: seq<Node>) {
    forall i, j :: 0 <= i < j < |s| ==> s[i] != s[j]
  }

  function Following(s: seq<Node>, i: int): Node? {
    if 0 <= i && i + 1 < |s| then s[i + 1] else null
  }

  ghost function Nodes(s: seq<Node>): set<Node> {
    set x | x in s
  }

  /** p starts a null-terminated chain through s. */
  ghost predicate Chain(p: Node?, s: seq<Node>)
    reads Nodes(s)
  {
    && p == (if s == [] then null else s[0])
    && forall i :: 0 <= i < |s| ==> s[i].next == Following(s, i)
  }

  /** The circular list through head and s: next and prev are inverse all the way round. */
  ghost predicate Ring(head: Node, s: seq<Node>)
    reads head, s
  {
    var r := [head] + s;
    && NoDup(r)
    && (forall i :: 0 <= i < |s| ==> r[i].next == s[i] && s[i].prev == r[i])
    && r[|s|].next == head && head.prev == r[|s|]
  }

  ghost predicate Apart(a: seq<Node>, b: seq<Node>) {
    forall x :: x in a ==> x !in b
  }

  /** Three lists without a common node, the first behind a sentinel. */
  ghost predicate Parts(head: Node, done: seq<Node>, ra: seq<Node>, rb: seq<Node>) {
    && NoDup([head] + done) && NoDup(ra) && NoDup(rb)
    && Apart([head] + done, ra) && Apart([head] + done, rb) && Apart(ra, rb)
  }

  /** The sentinel and the nodes behind it are linked up to the last one. */
  ghost predicate Linked(head: Node, done: seq<Node>)
    reads head, done
  {
    forall i :: 0 <= i < |done| ==> ([head] + done)[i].next == done[i]
  }

  function Last(head: Node, done: seq<Node>): Node {
    ([head] + done)[|done|]
  }

  lemma MoveHead(head: Node, done: seq<Node>, ra: seq<Node>, rb: seq<Node>)
    requires Parts(head, done, ra, rb) && ra != []
    ensures Parts(head, done + [ra[0]], ra[1..], rb)
    ensures Last(head, done + [ra[0]]) == ra[0]
    ensures forall i :: 0 <= i < |ra| ==> ra[i] != Last(head, done)
    ensures forall i :: 0 <= i < |rb| ==> rb[i] != Last(head, done)
    ensures forall i :: 0 <= i < |done| ==> ([head] + done)[i] != Last(head, done)
  {
    var r := [head] + done;
    assert [head] + (done + [ra[0]]) == r + [ra[0]];
    assert r[|done|] in r;
    forall i | 0 <= i < |r| ensures r[i] != ra[0] { assert r[i] in r; }
    assert forall x :: x in r + [ra[0]] ==> x in r || x == ra[0];
  }

  lemma PartsSwap(head: Node, done: seq<Node>, ra: seq<Node>, rb: seq<Node>)
    requires Parts(head, done, ra, rb)
    ensures Parts(head, done, rb, ra)
  {
  }

  lemma MergeStep(le: Le<Node>, done: seq<Node>, ra: seq<Node>, rb: seq<Node>)
    requires ra != [] && rb != []
    ensures le(ra[0], rb[0]) ==> done + Merge(le, ra, rb) == done + [ra[0]] + Merge(le, ra[1..], rb)
    ensures !le(ra[0], rb[0]) ==> done + Merge(le, ra, rb) == done + [rb[0]] + Merge(le, ra, rb[1..])
  {
  }

  lemma ChainTail(p: Node?, s: seq<Node>)
    requires Chain(p, s) && s != []
    ensures Chain(s[0].next, s[1..])
  {
  }

  /** Append the head of chain ra behind tail. */
  method TakeHead(head: Node, tail: Node, a: Node, b: Node?, ghost done: seq<Node>, ghost ra: seq<Node>,
                  ghost rb: seq<Node>)
    returns (a': Node?, tail': Node)
    requires Parts(head, done, ra, rb) && Linked(head, done) && tail == Last(head, done)
    requires ra != [] && Chain(a, ra) && Chain(b, rb)
    modifies tail`next
    ensures Parts(head, done + [ra[0]], ra[1..], rb) && Linked(head, done + [ra[0]]) &&
              tail' == Last(head, done + [ra[0]])
    ensures Chain(a', ra[1..]) && tail' == a
    ensures Chain(b, rb)
  {
    MoveHead(head, done, ra, rb);
    hide Parts;
    ChainTail(a, ra);
    tail.next := a;
    a' := a.next;
    tail' := tail.next;
    assert [head] + (done + [ra[0]]) == ([head] + done) + [ra[0]];
  }

  /** Merge two chains; prev links are not kept up. */
  method MergeChains(cmp: Cmp, a0: Node?, b0: Node?, ghost sa: seq<Node>, ghost sb: seq<Node>) returns (r: Node?)
    requires Chain(a0, sa) && Chain(b0, sb) && NoDup(sa) && NoDup(sb) && Apart(sa, sb)
    modifies (set x | x in sa)`next, (set x | x in sb)`next
    ensures Chain(r, Merge(Leq(cmp), sa, sb))
  {
    var head := new Node();
    var a, b, tail := a0, b0, head;
    ghost var ra, rb, done := sa, sb, [];
    while a != null && b != null
      invariant Chain(a, ra) && Chain(b, rb) && Parts(head, done, ra, rb)
      invariant Linked(head, done) && tail == Last(head, done)
      invariant done + Merge(Leq(cmp), ra, rb) == Merge(Leq(cmp), sa, sb)
      invariant tail == head || tail in sa || tail in sb
      invariant Within(ra, sa) && Within(rb, sb)
      decreases |ra| + |rb|
    {
      hide Parts, Linked, Last, Merge;
      MergeStep(Leq(cmp), done, ra, rb);
      if cmp(a, b) <= 0 {
        a, tail := TakeHead(head, tail, a, b, done, ra, rb);
        done, ra := done + [ra[0]], ra[1..];
      } else {
        PartsSwap(head, done, ra, rb);
        b, tail := TakeHead(head, tail, b, a, done, rb, ra);
        done, rb := done + [rb[0]], rb[1..];
        PartsSwap(head, done, rb, ra);
      }
    }
    if a != null {
      Finish(head, tail, a, done, ra);
    } else {
      Finish(head, tail, b, done, rb);
    }
    r := head.next;
  }

  lemma LastOnly(head: Node, done: seq<Node>, rest: seq<Node>)
    requires NoDup([head] + done) && Apart([head] + done, rest)
    ensures forall i :: 0 <= i < |done| ==> ([head] + done)[i] != Last(head, done)
    ensures forall i :: 0 <= i < |rest| ==> rest[i] != Last(head, done)
  {
    assert ([head] + done)[|done|] in [head] + done;
  }

  /** Hang the rest of one chain behind the merged part. */
  method Finish(head: Node, tail: Node, p: Node?, ghost done: seq<Node>, ghost rest: seq<Node>)
    requires NoDup([head] + done) && Apart([head] + done, rest) && Linked(head, done) && tail == Last(head, done)
    requires Chain(p, rest)
    modifies tail`next
    ensures Chain(head.next, done + rest)
    ensures old(BackLinked(head, done, |done|)) ==> BackLinked(head, done + rest, |done|)
  {
    LastOnly(head, done, rest);
    tail.next := p;
    var r := [head] + done;
    assert forall i :: 0 <= i < |done| ==> r[i].next == done[i];
    assert r[|done|].next == p;
    ghost var s := done + rest;
    assert forall i :: 0 <= i < |done| ==> ([head] + s)[i] == r[i];
    forall i | 0 <= i < |s|
      ensures s[i].next == Following(s, i)
    {
      if i < |done| {
        assert s[i] == r[i + 1];
      } else {
        assert s[i] == rest[i - |done|];
      }
    }
  }

  // ---------------------------------------------------------------- the last merge

  /** The first k nodes point back to their predecessors. */
  ghost predicate BackLinked(head: Node, s: seq<Node>, k: int)
    reads s
  {
    forall i :: 0 <= i < k && i < |s| ==> s[i].prev == ([head] + s)[i]
  }

  lemma NotDone(head: Node, done: seq<Node>, ra: seq<Node>)
    requires Apart([head] + done, ra) && ra != []
    ensures forall i :: 0 <= i < |done| ==> done[i] != ra[0]
  {
    forall i | 0 <= i < |done| ensures done[i] != ra[0] {
      assert ([head] + done)[i + 1] in [head] + done;
    }
  }

  /** Append the head of chain ra behind tail, with its prev link. */
  method TakeHeadBack(head: Node, tail: Node, a: Node, b: Node?, ghost done: seq<Node>, ghost ra: seq<Node>,
                      ghost rb: seq<Node>)
    returns (a': Node?, tail': Node)
    requires Parts(head, done, ra, rb) && Linked(head, done) && BackLinked(head, done, |done|) &&
             tail == Last(head, done)
    requires ra != [] && Chain(a, ra) && Chain(b, rb)
    modifies tail`next, a`prev
    ensures Parts(head, done + [ra[0]], ra[1..], rb) && Linked(head, done + [ra[0]]) &&
              tail' == Last(head, done + [ra[0]])
    ensures BackLinked(head, done + [ra[0]], |done| + 1)
    ensures Chain(a', ra[1..]) && tail' == a
    ensures Chain(b, rb)
  {
    NotDone(head, done, ra);
    assert tail == ([head] + done)[|done|];
    a', tail' := TakeHead(head, tail, a, b, done, ra, rb);
    hide Parts, Last;
    a.prev := tail;
    assert [head] + (done + [ra[0]]) == ([head] + done) + [ra[0]];
  }

  /** The conditional-branch hint of the code base is a negation; either reading of it is covered. */
  predicate Unlikely(negated: bool, x: bool) {
    x != negated
  }

  lemma ElsewhereThan(head: Node, s: seq<Node>, k: nat)
    requires NoDup([head] + s) && k < |s|
    ensures head != s[k] && forall i :: 0 <= i < k ==> s[i] != s[k]
  {
    var r := [head] + s;
    assert r[0] == head && r[k + 1] == s[k];
    assert forall i :: 0 <= i < k ==> s[i] == r[i + 1];
  }

  method RestorePrev(head: Node, tail: Node, ghost s: seq<Node>, ghost k: nat, ghost n: Node) returns (tail': Node)
    requires NoDup([head] + s) && k < |s| && tail == ([head] + s)[k] && n == s[k]
    requires Chain(head.next, s) && BackLinked(head, s, k)
    modifies n`prev
    ensures Chain(head.next, s) && BackLinked(head, s, k + 1) && tail' == s[k]
  {
    ElsewhereThan(head, s, k);
    NextOf(head, s, k);
    hide NoDup;
    tail.next.prev := tail;
    tail' := tail.next;
  }

  method CloseRing(head: Node, tail: Node, ghost s: seq<Node>)
    requires NoDup([head] + s) && s != [] && tail == s[|s| - 1]
    requires Chain(head.next, s) && BackLinked(head, s, |s|)
    modifies tail`next, head`prev
    ensures Ring(head, s)
  {
    ghost var r := [head] + s;
    assert forall i :: 0 <= i < |s| ==> s[i] == r[i + 1];
    assert forall i :: 0 <= i < |s| ==> r[i].next == s[i];
    tail.next := head;
    head.prev := tail;
  }

  /** From the k-th node on, restore the prev links and close the circle. */
  method RestoreBackLinks(cmp: Cmp, negated: bool, head: Node, tail0: Node, ghost s: seq<Node>, ghost k0: nat)
    requires NoDup([head] + s) && k0 < |s| && tail0 == ([head] + s)[k0]
    requires Chain(head.next, s) && BackLinked(head, s, k0)
    modifies (set x | x in s), head
    ensures Ring(head, s)
  {
    hide Chain, BackLinked, NoDup;
    var tail := tail0;
    var count := 0;
    ghost var k := k0;
    while true
      invariant k < |s| && tail == ([head] + s)[k]
      invariant Chain(head.next, s) && BackLinked(head, s, k)
      decreases |s| - k
    {
      count := count + 1;
      NextOf(head, s, k);
      if Unlikely(negated, count == 0) {
        var _ := cmp(tail.next, tail.next);
      }
      tail := RestorePrev(head, tail, s, k, s[k]);
      AtEnd(head, s, k);
      k := k + 1;
      if tail.next == null {
        break;
      }
    }
    CloseRing(head, tail, s);
  }

  lemma AtEnd(head: Node, s: seq<Node>, k: nat)
    requires Chain(head.next, s) && k < |s|
    ensures s[k].next == null <==> k + 1 == |s|
    ensures ([head] + s)[k + 1] == s[k]
  {
  }

  lemma NextOf(head: Node, s: seq<Node>, k: nat)
    requires Chain(head.next, s) && k < |s|
    ensures ([head] + s)[k].next == s[k]
  {
    if k > 0 { assert ([head] + s)[k] == s[k - 1]; }
  }

  /** The final merge, which also restores the doubly linked circle. */
  method MergeAndRestoreBackLinks(cmp: Cmp, negated: bool, head: Node, a0: Node?, b0: Node?, ghost sa: seq<Node>,
                                  ghost sb: seq<Node>)
    requires Chain(a0, sa) && Chain(b0, sb) && sa != [] && Parts(head, [], sa, sb)
    modifies (set x | x in sa), (set x | x in sb), head
    ensures Ring(head, Merge(Leq(cmp), sa, sb))
  {
    var a, b, tail := a0, b0, head;
    ghost var ra, rb, done := sa, sb, [];
    while a != null && b != null
      invariant Chain(a, ra) && Chain(b, rb) && Parts(head, done, ra, rb)
      invariant Linked(head, done) && BackLinked(head, done, |done|) && tail == Last(head, done)
      invariant done + Merge(Leq(cmp), ra, rb) == Merge(Leq(cmp), sa, sb)
      invariant tail == head || tail in sa || tail in sb
      invariant Within(ra, sa) && Within(rb, sb) && (ra != [] || rb != [])
      invariant Within(done, sa + sb)
      decreases |ra| + |rb|
    {
      hide Parts, Linked, Last, Merge, BackLinked;
      MergeStep(Leq(cmp), done, ra, rb);
      if cmp(a, b) <= 0 {
        a, tail := TakeHeadBack(head, tail, a, b, done, ra, rb);
        done, ra := done + [ra[0]], ra[1..];
      } else {
        PartsSwap(head, done, ra, rb);
        b, tail := TakeHeadBack(head, tail, b, a, done, rb, ra);
        done, rb := done + [rb[0]], rb[1..];
        PartsSwap(head, done, rb, ra);
      }
    }
    ghost var rest := if a != null then ra else rb;
    ghost var all := done + rest;
    assert all == Merge(Leq(cmp), sa, sb);
    if a != null {
      Finish(head, tail, a, done, ra);
    } else {
      Finish(head, tail, b, done, rb);
    }
    JoinParts(head, done, rest);
    RestoreBackLinks(cmp, negated, head, tail, all, |done|);
  }

  lemma JoinParts(head: Node, done: seq<Node>, rest: seq<Node>)
    requires NoDup([head] + done) && NoDup(rest) && Apart([head] + done, rest)
    ensures NoDup([head] + (done + rest))
    ensures forall i :: 0 <= i <= |done| ==> ([head] + (done + rest))[i] == ([head] + done)[i]
  {
    var r := [head] + done;
    assert [head] + (done + rest) == r + rest;
    forall i, j | 0 <= i < |r| && 0 <= j < |rest| ensures r[i] != rest[j] { assert r[i] in r; }
  }

  // ---------------------------------------------------------------- the binary counter of partial lists

  const LEVELS: nat := MAX_LIST_LENGTH_BITS + 1   // the last one is a sentinel

  /** The blocks of the input behind levels below n, the highest level first. */
  ghost function Flat(bs: seq<seq<Node>>, n: nat): seq<Node>
    requires n <= |bs|
  {
    if n == 0 then [] else bs[n - 1] + Flat(bs, n - 1)
  }

  /** The part of Flat(bs, n) above level k. */
  ghost function High(bs: seq<seq<Node>>, k: nat, n: nat): seq<Node>
    requires k < n <= |bs|
  {
    if n == k + 1 then [] else bs[n - 1] + High(bs, k, n - 1)
  }

  lemma {:induction false} FlatAround(bs: seq<seq<Node>>, k: nat, x: seq<Node>, n: nat)
    requires k < n <= |bs| && forall j :: 0 <= j < k ==> bs[j] == []
    ensures Flat(bs, n) == High(bs, k, n) + bs[k]
    ensures Flat(bs[k := x], n) == High(bs, k, n) + x
    decreases n
  {
    if n == k + 1 {
      FlatNone(bs, k);
      FlatNone(bs[k := x], k);
      assert bs[k] + [] == [] + bs[k] && x + [] == [] + x;
    } else {
      FlatAround(bs, k, x, n - 1);
      var hi := High(bs, k, n - 1);
      assert bs[n - 1] + (hi + bs[k]) == (bs[n - 1] + hi) + bs[k];
      assert bs[n - 1] + (hi + x) == (bs[n - 1] + hi) + x;
    }
  }

  lemma {:induction false} FlatNone(bs: seq<seq<Node>>, n: nat)
    requires n <= |bs| && forall j :: 0 <= j < n ==> bs[j] == []
    ensures Flat(bs, n) == []
  {
    if n > 0 { FlatNone(bs, n - 1); }
  }

  lemma ConcatApart(a: seq<Node>, b: seq<Node>)
    requires NoDup(a + b)
    ensures NoDup(a) && NoDup(b) && Apart(a, b) && Apart(b, a)
  {
    var s := a + b;
    assert forall i :: 0 <= i < |a| ==> s[i] == a[i];
    assert forall i :: 0 <= i < |b| ==> s[|a| + i] == b[i];
  }

  lemma {:induction false} BlockWithin(bs: seq<seq<Node>>, n: nat, k: nat)
    requires k < n <= |bs|
    ensures Within(bs[k], Flat(bs, n))
  {
    if k < n - 1 { BlockWithin(bs, n - 1, k); }
  }

  lemma {:induction false} BlocksApart(bs: seq<seq<Node>>, n: nat, j: nat, k: nat)
    requires j <= k < n <= |bs| && NoDup(Flat(bs, n))
    ensures NoDup(bs[k]) && (j < k ==> Apart(bs[j], bs[k]) && Apart(bs[k], bs[j]))
  {
    ConcatApart(bs[n - 1], Flat(bs, n - 1));
    if k < n - 1 {
      BlocksApart(bs, n - 1, j, k);
    } else if j < k {
      BlockWithin(bs, n - 1, j);
    }
  }

  lemma NoDupCount(s: seq<Node>)
    ensures NoDup(s) <==> forall x :: multiset(s)[x] <= 1
  {
    if NoDup(s) {
      forall x ensures multiset(s)[x] <= 1 { AtMostOnce(s, x); }
    } else {
      var i, j :| 0 <= i < j < |s| && s[i] == s[j];
      assert s == s[..j] + s[j..];
      assert s[..j][i] == s[i] && s[j..][0] == s[i];
      assert s[i] in multiset(s[..j]) && s[i] in multiset(s[j..]);
      assert multiset(s)[s[i]] >= 2;
    }
  }

  lemma {:induction false} AtMostOnce(s: seq<Node>, x: Node)
    requires NoDup(s)
    ensures multiset(s)[x] <= 1
    decreases |s|
  {
    if s != [] {
      AtMostOnce(s[1..], x);
      assert s == [s[0]] + s[1..];
    }
  }

  /** The input is the blocks of the levels, then the block being carried, then the rest of the list; each level and
      the carried chain hold their block sorted. */
  ghost predicate Layout(le: Le<Node>, s: seq<Node>, parts: seq<seq<Node>>, blocks: seq<seq<Node>>,
                         curs: seq<Node>, curb: seq<Node>, rest: seq<Node>)
  {
    && |parts| == |blocks| == LEVELS
    && (forall k :: 0 <= k < LEVELS ==> parts[k] == Sort(le, blocks[k]))
    && curs == Sort(le, curb)
    && Flat(blocks, LEVELS) + curb + rest == s
  }

  /** All chains of a layout are without repetition and without a common node. */
  ghost predicate Scattered(s: seq<Node>, parts: seq<seq<Node>>, curs: seq<Node>, rest: seq<Node>) {
    && (forall k :: 0 <= k < |parts| ==>
        NoDup(parts[k]) && Within(parts[k], s) && Apart(parts[k], curs) && Apart(parts[k], rest))
    && (forall j, k :: 0 <= j < |parts| && 0 <= k < |parts| && j != k ==> Apart(parts[j], parts[k]))
    && NoDup(curs) && NoDup(rest) && Within(curs, s) && Within(rest, s) && Apart(curs, rest)
  }

  lemma SortPermutes(le: Le<Node>, s: seq<Node>, b: seq<Node>)
    requires TotalPreorder(le, s) && Within(b, s) && NoDup(b)
    ensures NoDup(Sort(le, b)) && |Sort(le, b)| == |b| && forall x :: x in Sort(le, b) <==> x in b
  {
    SortFacts(le, s, b);
    NoDupCount(b);
    NoDupCount(Sort(le, b));
    forall x ensures x in Sort(le, b) <==> x in b {
      assert x in b <==> x in multiset(b);
      assert x in Sort(le, b) <==> x in multiset(Sort(le, b));
    }
  }

  lemma LayoutParts(le: Le<Node>, s: seq<Node>, parts: seq<seq<Node>>, blocks: seq<seq<Node>>,
                    curs: seq<Node>, curb: seq<Node>, rest: seq<Node>)
    requires NoDup(s) && Layout(le, s, parts, blocks, curs, curb, rest)
    ensures var flat := Flat(blocks, LEVELS);
            NoDup(flat) && NoDup(curb) && NoDup(rest) && Apart(flat, curb) && Apart(flat, rest) && Apart(curb, rest)
            && Within(flat, s) && Within(curb, s) && Within(rest, s)
  {
    var flat := Flat(blocks, LEVELS);
    ConcatApart(flat + curb, rest);
    ConcatApart(flat, curb);
  }

  lemma LayoutScattered(le: Le<Node>, s: seq<Node>, parts: seq<seq<Node>>, blocks: seq<seq<Node>>,
                        curs: seq<Node>, curb: seq<Node>, rest: seq<Node>)
    requires NoDup(s) && TotalPreorder(le, s) && Layout(le, s, parts, blocks, curs, curb, rest)
    ensures Scattered(s, parts, curs, rest)
    ensures forall k :: 0 <= k < LEVELS ==> |parts[k]| == |blocks[k]|
    ensures |curs| == |curb|
  {
    LayoutParts(le, s, parts, blocks, curs, curb, rest);
    SortPermutes(le, s, curb);
    hide TotalPreorder, Flat, Sort, NoDup;
    forall k | 0 <= k < LEVELS
      ensures |parts[k]| == |blocks[k]| && forall x :: x in parts[k] <==> x in blocks[k]
      ensures NoDup(parts[k]) && Within(blocks[k], Flat(blocks, LEVELS))
    {
      BlockWithin(blocks, LEVELS, k);
      BlocksApart(blocks, LEVELS, k, k);
      SortPermutes(le, s, blocks[k]);
    }
    forall j, k | 0 <= j < LEVELS && 0 <= k < LEVELS && j != k ensures Apart(parts[j], parts[k]) {
      if j < k { BlocksApart(blocks, LEVELS, j, k); } else { BlocksApart(blocks, LEVELS, k, j); }
    }
  }

  /** Merging the partial list of level k into the carried one. */
  lemma LayoutCarry(le: Le<Node>, s: seq<Node>, parts: seq<seq<Node>>, blocks: seq<seq<Node>>,
                    curs: seq<Node>, curb: seq<Node>, rest: seq<Node>, k: nat)
    requires NoDup(s) && TotalPreorder(le, s) && Layout(le, s, parts, blocks, curs, curb, rest) && k < LEVELS
    requires forall j :: 0 <= j < k ==> blocks[j] == []
    ensures Layout(le, s, parts[k := []], blocks[k := []], Merge(le, parts[k], curs), blocks[k] + curb, rest)
  {
    FlatAround(blocks, k, [], LEVELS);
    var hi := High(blocks, k, LEVELS);
    assert hi + blocks[k] + curb + rest == hi + [] + (blocks[k] + curb) + rest;
    LayoutParts(le, s, parts, blocks, curs, curb, rest);
    BlockWithin(blocks, LEVELS, k);
    MergeOfSorts(le, s, blocks[k], curb);
  }

  /** Parking the carried list in an empty level. */
  lemma LayoutPark(le: Le<Node>, s: seq<Node>, parts: seq<seq<Node>>, blocks: seq<seq<Node>>,
                   curs: seq<Node>, curb: seq<Node>, rest: seq<Node>, k: nat)
    requires Layout(le, s, parts, blocks, curs, curb, rest) && k < LEVELS
    requires forall j :: 0 <= j <= k ==> blocks[j] == []
    ensures Layout(le, s, parts[k := curs], blocks[k := curb], [], [], rest)
  {
    FlatAround(blocks, k, curb, LEVELS);
    var hi := High(blocks, k, LEVELS);
    assert hi + [] + curb + rest == hi + curb + [] + rest;
  }

  /** Taking the next node of the list. */
  lemma LayoutTake(le: Le<Node>, s: seq<Node>, parts: seq<seq<Node>>, blocks: seq<seq<Node>>, rest: seq<Node>)
    requires Layout(le, s, parts, blocks, [], [], rest) && rest != []
    ensures Layout(le, s, parts, blocks, [rest[0]], [rest[0]], rest[1..])
  {
    assert Sort(le, [rest[0]]) == [rest[0]] by {
      assert [rest[0]][..0] == [];
      assert Sort(le, []) == [];
    }
    var flat := Flat(blocks, LEVELS);
    assert flat + [] + rest == flat + [rest[0]] + rest[1..];
  }

  /** The array holds the chains of the levels from the given one up. */
  ghost predicate Chains(part: array<Node?>, parts: seq<seq<Node>>, from: nat, s: seq<Node>)
    reads part, Nodes(s)
  {
    && |parts| == part.Length == LEVELS
    && forall k :: from <= k < LEVELS ==> Nodes(parts[k]) <= Nodes(s) && Chain(part[k], parts[k])
  }

  lemma Untouched(a: seq<Node>, b: seq<Node>, c: seq<Node>)
    requires Apart(a, b) || Apart(b, a)
    requires Apart(a, c) || Apart(c, a)
    ensures forall i :: 0 <= i < |a| ==> a[i] !in b && a[i] !in c
  {
    forall i | 0 <= i < |a| ensures a[i] !in b && a[i] !in c { assert a[i] in a; }
  }

  /** Merge the partial list of one level with the carried one. The other chains are not touched. */
  method MergeLevel(cmp: Cmp, part: array<Node?>, lev: nat, cur: Node?, list: Node?, from: nat,
                    ghost s: seq<Node>, ghost parts: seq<seq<Node>>, ghost curs: seq<Node>, ghost rest: seq<Node>)
    returns (cur': Node?)
    requires from <= lev < LEVELS && Chains(part, parts, from, s) && Chain(cur, curs) && Chain(list, rest)
    requires Scattered(s, parts, curs, rest)
    modifies (set x | x in s)`next
    ensures Chain(cur', Merge(Leq(cmp), parts[lev], curs)) && Chain(list, rest)
    ensures forall k :: from <= k < LEVELS && k != lev ==> Chain(part[k], parts[k])
  {
    assert Apart(parts[lev], curs) && Apart(parts[lev], rest);
    cur' := MergeChains(cmp, part[lev], cur, parts[lev], curs);
    Untouched(rest, parts[lev], curs);
    forall k | from <= k < LEVELS && k != lev ensures Chain(part[k], parts[k]) {
      assert Apart(parts[k], parts[lev]) && Apart(parts[k], curs);
      Untouched(parts[k], parts[lev], curs);
    }
  }

  /** Store a chain in one slot; chains do not live in the array. */
  method SetSlot(part: array<Node?>, lev: nat, p: Node?, cur: Node?, list: Node?, from: nat, ghost s: seq<Node>,
                 ghost parts: seq<seq<Node>>, ghost c: seq<Node>, ghost curs: seq<Node>, ghost rest: seq<Node>)
    requires |parts| == part.Length == LEVELS && from <= lev < LEVELS
    requires forall k :: from <= k < LEVELS && k != lev ==> Nodes(parts[k]) <= Nodes(s) && Chain(part[k], parts[k])
    requires Chain(p, c) && Nodes(c) <= Nodes(s) && Chain(cur, curs) && Chain(list, rest)
    modifies part
    ensures Chains(part, parts[lev := c], from, s) && Chain(cur, curs) && Chain(list, rest)
  {
    part[lev] := p;
  }

  lemma ChainsGive(part: array<Node?>, parts: seq<seq<Node>>, from: nat, s: seq<Node>)
    requires Chains(part, parts, from, s)
    ensures part.Length == |parts| == LEVELS
    ensures forall k :: from <= k < LEVELS ==> Nodes(parts[k]) <= Nodes(s) && Chain(part[k], parts[k])
  {
  }

  /** A level is empty exactly when its slot is null. */
  lemma Emptiness(le: Le<Node>, part: array<Node?>, from: nat, s: seq<Node>, parts: seq<seq<Node>>,
                  blocks: seq<seq<Node>>, curs: seq<Node>, curb: seq<Node>, rest: seq<Node>)
    requires NoDup(s) && TotalPreorder(le, s) && Layout(le, s, parts, blocks, curs, curb, rest) &&
             Chains(part, parts, from, s)
    ensures forall k :: from <= k < LEVELS ==> (part[k] == null <==> blocks[k] == [])
    ensures Scattered(s, parts, curs, rest) && |curs| == |curb|
  {
    LayoutScattered(le, s, parts, blocks, curs, curb, rest);
  }

  /** One occupied level joins the carried chain and is emptied. */
  method CarryLevel(cmp: Cmp, part: array<Node?>, lev: nat, cur: Node?, list: Node?, ghost s: seq<Node>,
                    ghost parts: seq<seq<Node>>, ghost blocks: seq<seq<Node>>, ghost curs: seq<Node>,
                    ghost curb: seq<Node>,
                    ghost rest: seq<Node>)
    returns (cur': Node?)
    requires NoDup(s) && TotalPreorder(Leq(cmp), s) && Layout(Leq(cmp), s, parts, blocks, curs, curb, rest)
    requires Scattered(s, parts, curs, rest) && |parts| == |blocks| == LEVELS
    requires lev < LEVELS && Chains(part, parts, 0, s) && Chain(cur, curs) && Chain(list, rest)
    requires forall k :: 0 <= k < lev ==> blocks[k] == []
    modifies part, (set x | x in s)`next
    ensures Layout(Leq(cmp), s, parts[lev := []], blocks[lev := []], Merge(Leq(cmp), parts[lev], curs),
                   blocks[lev] + curb, rest)
    ensures Chains(part, parts[lev := []], 0, s) && Chain(cur', Merge(Leq(cmp), parts[lev], curs)) && Chain(list, rest)
  {
    LayoutCarry(Leq(cmp), s, parts, blocks, curs, curb, rest, lev);
    hide TotalPreorder, Flat, Sort, NoDup, Scattered, Layout, Chain;
    cur' := MergeLevel(cmp, part, lev, cur, list, 0, s, parts, curs, rest);
    SetSlot(part, lev, null, cur', list, 0, s, parts, [], Merge(Leq(cmp), parts[lev], curs), rest);
  }

  /** Carry cur up through the occupied levels; returns the level where it stopped. */
  method CarryUp(cmp: Cmp, part: array<Node?>, cur0: Node?, list: Node?, maxLev: nat, ghost s: seq<Node>,
                 ghost parts0: seq<seq<Node>>, ghost blocks0: seq<seq<Node>>, ghost curs0: seq<Node>,
                 ghost curb0: seq<Node>,
                 ghost rest: seq<Node>)
    returns (cur: Node?, lev: nat, ghost parts: seq<seq<Node>>, ghost blocks: seq<seq<Node>>, ghost curs: seq<Node>,
             ghost curb: seq<Node>)
    requires NoDup(s) && TotalPreorder(Leq(cmp), s) && Layout(Leq(cmp), s, parts0, blocks0, curs0, curb0, rest)
    requires Chains(part, parts0, 0, s) && Chain(cur0, curs0) && Chain(list, rest)
    requires maxLev < LEVELS - 1 && (forall k :: maxLev < k < LEVELS ==> blocks0[k] == []) && curb0 != []
    modifies part, (set x | x in s)`next
    ensures Layout(Leq(cmp), s, parts, blocks, curs, curb, rest) && curb != []
    ensures Chains(part, parts, 0, s) && Chain(cur, curs) && Chain(list, rest)
    ensures lev <= maxLev + 1 && (forall k :: 0 <= k <= lev ==> blocks[k] == [])
    ensures forall k :: lev <= k < LEVELS ==> blocks[k] == blocks0[k]
  {
    hide TotalPreorder, Flat, Sort, Scattered, Chain, NoDup, Merge;
    cur, lev, parts, blocks, curs, curb := cur0, 0, parts0, blocks0, curs0, curb0;
    Emptiness(Leq(cmp), part, 0, s, parts, blocks, curs, curb, rest);
    while part[lev] != null
      invariant lev <= maxLev + 1
      invariant Layout(Leq(cmp), s, parts, blocks, curs, curb, rest) && curb != []
      invariant Scattered(s, parts, curs, rest)
      invariant Chains(part, parts, 0, s) && Chain(cur, curs) && Chain(list, rest)
      invariant forall k :: 0 <= k < lev ==> blocks[k] == []
      invariant forall k :: lev <= k < LEVELS ==> blocks[k] == blocks0[k]
      invariant forall k :: 0 <= k < LEVELS ==> (part[k] == null <==> blocks[k] == [])
      decreases LEVELS - lev
    {
      hide Chains;
      Shapes(Leq(cmp), s, parts, blocks, curs, curb, rest);
      hide Layout;
      cur := CarryLevel(cmp, part, lev, cur, list, s, parts, blocks, curs, curb, rest);
      curs, curb := Merge(Leq(cmp), parts[lev], curs), blocks[lev] + curb;
      parts, blocks := parts[lev := []], blocks[lev := []];
      Emptiness(Leq(cmp), part, 0, s, parts, blocks, curs, curb, rest);
      lev := lev + 1;
    }
  }

  lemma RingEmpty(le: Le<Node>, head: Node, s: seq<Node>)
    requires Ring(head, s)
    ensures head.next == head <==> s == []
    ensures s == [] ==> Sort(le, s) == s
  {
    assert s != [] ==> ([head] + s)[0].next == s[0] && ([head] + s)[1] == s[0];
  }

  lemma RingNodes(head: Node, s: seq<Node>)
    requires Ring(head, s) && s != []
    ensures NoDup(s) && head !in s && head.prev == s[|s| - 1] && head.next == s[0]
    ensures forall i :: 0 <= i < |s| - 1 ==> s[i].next == s[i + 1]
  {
    var r := [head] + s;
    assert forall i :: 0 <= i < |s| ==> r[i + 1] == s[i];
  }

  /** Break the circle open behind the last node. */
  method OpenRing(head: Node, ghost s: seq<Node>)
    requires Ring(head, s) && s != []
    modifies (set x | x in s)`next
    ensures Chain(head.next, s) && head.next == old(head.next)
  {
    RingNodes(head, s);
    hide Ring;
    head.prev.next := null;
    assert forall i :: 0 <= i < |s| - 1 ==> s[i] != s[|s| - 1];
  }

  lemma LayoutStart(le: Le<Node>, s: seq<Node>)
    ensures var none: seq<seq<Node>> := seq(LEVELS, _ => []); Layout(le, s, none, none, [], [], s)
  {
    var none: seq<seq<Node>> := seq(LEVELS, _ => []);
    FlatNone(none, LEVELS);
    assert [] + [] + s == s;
  }

  /** Take the first node off the list. */
  method Detach(part: array<Node?>, cur: Node, ghost s: seq<Node>, ghost parts: seq<seq<Node>>, ghost rest: seq<Node>)
    returns (list: Node?)
    requires Chains(part, parts, 0, s) && rest != [] && Chain(cur, rest)
    requires Scattered(s, parts, [rest[0]], rest[1..]) && cur in s
    modifies cur`next
    ensures Chains(part, parts, 0, s) && Chain(cur, [rest[0]]) && Chain(list, rest[1..])
  {
    ChainTail(cur, rest);
    list := cur.next;
    cur.next := null;
    assert Apart([rest[0]], rest[1..]);
    Untouched(rest[1..], [rest[0]], []);
    assert rest[0] in [rest[0]];
    assert Chain(list, rest[1..]);
    forall k | 0 <= k < LEVELS ensures Chain(part[k], parts[k]) {
      assert Apart(parts[k], [rest[0]]);
      Untouched(parts[k], [rest[0]], []);
    }
  }

  /** The top level is occupied as soon as something has been distributed, and nothing is above it. */
  ghost predicate Topped(s: seq<Node>, blocks: seq<seq<Node>>, rest: seq<Node>, negated: bool, maxLev: nat) {
    && |blocks| == LEVELS && maxLev < LEVELS - 1 && (negated ==> maxLev == 0)
    && (forall k :: maxLev < k < LEVELS ==> blocks[k] == [])
    && if |rest| == |s| then maxLev == 0 else blocks[maxLev] != []
  }

  /** The first node of the list is merged into the levels below and parked. */
  method DistributeOne(cmp: Cmp, negated: bool, part: array<Node?>, cur: Node, maxLev0: nat, ghost s: seq<Node>,
                       ghost parts0: seq<seq<Node>>, ghost blocks0: seq<seq<Node>>, ghost rest: seq<Node>)
    returns (list: Node?, maxLev: nat, ghost parts: seq<seq<Node>>, ghost blocks: seq<seq<Node>>)
    requires NoDup(s) && TotalPreorder(Leq(cmp), s) && part.Length == LEVELS
    requires Layout(Leq(cmp), s, parts0, blocks0, [], [], rest) && Chains(part, parts0, 0, s)
    requires rest != [] && cur == rest[0] && Chain(cur, rest) && Topped(s, blocks0, rest, negated, maxLev0)
    modifies part, (set x | x in s)`next
    ensures Layout(Leq(cmp), s, parts, blocks, [], [], rest[1..]) && Chains(part, parts, 0, s)
    ensures Chain(list, rest[1..]) && Topped(s, blocks, rest[1..], negated, maxLev)
  {
    hide TotalPreorder, Flat, Sort, NoDup, Scattered, Chain, Chains, Layout, Topped;
    ToppedLevel(s, blocks0, rest, negated, maxLev0);
    LayoutTake(Leq(cmp), s, parts0, blocks0, rest);
    Emptiness(Leq(cmp), part, 0, s, parts0, blocks0, [rest[0]], [rest[0]], rest[1..]);
    InLayout(Leq(cmp), s, parts0, blocks0, rest);
    list := Detach(part, cur, s, parts0, rest);
    ghost var curs, curb;
    var lev, cur';
    cur', lev, parts, blocks, curs, curb :=
      CarryUp(cmp, part, cur, list, maxLev0, s, parts0, blocks0, [rest[0]], [rest[0]], rest[1..]);
    maxLev := maxLev0;
    ghost var lev0 := lev;
    if lev > maxLev {
      if Unlikely(negated, lev >= MAX_LIST_LENGTH_BITS) {
        lev := lev - 1;
      }
      maxLev := lev;
    }
    Shapes(Leq(cmp), s, parts, blocks, curs, curb, rest[1..]);
    ToppedNext(s, blocks0, blocks, curb, rest, negated, maxLev0, lev0, maxLev, lev);
    LayoutPark(Leq(cmp), s, parts, blocks, curs, curb, rest[1..], lev);
    CursWithin(Leq(cmp), s, parts, blocks, curs, curb, rest[1..]);
    ChainsGive(part, parts, 0, s);
    SetSlot(part, lev, cur', cur', list, 0, s, parts, curs, curs, rest[1..]);
    parts, blocks := parts[lev := curs], blocks[lev := curb];
  }

  lemma ToppedLevel(s: seq<Node>, blocks: seq<seq<Node>>, rest: seq<Node>, negated: bool, maxLev: nat)
    requires Topped(s, blocks, rest, negated, maxLev)
    ensures |blocks| == LEVELS && maxLev < LEVELS - 1 && forall k :: maxLev < k < LEVELS ==> blocks[k] == []
  {
  }

  /** Distribute the list over the levels; with the guard negated everything stays in the lowest. */
  method Distribute(cmp: Cmp, negated: bool, part: array<Node?>, list0: Node?, ghost s: seq<Node>)
    returns (maxLev: nat, ghost parts: seq<seq<Node>>, ghost blocks: seq<seq<Node>>)
    requires NoDup(s) && TotalPreorder(Leq(cmp), s) && s != [] && Chain(list0, s)
    requires part.Length == LEVELS && forall k :: 0 <= k < LEVELS ==> part[k] == null
    modifies part, (set x | x in s)`next
    ensures Layout(Leq(cmp), s, parts, blocks, [], [], []) && Chains(part, parts, 0, s)
    ensures maxLev < LEVELS - 1 && part[LEVELS - 1] == null && part[maxLev] != null
    ensures |parts| == |blocks| == LEVELS && blocks[maxLev] != [] && forall k :: maxLev < k < LEVELS ==> blocks[k] == []
    ensures negated ==> maxLev == 0
  {
    maxLev := 0;
    var list := list0;
    parts := seq(LEVELS, _ => []);
    blocks := parts;
    ghost var rest := s;
    LayoutStart(Leq(cmp), s);
    while list != null
      invariant Layout(Leq(cmp), s, parts, blocks, [], [], rest)
      invariant Chains(part, parts, 0, s) && Chain(list, rest)
      invariant Topped(s, blocks, rest, negated, maxLev)
      decreases |rest|
    {
      assert rest != [] && list == rest[0];
      hide TotalPreorder, Flat, Sort, NoDup, Scattered, Chain, Chains, Layout, Topped;
      list, maxLev, parts, blocks := DistributeOne(cmp, negated, part, list, maxLev, s, parts, blocks, rest);
      rest := rest[1..];
    }
    Emptiness(Leq(cmp), part, 0, s, parts, blocks, [], [], []);
    Shapes(Leq(cmp), s, parts, blocks, [], [], []);
  }

  lemma Shapes(le: Le<Node>, s: seq<Node>, parts: seq<seq<Node>>, blocks: seq<seq<Node>>,
               curs: seq<Node>, curb: seq<Node>, rest: seq<Node>)
    requires Layout(le, s, parts, blocks, curs, curb, rest)
    ensures |parts| == |blocks| == LEVELS && |rest| <= |s|
  {
  }

  /** Wherever the carried block is parked, the top level is occupied and nothing is above it. */
  lemma TopLevel(blocks0: seq<seq<Node>>, blocks: seq<seq<Node>>, curb: seq<Node>, first: bool,
                 maxLev0: nat, lev0: nat, maxLev: nat, lev: nat)
    requires |blocks| == |blocks0| == LEVELS && curb != [] && lev0 <= maxLev0 + 1 && maxLev0 < LEVELS - 1
    requires forall k :: maxLev0 < k < LEVELS ==> blocks0[k] == []
    requires forall k :: lev0 <= k < LEVELS ==> blocks[k] == blocks0[k]
    requires if first then maxLev0 == 0 else blocks0[maxLev0] != []
    requires forall k :: 0 <= k <= lev0 ==> blocks[k] == []
    requires if lev0 > maxLev0 then maxLev == lev && maxLev0 <= lev <= lev0 && lev < LEVELS - 1
             else maxLev == maxLev0 && lev == lev0
    ensures var bs := blocks[lev := curb]; bs[maxLev] != [] && forall k :: maxLev < k < LEVELS ==> bs[k] == []
    ensures forall k :: 0 <= k <= lev ==> blocks[k] == []
  {
  }

  lemma ToppedNext(s: seq<Node>, blocks0: seq<seq<Node>>, blocks: seq<seq<Node>>, curb: seq<Node>, rest: seq<Node>,
                   negated: bool, maxLev0: nat, lev0: nat, maxLev: nat, lev: nat)
    requires Topped(s, blocks0, rest, negated, maxLev0) && rest != [] && |rest| <= |s|
    requires |blocks| == LEVELS && curb != [] && lev0 <= maxLev0 + 1
    requires forall k :: lev0 <= k < LEVELS ==> blocks[k] == blocks0[k]
    requires forall k :: 0 <= k <= lev0 ==> blocks[k] == []
    requires lev == if lev0 > maxLev0 && Unlikely(negated, lev0 >= MAX_LIST_LENGTH_BITS) then lev0 - 1 else lev0
    requires maxLev == if lev0 > maxLev0 then lev else maxLev0
    ensures lev <= lev0 && Topped(s, blocks[lev := curb], rest[1..], negated, maxLev)
    ensures forall k :: 0 <= k <= lev ==> blocks[k] == []
  {
    TopLevel(blocks0, blocks, curb, |rest| == |s|, maxLev0, lev0, maxLev, lev);
  }

  lemma InLayout(le: Le<Node>, s: seq<Node>, parts: seq<seq<Node>>, blocks: seq<seq<Node>>, rest: seq<Node>)
    requires Layout(le, s, parts, blocks, [], [], rest) && rest != []
    ensures rest[0] in s
  {
  }

  lemma CursWithin(le: Le<Node>, s: seq<Node>, parts: seq<seq<Node>>, blocks: seq<seq<Node>>,
                   curs: seq<Node>, curb: seq<Node>, rest: seq<Node>)
    requires NoDup(s) && TotalPreorder(le, s) && Layout(le, s, parts, blocks, curs, curb, rest)
    ensures Nodes(curs) <= Nodes(s)
  {
    LayoutScattered(le, s, parts, blocks, curs, curb, rest);
  }

  /** One occupied level joins the chain. */
  method CollectLevel(cmp: Cmp, part: array<Node?>, lev: nat, list0: Node?, ghost s: seq<Node>,
                      ghost parts: seq<seq<Node>>, ghost blocks: seq<seq<Node>>, ghost curs: seq<Node>,
                      ghost curb: seq<Node>)
    returns (list: Node?)
    requires NoDup(s) && TotalPreorder(Leq(cmp), s) && Layout(Leq(cmp), s, parts, blocks, curs, curb, [])
    requires lev < LEVELS && Chains(part, parts, lev, s) && Chain(list0, curs)
    requires forall k :: 0 <= k < lev ==> blocks[k] == []
    modifies (set x | x in s)`next
    ensures Layout(Leq(cmp), s, parts[lev := []], blocks[lev := []], Merge(Leq(cmp), parts[lev], curs),
                   blocks[lev] + curb, [])
    ensures Chains(part, parts[lev := []], lev + 1, s) && Chain(list, Merge(Leq(cmp), parts[lev], curs))
  {
    LayoutScattered(Leq(cmp), s, parts, blocks, curs, curb, []);
    LayoutCarry(Leq(cmp), s, parts, blocks, curs, curb, [], lev);
    hide TotalPreorder, Flat, Sort, NoDup, Scattered, Layout, Chain;
    list := MergeLevel(cmp, part, lev, list0, null, lev, s, parts, curs, []);
  }

  /** Merge the levels below the top one, lowest first, into one chain. */
  method Collect(cmp: Cmp, part: array<Node?>, maxLev: nat, ghost s: seq<Node>, ghost parts: seq<seq<Node>>,
                 ghost blocks0: seq<seq<Node>>)
    returns (list: Node?, ghost blocks: seq<seq<Node>>, ghost parts': seq<seq<Node>>, ghost curs: seq<Node>,
             ghost curb: seq<Node>)
    requires NoDup(s) && TotalPreorder(Leq(cmp), s) && Layout(Leq(cmp), s, parts, blocks0, [], [], [])
    requires Chains(part, parts, 0, s) && maxLev < LEVELS
    modifies (set x | x in s)`next
    ensures Layout(Leq(cmp), s, parts', blocks, curs, curb, []) && Scattered(s, parts', curs, [])
    ensures |parts'| == |blocks| == LEVELS && Chain(part[maxLev], parts'[maxLev]) && Chain(list, curs)
    ensures forall k :: 0 <= k < maxLev ==> blocks[k] == []
    ensures forall k :: maxLev <= k < LEVELS ==> blocks[k] == blocks0[k]
  {
    list, blocks, parts', curs, curb := null, blocks0, parts, [], [];
    for lev := 0 to maxLev
      invariant Layout(Leq(cmp), s, parts', blocks, curs, curb, [])
      invariant Chains(part, parts', lev, s) && Chain(list, curs)
      invariant forall k :: 0 <= k < lev ==> blocks[k] == []
      invariant forall k :: lev <= k < LEVELS ==> blocks[k] == blocks0[k]
    {
      Emptiness(Leq(cmp), part, lev, s, parts', blocks, curs, curb, []);
      Shapes(Leq(cmp), s, parts', blocks, curs, curb, []);
      hide TotalPreorder, Flat, Sort, NoDup, Scattered, Layout, Chain;
      if part[lev] != null {
        list := CollectLevel(cmp, part, lev, list, s, parts', blocks, curs, curb);
        curs, curb := Merge(Leq(cmp), parts'[lev], curs), blocks[lev] + curb;
        parts', blocks := parts'[lev := []], blocks[lev := []];
      }
    }
    LayoutScattered(Leq(cmp), s, parts', blocks, curs, curb, []);
  }

  lemma TopMerge(le: Le<Node>, s: seq<Node>, parts: seq<seq<Node>>, blocks: seq<seq<Node>>, curs: seq<Node>,
                 curb: seq<Node>, k: nat)
    requires NoDup(s) && TotalPreorder(le, s) && Layout(le, s, parts, blocks, curs, curb, []) && k < LEVELS
    requires forall j :: 0 <= j < LEVELS && j != k ==> blocks[j] == []
    ensures Merge(le, parts[k], curs) == Sort(le, s)
  {
    LayoutCarry(le, s, parts, blocks, curs, curb, [], k);
    FlatNone(blocks[k := []], LEVELS);
    assert [] + (blocks[k] + curb) + [] == blocks[k] + curb;
  }

  /** Merge the levels together, the top one last, and close the circle. */
  method Gather(cmp: Cmp, negated: bool, head: Node, part: array<Node?>, maxLev: nat, ghost s: seq<Node>,
                ghost parts0: seq<seq<Node>>, ghost blocks0: seq<seq<Node>>)
    requires NoDup(s) && head !in s && TotalPreorder(Leq(cmp), s) && Layout(Leq(cmp), s, parts0, blocks0, [], [], [])
    requires Chains(part, parts0, 0, s) && maxLev < LEVELS == part.Length == |parts0| && |blocks0| == LEVELS &&
             blocks0[maxLev] != []
    requires forall k :: maxLev < k < LEVELS ==> blocks0[k] == []
    modifies (set x | x in s), head
    ensures Ring(head, Sort(Leq(cmp), s))
  {
    hide *;
    var list;
    ghost var curs, curb, parts, blocks;
    list, blocks, parts, curs, curb := Collect(cmp, part, maxLev, s, parts0, blocks0);
    Shapes(Leq(cmp), s, parts, blocks, curs, curb, []);
    TopMerge(Leq(cmp), s, parts, blocks, curs, curb, maxLev);
    LastParts(Leq(cmp), head, s, parts, blocks, curs, curb, maxLev);
    WithinSets(parts[maxLev], s);
    WithinSets(curs, s);
    MergeAndRestoreBackLinks(cmp, negated, head, part[maxLev], list, parts[maxLev], curs);
  }

  lemma WithinSets(a: seq<Node>, s: seq<Node>)
    requires Within(a, s)
    ensures (set x | x in a) <= (set x | x in s)
  {
  }

  /** Distribute the opened list over the levels and gather it again. */
  method SortChain(cmp: Cmp, negated: bool, head: Node, list: Node?, ghost s: seq<Node>)
    requires NoDup(s) && head !in s && s != [] && TotalPreorder(Leq(cmp), s) && Chain(list, s)
    modifies (set x | x in s), head
    ensures Ring(head, Sort(Leq(cmp), s))
  {
    hide Ring, TotalPreorder, Layout, Scattered, Flat, Sort, Chains, NoDup;
    var part := new Node?[LEVELS](_ => null);
    ghost var parts, blocks;
    var maxLev;
    maxLev, parts, blocks := Distribute(cmp, negated, part, list, s);
    Gather(cmp, negated, head, part, maxLev, s, parts, blocks);
  }

  /** Sort the list at head by cmp: the one stable sort of its nodes, in a well-formed circle. */
  method SortList(cmp: Cmp, negated: bool, head: Node, ghost s: seq<Node>)
    requires Ring(head, s) && TotalPreorder(Leq(cmp), s)
    modifies (set x | x in s), head
    ensures Ring(head, Sort(Leq(cmp), s))
  {
    RingEmpty(Leq(cmp), head, s);
    hide *;
    if head.next == head {
      return;
    }
    RingNodes(head, s);
    OpenRing(head, s);
    SortChain(cmp, negated, head, head.next, s);
  }

  lemma LastParts(le: Le<Node>, head: Node, s: seq<Node>, parts: seq<seq<Node>>, blocks: seq<seq<Node>>,
                  curs: seq<Node>, curb: seq<Node>, k: nat)
    requires NoDup(s) && TotalPreorder(le, s) && Layout(le, s, parts, blocks, curs, curb, []) && k < LEVELS
    requires head !in s && blocks[k] != []
    ensures Parts(head, [], parts[k], curs) && parts[k] != []
    ensures Within(parts[k], s) && Within(curs, s)
  {
    LayoutScattered(le, s, parts, blocks, curs, curb, []);
    assert [head] + [] == [head];
  }

  /** The result in terms of the input alone: the same nodes, in order, with ties left as they were. */
  lemma SortedStablePermutation(cmp: Cmp, s: seq<Node>)
    requires TotalPreorder(Leq(cmp), s)
    ensures var t := Sort(Leq(cmp), s);
            && multiset(t) == multiset(s)
            && Sorted(Leq(cmp), t)
            && (forall e :: e in s ==> Class(Leq(cmp), e, t) == Class(Leq(cmp), e, s))
  {
    SortFacts(Leq(cmp), s, s);
    forall e | e in s ensures Class(Leq(cmp), e, Sort(Leq(cmp), s)) == Class(Leq(cmp), e, s) {
      SortStable(Leq(cmp), s, s, e);
    }
  }
}
