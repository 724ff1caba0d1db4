/** Values of hash buckets and tables: what a row of buckets stores, and the sums kept over it. */
module HashTable {
  import opened Options
  import opened Timeout

  const AHASH_INIT_SIZE: nat := 4
  const AHASH_MAX_SIZE: nat := 12
  const AHASH_MAX_TUNED: nat := 64

  datatype Skbinfo = Skbinfo(mark: nat, markmask: nat, prio: nat, queue: nat)

  /** One array slot: the element and its extensions. A domain is the text before the NUL. */
  datatype Slot = Slot(dom: string, deadline: Tick, bytes: nat, packets: nat, skb: Skbinfo)

  const BLANK: Slot := Slot("", ELEM_PERMANENT, 0, 0, Skbinfo(0, 0, 0, 0))

  datatype Bucket = Bucket(used: seq<bool>, value: seq<Slot>, size: nat, pos: nat)

  type Row = Option<Bucket>
  type Entries = map<string, Slot>
  type Hash = string -> nat

  function Blanks(n: nat): (s: seq<Slot>)
    ensures |s| == n && forall k :: 0 <= k < n ==> s[k] == BLANK
  {
    seq(n, _ => BLANK)
  }

  // ---------------------------------------------------------------- bits

  /** The number of set bits among the first n. */
  function Ones(u: seq<bool>, n: nat): (c: nat)
    requires n <= |u|
    ensures c <= n
  {
    if n == 0 then 0 else Ones(u, n - 1) + (if u[n - 1] then 1 else 0)
  }

  lemma OnesAgree(u: seq<bool>, v: seq<bool>, n: nat)
    requires n <= |u| && n <= |v| && forall k :: 0 <= k < n ==> u[k] == v[k]
    ensures Ones(u, n) == Ones(v, n)
  {
  }

  lemma {:induction false} OnesUpdate(u: seq<bool>, i: nat, bit: bool, n: nat)
    requires i < n <= |u|
    ensures Ones(u[i := bit], n) == Ones(u, n) - (if u[i] then 1 else 0) + (if bit then 1 else 0)
  {
    if i == n - 1 {
      OnesAgree(u, u[i := bit], n - 1);
    } else {
      OnesUpdate(u, i, bit, n - 1);
    }
  }

  lemma OnesFull(u: seq<bool>, n: nat)
    requires n <= |u|
    ensures Ones(u, n) == n <==> forall k :: 0 <= k < n ==> u[k]
  {
  }

  lemma OnesZero(u: seq<bool>, n: nat)
    requires n <= |u|
    ensures Ones(u, n) == 0 <==> forall k :: 0 <= k < n ==> !u[k]
  {
  }

  lemma {:induction false} OnesMonotone(u: seq<bool>, m: nat, n: nat)
    requires m <= n <= |u|
    ensures Ones(u, m) <= Ones(u, n)
    ensures m < n && u[m] ==> Ones(u, m) < Ones(u, n)
  {
    if m + 1 < n {
      OnesMonotone(u, m, n - 1);
    }
  }

  // ---------------------------------------------------------------- one bucket

  ghost predicate Shape(b: Bucket) {
    && |b.used| == AHASH_MAX_TUNED
    && |b.value| == b.size
    && b.pos <= b.size
    && (b.size == 0 || b.size == 4 || b.size == 8 || b.size == AHASH_MAX_SIZE)
    && forall j :: b.pos <= j < AHASH_MAX_TUNED ==> !b.used[j]
  }

  ghost function UsedOf(b: Bucket): nat
    requires b.pos <= |b.used|
  {
    Ones(b.used, b.pos)
  }

  /** Slot j is in use. */
  ghost predicate InUse(b: Bucket, j: int)
    requires Shape(b)
  {
    0 <= j < b.pos && b.used[j]
  }

  ghost predicate HasDom(b: Bucket, d: string)
    requires Shape(b)
  {
    exists j :: InUse(b, j) && b.value[j].dom == d
  }

  /** The bucket stores exactly the given entries, each of them once. */
  ghost predicate Holds(b: Bucket, part: Entries) {
    && Shape(b)
    && (forall j :: InUse(b, j) ==> b.value[j].dom in part && part[b.value[j].dom] == b.value[j])
    && (forall d :: d in part ==> HasDom(b, d))
    && (forall j, k :: InUse(b, j) && InUse(b, k) && b.value[j].dom == b.value[k].dom ==> j == k)
  }

  function EmptyBucket(size: nat): Bucket {
    Bucket(seq(AHASH_MAX_TUNED, _ => false), Blanks(size), size, 0)
  }

  /** The bucket after writing s into position i and marking it used, grown by one block if it was full. */
  ghost function Filled(b: Bucket, i: nat, s: Slot): Bucket
    requires Shape(b) && i <= b.pos < AHASH_MAX_TUNED
  {
    var v := if i < b.size then b.value else b.value + Blanks(AHASH_INIT_SIZE);
    Bucket(b.used[i := true], v[i := s], |v|, if i < b.pos then b.pos else i + 1)
  }

  /** What stays of m, the entries of the bucket or of the whole table, when slot i is overwritten. */
  ghost function Evicted(b: Bucket, i: nat, m: Entries): Entries
    requires Shape(b)
  {
    if InUse(b, i) then m - {b.value[i].dom} else m
  }

  /** Bucket c is b with s in slot i. */
  ghost predicate Overwritten(b: Bucket, i: nat, s: Slot, c: Bucket) {
    && Shape(b) && Shape(c)
    && (forall j :: InUse(c, j) <==> j == i || InUse(b, j))
    && (forall j :: InUse(b, j) && j != i ==> c.value[j] == b.value[j] && b.value[j].dom != s.dom)
    && InUse(c, i) && c.value[i] == s
  }

  lemma OverwrittenIn(b: Bucket, i: nat, s: Slot, c: Bucket, part: Entries, j: nat)
    requires Overwritten(b, i, s, c) && Holds(b, part) && InUse(c, j)
    ensures var rest := Evicted(b, i, part)[s.dom := s];
            c.value[j].dom in rest && rest[c.value[j].dom] == c.value[j]
  {
    if j != i {
      assert InUse(b, j);
      assert InUse(b, i) ==> b.value[i].dom != b.value[j].dom;
    }
  }

  lemma OverwrittenHas(b: Bucket, i: nat, s: Slot, c: Bucket, part: Entries, d: string)
    requires Overwritten(b, i, s, c) && Holds(b, part) && d in Evicted(b, i, part)[s.dom := s]
    ensures HasDom(c, d)
  {
    if d == s.dom {
      assert InUse(c, i);
    } else {
      assert HasDom(b, d);
      var j :| InUse(b, j) && b.value[j].dom == d;
      assert j != i && InUse(c, j);
    }
  }

  lemma OverwrittenOnce(b: Bucket, i: nat, s: Slot, c: Bucket, part: Entries, j: nat, k: nat)
    requires Overwritten(b, i, s, c) && Holds(b, part)
    requires InUse(c, j) && InUse(c, k) && c.value[j].dom == c.value[k].dom
    ensures j == k
  {
    assert j == i || InUse(b, j);
    assert k == i || InUse(b, k);
  }

  lemma OverwrittenHolds(b: Bucket, i: nat, s: Slot, c: Bucket, part: Entries)
    requires Overwritten(b, i, s, c) && Holds(b, part)
    ensures Holds(c, Evicted(b, i, part)[s.dom := s])
  {
    var rest := Evicted(b, i, part)[s.dom := s];
    forall j | InUse(c, j) ensures c.value[j].dom in rest && rest[c.value[j].dom] == c.value[j] {
      OverwrittenIn(b, i, s, c, part, j);
    }
    forall d | d in rest ensures HasDom(c, d) {
      OverwrittenHas(b, i, s, c, part, d);
    }
    forall j, k | InUse(c, j) && InUse(c, k) && c.value[j].dom == c.value[k].dom ensures j == k {
      OverwrittenOnce(b, i, s, c, part, j, k);
    }
    hide Overwritten, Evicted, HasDom;
  }

  lemma FilledHolds(b: Bucket, i: nat, s: Slot, part: Entries)
    requires Holds(b, part) && i <= b.pos && (b.pos == b.size ==> i < b.pos || b.size < AHASH_MAX_SIZE)
    requires forall j :: InUse(b, j) && j != i ==> b.value[j].dom != s.dom
    ensures Holds(Filled(b, i, s), Evicted(b, i, part)[s.dom := s])
    ensures UsedOf(Filled(b, i, s)) == UsedOf(b) + (if InUse(b, i) then 0 else 1)
  {
    FilledUsed(b, i, s);
    FilledSlots(b, i, s);
    hide Filled, Evicted, UsedOf, HasDom;
    OverwrittenHolds(b, i, s, Filled(b, i, s), part);
  }

  lemma FilledSlots(b: Bucket, i: nat, s: Slot)
    requires Shape(b) && i <= b.pos && (b.pos == b.size ==> i < b.pos || b.size < AHASH_MAX_SIZE)
    ensures Shape(Filled(b, i, s))
    ensures forall j :: InUse(Filled(b, i, s), j) <==> j == i || InUse(b, j)
    ensures forall j :: InUse(b, j) && j != i ==> Filled(b, i, s).value[j] == b.value[j]
    ensures Filled(b, i, s).value[i] == s
  {
  }

  lemma FilledUsed(b: Bucket, i: nat, s: Slot)
    requires Shape(b) && i <= b.pos && (b.pos == b.size ==> i < b.pos || b.size < AHASH_MAX_SIZE)
    ensures Shape(Filled(b, i, s))
    ensures UsedOf(Filled(b, i, s)) == UsedOf(b) + (if InUse(b, i) then 0 else 1)
  {
    if i < b.pos {
      OnesUpdate(b.used, i, true, b.pos);
    } else {
      OnesAgree(b.used, b.used[i := true], b.pos);
    }
  }

  /** The bucket with bit i cleared; with shrink the high-water mark drops if that was the last slot. */
  ghost function Cleared(b: Bucket, i: nat, shrink: bool): Bucket
    requires Shape(b) && i < b.pos
  {
    b.(used := b.used[i := false], pos := if shrink && i + 1 == b.pos then b.pos - 1 else b.pos)
  }

  lemma ClearedHolds(b: Bucket, i: nat, shrink: bool, part: Entries)
    requires Holds(b, part) && InUse(b, i)
    ensures Holds(Cleared(b, i, shrink), part - {b.value[i].dom})
    ensures UsedOf(Cleared(b, i, shrink)) == UsedOf(b) - 1
  {
    ClearedUsed(b, i, shrink);
    var c := Cleared(b, i, shrink);
    assert forall j :: InUse(c, j) <==> InUse(b, j) && j != i;
    assert forall j :: InUse(c, j) ==> c.value[j] == b.value[j];
    forall d | d in part - {b.value[i].dom} ensures HasDom(c, d) {
      assert HasDom(b, d);
      var j :| InUse(b, j) && b.value[j].dom == d;
      assert InUse(c, j);
    }
  }

  lemma ClearedUsed(b: Bucket, i: nat, shrink: bool)
    requires Shape(b) && InUse(b, i)
    ensures Shape(Cleared(b, i, shrink)) && UsedOf(Cleared(b, i, shrink)) == UsedOf(b) - 1
  {
    OnesUpdate(b.used, i, false, b.pos);
    OnesAgree(Cleared(b, i, shrink).used, b.used[i := false], Cleared(b, i, shrink).pos);
  }

  /** The used slots below n, in order. */
  ghost function Packed(b: Bucket, n: nat): (s: seq<Slot>)
    requires n <= |b.used| && n <= |b.value|
    ensures |s| == Ones(b.used, n)
  {
    if n == 0 then [] else if b.used[n - 1] then Packed(b, n - 1) + [b.value[n - 1]] else Packed(b, n - 1)
  }

  lemma {:induction false} PackedAt(b: Bucket, n: nat, j: nat)
    requires j < n <= |b.used| && n <= |b.value| && b.used[j]
    ensures Ones(b.used, j) < Ones(b.used, n)
    ensures Packed(b, n)[Ones(b.used, j)] == b.value[j]
  {
    OnesMonotone(b.used, j, n);
    if j < n - 1 {
      PackedAt(b, n - 1, j);
    }
  }

  lemma {:induction false} PackedFrom(b: Bucket, n: nat, k: nat) returns (j: nat)
    requires n <= |b.used| && n <= |b.value| && k < Ones(b.used, n)
    ensures j < n && b.used[j] && Ones(b.used, j) == k && Packed(b, n)[k] == b.value[j]
  {
    if b.used[n - 1] && k == Ones(b.used, n - 1) {
      j := n - 1;
    } else {
      j := PackedFrom(b, n - 1, k);
    }
  }

  /** The bucket with its used slots moved to the front of an array one block smaller. */
  ghost function Compacted(b: Bucket): Bucket
    requires Shape(b) && UsedOf(b) + AHASH_INIT_SIZE <= b.size
  {
    var k := UsedOf(b);
    Bucket(seq(AHASH_MAX_TUNED, j => j < k), Packed(b, b.pos) + Blanks(b.size - AHASH_INIT_SIZE - k),
           b.size - AHASH_INIT_SIZE, k)
  }

  lemma {:induction false} CompactedHolds(b: Bucket, part: Entries)
    requires Holds(b, part) && UsedOf(b) + AHASH_INIT_SIZE <= b.size
    ensures Holds(Compacted(b), part)
    ensures UsedOf(Compacted(b)) == UsedOf(b) == Compacted(b).pos
  {
    var c := Compacted(b);
    forall k | InUse(c, k)
      ensures c.value[k].dom in part && part[c.value[k].dom] == c.value[k]
    {
      var j := PackedFrom(b, b.pos, k);
      assert InUse(b, j);
    }
    forall k, l | InUse(c, k) && InUse(c, l) && c.value[k].dom == c.value[l].dom
      ensures k == l
    {
      var i := PackedFrom(b, b.pos, k);
      var j := PackedFrom(b, b.pos, l);
      assert InUse(b, i) && InUse(b, j);
    }
    forall d | d in part ensures HasDom(c, d) {
      assert HasDom(b, d);
      var j :| InUse(b, j) && b.value[j].dom == d;
      PackedAt(b, b.pos, j);
      assert InUse(c, Ones(b.used, j));
    }
    OnesFull(c.used, c.pos);
  }

  /** A bucket's slots determine its entries. */
  lemma {:induction false} HoldsUnique(b: Bucket, p: Entries, q: Entries)
    requires Holds(b, p) && Holds(b, q)
    ensures p == q
  {
    forall d | d in p ensures d in q && q[d] == p[d] { assert HasDom(b, d); }
    forall d | d in q ensures d in p && q[d] == p[d] { assert HasDom(b, d); }
  }

  // ---------------------------------------------------------------- the table

  function Key(h: Hash, d: string, n: nat): nat
    requires n > 0
  {
    h(d) % n
  }

  /** The entries that hash to bucket i. */
  ghost function Part(h: Hash, n: nat, m: Entries, i: nat): Entries
    requires n > 0
  {
    map d | d in m && Key(h, d, n) == i :: m[d]
  }

  ghost predicate RowHolds(r: Row, part: Entries) {
    match r
    case None => part == map[]
    case Some(b) => Holds(b, part)
  }

  /** The rows store exactly m: every entry once, in the bucket its hash selects. */
  ghost predicate Represents(rows: seq<Row>, h: Hash, m: Entries) {
    && |rows| > 0
    && forall i :: 0 <= i < |rows| ==> RowHolds(rows[i], Part(h, |rows|, m, i))
  }

  lemma {:induction false} ReplaceRow(rows: seq<Row>, h: Hash, m: Entries, m': Entries, i: nat, r: Row)
    requires Represents(rows, h, m) && i < |rows|
    requires RowHolds(r, Part(h, |rows|, m', i))
    requires forall d :: d in m && Key(h, d, |rows|) != i ==> d in m' && m'[d] == m[d]
    requires forall d :: d in m' && Key(h, d, |rows|) != i ==> d in m
    ensures Represents(rows[i := r], h, m')
  {
    forall k | 0 <= k < |rows| && k != i
      ensures RowHolds(rows[k], Part(h, |rows|, m', k))
    {
      assert Part(h, |rows|, m', k) == Part(h, |rows|, m, k);
    }
  }

  lemma PartPut(h: Hash, n: nat, m: Entries, gone: set<string>, s: Slot)
    requires n > 0 && forall d :: d in gone ==> Key(h, d, n) == Key(h, s.dom, n)
    ensures Part(h, n, (m - gone)[s.dom := s], Key(h, s.dom, n)) == (Part(h, n, m, Key(h, s.dom, n)) - gone)[s.dom := s]
  {
  }

  lemma PartRemove(h: Hash, n: nat, m: Entries, d: string)
    requires n > 0
    ensures Part(h, n, m - {d}, Key(h, d, n)) == Part(h, n, m, Key(h, d, n)) - {d}
  {
  }

  /** In a represented table the entries decide membership, and each entry sits in one used slot only. */
  lemma RepresentsUnique(rows: seq<Row>, h: Hash, m: Entries, i: nat, j: nat, k: nat, l: nat)
    requires Represents(rows, h, m)
    requires i < |rows| && rows[i].Some? && Shape(rows[i].value) && InUse(rows[i].value, j)
    requires k < |rows| && rows[k].Some? && Shape(rows[k].value) && InUse(rows[k].value, l)
    requires rows[i].value.value[j].dom == rows[k].value.value[l].dom
    ensures i == k == Key(h, rows[i].value.value[j].dom, |rows|) && j == l
  {
    assert RowHolds(rows[i], Part(h, |rows|, m, i));
    assert RowHolds(rows[k], Part(h, |rows|, m, k));
  }

  // ---------------------------------------------------------------- sums over the table

  ghost function UsedIn(r: Row): nat {
    if r.Some? && Shape(r.value) then UsedOf(r.value) else 0
  }

  ghost function PosIn(r: Row): nat {
    if r.Some? then r.value.pos else 0
  }

  ghost function BlocksIn(r: Row): nat {
    if r.Some? then r.value.size / AHASH_INIT_SIZE else 0
  }

  ghost function Sum(rows: seq<Row>, f: Row -> nat): nat {
    if rows == [] then 0 else Sum(rows[..|rows| - 1], f) + f(rows[|rows| - 1])
  }

  lemma {:induction false} SumUpdate(rows: seq<Row>, i: nat, r: Row, f: Row -> nat)
    requires i < |rows|
    ensures Sum(rows[i := r], f) == Sum(rows, f) - f(rows[i]) + f(r)
    ensures f(rows[i]) <= Sum(rows, f)
  {
    var n := |rows| - 1;
    if i == n {
      assert rows[i := r][..n] == rows[..n];
    } else {
      assert rows[i := r][..n] == rows[..n][i := r];
      SumUpdate(rows[..n], i, r, f);
    }
  }

  lemma SumNone(rows: seq<Row>, f: Row -> nat)
    requires f(None) == 0 && forall i :: 0 <= i < |rows| ==> rows[i].None?
    ensures Sum(rows, f) == 0
  {
  }

  ghost predicate FewHoles(r: Row) {
    r.Some? && Shape(r.value) ==> r.value.pos <= UsedOf(r.value) + 3
  }

  ghost predicate NoHoles(r: Row) {
    r.Some? && Shape(r.value) ==> r.value.pos == UsedOf(r.value)
  }

  lemma {:induction false} SumHoles(rows: seq<Row>)
    requires forall i :: 0 <= i < |rows| ==> (rows[i].Some? ==> Shape(rows[i].value)) && FewHoles(rows[i])
    ensures Sum(rows, UsedIn) <= Sum(rows, PosIn) <= Sum(rows, UsedIn) + 3 * |rows|
    ensures (forall i :: 0 <= i < |rows| ==> NoHoles(rows[i])) ==> Sum(rows, PosIn) == Sum(rows, UsedIn)
  {
    if rows != [] {
      var n := |rows| - 1;
      assert forall i :: 0 <= i < n ==> rows[..n][i] == rows[i];
      SumHoles(rows[..n]);
    }
  }

  lemma UsedAtMostPos(rows: seq<Row>)
    ensures Sum(rows, UsedIn) <= Sum(rows, PosIn)
  {
  }

  // ---------------------------------------------------------------- one row of a table changes

  /** The bucket an add works on: the one in place, or a blank one of the initial size. */
  ghost function BucketAt(r: Row): Bucket {
    if r.Some? then r.value else EmptyBucket(AHASH_INIT_SIZE)
  }

  lemma EmptyHolds(size: nat)
    requires size == 0 || size == 4 || size == 8 || size == AHASH_MAX_SIZE
    ensures Holds(EmptyBucket(size), map[]) && UsedOf(EmptyBucket(size)) == 0
  {
  }

  lemma HoldsRow(rows: seq<Row>, h: Hash, m: Entries, i: nat)
    requires Represents(rows, h, m) && i < |rows|
    ensures Holds(BucketAt(rows[i]), Part(h, |rows|, m, i))
    ensures rows[i].None? ==> UsedOf(BucketAt(rows[i])) == 0
    ensures rows[i].Some? ==> UsedIn(rows[i]) == UsedOf(rows[i].value)
  {
    assert RowHolds(rows[i], Part(h, |rows|, m, i));
    EmptyHolds(AHASH_INIT_SIZE);
  }

  /** An entry is in the table exactly when its bucket has it. */
  lemma FindInRow(rows: seq<Row>, h: Hash, m: Entries, d: string)
    requires Represents(rows, h, m)
    ensures var r := rows[Key(h, d, |rows|)];
            Shape(BucketAt(r)) && (d in m <==> HasDom(BucketAt(r), d))
    ensures var b := BucketAt(rows[Key(h, d, |rows|)]);
            Shape(b) && forall j :: InUse(b, j) && b.value[j].dom == d ==> d in m && m[d] == b.value[j]
  {
    HoldsRow(rows, h, m, Key(h, d, |rows|));
  }

  /** Position i of the bucket that s hashes to may take s. */
  ghost predicate CanFill(rows: seq<Row>, h: Hash, i: nat, s: Slot)
    requires |rows| > 0
  {
    var b := BucketAt(rows[Key(h, s.dom, |rows|)]);
    && Shape(b) && i <= b.pos && (b.pos == b.size ==> i < b.pos || b.size < AHASH_MAX_SIZE)
    && forall j :: InUse(b, j) && j != i ==> b.value[j].dom != s.dom
  }

  ghost function FillTable(rows: seq<Row>, h: Hash, i: nat, s: Slot): seq<Row>
    requires |rows| > 0 && CanFill(rows, h, i, s)
  {
    var k := Key(h, s.dom, |rows|);
    rows[k := Some(Filled(BucketAt(rows[k]), i, s))]
  }

  lemma FillRow(rows: seq<Row>, h: Hash, m: Entries, i: nat, s: Slot)
    requires Represents(rows, h, m) && CanFill(rows, h, i, s)
    ensures var b := BucketAt(rows[Key(h, s.dom, |rows|)]);
            Represents(FillTable(rows, h, i, s), h, Evicted(b, i, m)[s.dom := s])
  {
    var k := Key(h, s.dom, |rows|);
    var b := BucketAt(rows[k]);
    var part := Part(h, |rows|, m, k);
    HoldsRow(rows, h, m, k);
    FilledHolds(b, i, s, part);
    var gone := if InUse(b, i) then {b.value[i].dom} else {};
    assert forall d :: d in gone ==> d in part;
    PartPut(h, |rows|, m, gone, s);
    assert m - {} == m && part - {} == part;
    ReplaceRow(rows, h, m, (m - gone)[s.dom := s], k, Some(Filled(b, i, s)));
  }

  lemma FillCount(rows: seq<Row>, h: Hash, m: Entries, i: nat, s: Slot)
    requires Represents(rows, h, m) && CanFill(rows, h, i, s)
    ensures var b := BucketAt(rows[Key(h, s.dom, |rows|)]);
            |Evicted(b, i, m)[s.dom := s]| == |m| + (if InUse(b, i) then 0 else 1)
  {
    var b := BucketAt(rows[Key(h, s.dom, |rows|)]);
    FindInRow(rows, h, m, s.dom);
    HoldsRow(rows, h, m, Key(h, s.dom, |rows|));
    if InUse(b, i) {
      CardMinus(m, b.value[i].dom);
    }
    assert s.dom !in Evicted(b, i, m);
  }

  lemma FillRowSums(rows: seq<Row>, h: Hash, i: nat, s: Slot)
    requires |rows| > 0 && CanFill(rows, h, i, s)
    ensures var k := Key(h, s.dom, |rows|);
            var b := BucketAt(rows[k]);
            var rows' := FillTable(rows, h, i, s);
            && Sum(rows', UsedIn) == Sum(rows, UsedIn) + (if InUse(b, i) then 0 else 1)
            && Sum(rows', PosIn) == Sum(rows, PosIn) + (if i < b.pos then 0 else 1)
            && Sum(rows', BlocksIn) == Sum(rows, BlocksIn) + (if rows[k].None? || i == b.size then 1 else 0)
            && (FewHoles(rows[k]) ==> FewHoles(rows'[k]))
  {
    var k := Key(h, s.dom, |rows|);
    var b := BucketAt(rows[k]);
    var r := Some(Filled(b, i, s));
    EmptyHolds(AHASH_INIT_SIZE);
    FilledUsed(b, i, s);
    SumUpdate(rows, k, r, UsedIn);
    SumUpdate(rows, k, r, PosIn);
    SumUpdate(rows, k, r, BlocksIn);
  }

  lemma CardMinus(m: Entries, d: string)
    requires d in m
    ensures |m - {d}| == |m| - 1
  {
    assert (m - {d}).Keys == m.Keys - {d};
    assert m == (m - {d})[d := m[d]];
  }

  lemma ClearRow(rows: seq<Row>, h: Hash, m: Entries, k: nat, i: nat, shrink: bool)
    requires Represents(rows, h, m) && k < |rows| && rows[k].Some?
    requires Shape(rows[k].value) && InUse(rows[k].value, i)
    ensures var d := rows[k].value.value[i].dom;
            var rows' := rows[k := Some(Cleared(rows[k].value, i, shrink))];
            && Represents(rows', h, m - {d}) && d in m && |m - {d}| == |m| - 1
            && Sum(rows', UsedIn) == Sum(rows, UsedIn) - 1
            && Sum(rows', PosIn) <= Sum(rows, PosIn)
            && Sum(rows', BlocksIn) == Sum(rows, BlocksIn)
  {
    var b := rows[k].value;
    var d := b.value[i].dom;
    var r := Some(Cleared(b, i, shrink));
    HoldsRow(rows, h, m, k);
    ClearedHolds(b, i, shrink, Part(h, |rows|, m, k));
    PartRemove(h, |rows|, m, d);
    ReplaceRow(rows, h, m, m - {d}, k, r);
    CardMinus(m, d);
    SumUpdate(rows, k, r, UsedIn);
    SumUpdate(rows, k, r, PosIn);
    SumUpdate(rows, k, r, BlocksIn);
  }

  lemma CompactRow(rows: seq<Row>, h: Hash, m: Entries, k: nat)
    requires Represents(rows, h, m) && k < |rows| && rows[k].Some?
    requires Shape(rows[k].value) && UsedOf(rows[k].value) + AHASH_INIT_SIZE <= rows[k].value.size
    ensures var rows' := rows[k := Some(Compacted(rows[k].value))];
            && Represents(rows', h, m)
            && NoHoles(rows'[k])
            && Sum(rows', UsedIn) == Sum(rows, UsedIn)
            && Sum(rows', PosIn) <= Sum(rows, PosIn)
            && Sum(rows', BlocksIn) == Sum(rows, BlocksIn) - 1
  {
    var b := rows[k].value;
    var r := Some(Compacted(b));
    HoldsRow(rows, h, m, k);
    CompactedHolds(b, Part(h, |rows|, m, k));
    ReplaceRow(rows, h, m, m, k, r);
    SumUpdate(rows, k, r, UsedIn);
    SumUpdate(rows, k, r, PosIn);
    SumUpdate(rows, k, r, BlocksIn);
  }

  lemma DropRow(rows: seq<Row>, h: Hash, m: Entries, k: nat)
    requires Represents(rows, h, m) && k < |rows| && rows[k].Some?
    requires Shape(rows[k].value) && UsedOf(rows[k].value) == 0
    ensures var rows' := rows[k := None];
            && Represents(rows', h, m)
            && Sum(rows', UsedIn) == Sum(rows, UsedIn)
            && Sum(rows', PosIn) <= Sum(rows, PosIn)
            && Sum(rows', BlocksIn) == Sum(rows, BlocksIn) - rows[k].value.size / AHASH_INIT_SIZE
  {
    var b := rows[k].value;
    var part := Part(h, |rows|, m, k);
    HoldsRow(rows, h, m, k);
    OnesZero(b.used, b.pos);
    assert forall j :: !InUse(b, j);
    assert part == map[];
    ReplaceRow(rows, h, m, m, k, None);
    SumUpdate(rows, k, None, UsedIn);
    SumUpdate(rows, k, None, PosIn);
    SumUpdate(rows, k, None, BlocksIn);
  }

  // ---------------------------------------------------------------- the set's accounts

  /** Everything a set keeps about its table: contents, element count, memory size and the bound on slots.
      unit is the memory size of one block; starved says that some bucket allocation has failed. */
  ghost predicate Consistent(rows: seq<Row>, h: Hash, m: Entries, elements: nat, extSize: nat, unit: nat,
                             maxelem: nat, starved: bool)
  {
    && Represents(rows, h, m)
    && elements == |m| == Sum(rows, UsedIn)
    && Sum(rows, BlocksIn) * unit <= extSize
    && (!starved ==> Sum(rows, PosIn) <= maxelem + 3 * |rows|)
  }

  /** No bucket has more than three holes unless memory ran out. */
  ghost predicate Tidy(rows: seq<Row>, starved: bool) {
    starved || forall i :: 0 <= i < |rows| ==> FewHoles(rows[i])
  }

  lemma ConsistentShape(rows: seq<Row>, h: Hash, m: Entries, elements: nat, extSize: nat, unit: nat,
                        maxelem: nat, starved: bool, i: nat)
    requires Consistent(rows, h, m, elements, extSize, unit, maxelem, starved) && i < |rows|
    ensures Represents(rows, h, m) && elements == |m|
    ensures Shape(BucketAt(rows[i])) && Holds(BucketAt(rows[i]), Part(h, |rows|, m, i))
    ensures rows[i].None? ==> UsedOf(BucketAt(rows[i])) == 0
    ensures rows[i].Some? ==> UsedIn(rows[i]) == UsedOf(rows[i].value)
  {
    HoldsRow(rows, h, m, i);
  }

  lemma ConsistentCount(rows: seq<Row>, h: Hash, m: Entries, elements: nat, extSize: nat, unit: nat,
                        maxelem: nat, starved: bool, i: nat)
    requires Consistent(rows, h, m, elements, extSize, unit, maxelem, starved) && i < |rows| && rows[i].Some?
    ensures Shape(rows[i].value) && (elements > 0 || forall j :: !InUse(rows[i].value, j))
  {
    HoldsRow(rows, h, m, i);
    SumUpdate(rows, i, None, UsedIn);
    OnesZero(rows[i].value.used, rows[i].value.pos);
  }

  lemma ConsistentEmpty(rows: seq<Row>, h: Hash, unit: nat, maxelem: nat, starved: bool)
    requires |rows| > 0 && forall i :: 0 <= i < |rows| ==> rows[i].None?
    ensures Consistent(rows, h, map[], 0, 0, unit, maxelem, starved) && Tidy(rows, starved)
    ensures Sum(rows, BlocksIn) == 0
  {
    SumNone(rows, UsedIn);
    SumNone(rows, PosIn);
    SumNone(rows, BlocksIn);
  }

  lemma ConsistentStarved(rows: seq<Row>, h: Hash, m: Entries, elements: nat, extSize: nat, unit: nat,
                          maxelem: nat, starved: bool)
    requires Consistent(rows, h, m, elements, extSize, unit, maxelem, starved)
    ensures Consistent(rows, h, m, elements, extSize, unit, maxelem, true)
  {
  }

  lemma ConsistentClear(rows: seq<Row>, h: Hash, m: Entries, elements: nat, extSize: nat, unit: nat,
                        maxelem: nat, starved: bool, k: nat, i: nat, shrink: bool)
    requires Consistent(rows, h, m, elements, extSize, unit, maxelem, starved)
    requires k < |rows| && rows[k].Some? && Shape(rows[k].value) && InUse(rows[k].value, i)
    ensures var d := rows[k].value.value[i].dom;
            var rows' := rows[k := Some(Cleared(rows[k].value, i, shrink))];
            && d in m && m[d] == rows[k].value.value[i] && elements > 0
            && Consistent(rows', h, m - {d}, elements - 1, extSize, unit, maxelem, starved)
            && Sum(rows', PosIn) <= Sum(rows, PosIn)
  {
    ClearRow(rows, h, m, k, i, shrink);
    HoldsRow(rows, h, m, k);
  }

  /** Freeing a bucket gives back its own size, which is never more than was charged for its blocks. */
  lemma ConsistentDrop(rows: seq<Row>, h: Hash, m: Entries, elements: nat, extSize: nat, header: nat, dsize: nat,
                       maxelem: nat, starved: bool, k: nat)
    requires Consistent(rows, h, m, elements, extSize, header + AHASH_INIT_SIZE * dsize, maxelem, starved)
    requires k < |rows| && rows[k].Some? && Shape(rows[k].value) && UsedOf(rows[k].value) == 0
    requires rows[k].value.size > 0
    ensures var rows' := rows[k := None];
            var size := header + rows[k].value.size * dsize;
            && size <= extSize
            && Consistent(rows', h, m, elements, extSize - size, header + AHASH_INIT_SIZE * dsize, maxelem, starved)
            && Sum(rows', PosIn) <= Sum(rows, PosIn)
  {
    hide Consistent, Represents, Sum, Shape, UsedOf;
    var unit := header + AHASH_INIT_SIZE * dsize;
    DropBytes(rows, h, m, elements, extSize, header, dsize, maxelem, starved, k);
    DropCharge(rows, h, m, elements, extSize, unit, maxelem, starved, k, header + rows[k].value.size * dsize);
  }

  lemma WholeBlocks(b: Bucket)
    requires Shape(b)
    ensures b.size % AHASH_INIT_SIZE == 0
  {
  }

  lemma ConsistentBytes(rows: seq<Row>, h: Hash, m: Entries, elements: nat, extSize: nat, unit: nat, maxelem: nat,
                        starved: bool)
    requires Consistent(rows, h, m, elements, extSize, unit, maxelem, starved)
    ensures Represents(rows, h, m) && Sum(rows, BlocksIn) * unit <= extSize
  {
  }

  lemma DropBytes(rows: seq<Row>, h: Hash, m: Entries, elements: nat, extSize: nat, header: nat, dsize: nat,
                  maxelem: nat, starved: bool, k: nat)
    requires Consistent(rows, h, m, elements, extSize, header + AHASH_INIT_SIZE * dsize, maxelem, starved)
    requires k < |rows| && rows[k].Some? && Shape(rows[k].value) && UsedOf(rows[k].value) == 0
    requires rows[k].value.size > 0
    ensures Sum(rows[k := None], BlocksIn) * (header + AHASH_INIT_SIZE * dsize) +
              (header + rows[k].value.size * dsize) <= extSize
    ensures header + rows[k].value.size * dsize <= extSize
  {
    var size := rows[k].value.size;
    WholeBlocks(rows[k].value);
    ConsistentBytes(rows, h, m, elements, extSize, header + AHASH_INIT_SIZE * dsize, maxelem, starved);
    DropRow(rows, h, m, k);
    hide *;
    BlockBytes(Sum(rows, BlocksIn), Sum(rows[k := None], BlocksIn), size, header, dsize, extSize);
  }

  lemma DropCharge(rows: seq<Row>, h: Hash, m: Entries, elements: nat, extSize: nat, unit: nat,
                   maxelem: nat, starved: bool, k: nat, charge: nat)
    requires Consistent(rows, h, m, elements, extSize, unit, maxelem, starved)
    requires k < |rows| && rows[k].Some? && Shape(rows[k].value) && UsedOf(rows[k].value) == 0
    requires charge <= extSize && Sum(rows[k := None], BlocksIn) * unit + charge <= extSize
    ensures Consistent(rows[k := None], h, m, elements, extSize - charge, unit, maxelem, starved)
    ensures Sum(rows[k := None], PosIn) <= Sum(rows, PosIn)
  {
    DropRow(rows, h, m, k);
    hide Represents, Sum, Shape, UsedOf;
  }

  lemma ConsistentCompact(rows: seq<Row>, h: Hash, m: Entries, elements: nat, extSize: nat, unit: nat,
                          maxelem: nat, starved: bool, k: nat)
    requires Consistent(rows, h, m, elements, extSize, unit, maxelem, starved)
    requires k < |rows| && rows[k].Some? && Shape(rows[k].value)
    requires UsedOf(rows[k].value) + AHASH_INIT_SIZE <= rows[k].value.size
    ensures var rows' := rows[k := Some(Compacted(rows[k].value))];
            && unit <= extSize
            && Consistent(rows', h, m, elements, extSize - unit, unit, maxelem, starved)
            && NoHoles(rows'[k])
            && Sum(rows', PosIn) <= Sum(rows, PosIn)
  {
    hide Represents, Sum, Holds, Compacted;
    CompactRow(rows, h, m, k);
    SumUpdate(rows, k, None, BlocksIn);
    BlockLess(Sum(rows, BlocksIn), unit);
  }

  lemma BlockLess(blocks: nat, unit: nat)
    requires blocks > 0
    ensures (blocks - 1) * unit == blocks * unit - unit && unit <= blocks * unit
  {
    assert (blocks - 1) * unit == blocks * unit - unit;
  }

  lemma BlockBytes(blocks: nat, blocks': nat, size: nat, header: nat, dsize: nat, extSize: nat)
    requires 0 < size && size % AHASH_INIT_SIZE == 0
    requires blocks' == blocks - size / AHASH_INIT_SIZE && blocks * (header + AHASH_INIT_SIZE * dsize) <= extSize
    ensures var unit := header + AHASH_INIT_SIZE * dsize;
            blocks' * unit + (header + size * dsize) <= extSize
    ensures header + size * dsize <= extSize
  {
    var unit := header + AHASH_INIT_SIZE * dsize;
    var k := size / AHASH_INIT_SIZE;
    assert header + size * dsize <= k * unit by {
      assert size * dsize == k * (AHASH_INIT_SIZE * dsize);
      assert header <= k * header;
      assert k * unit == k * header + k * (AHASH_INIT_SIZE * dsize);
    }
    assert (blocks - k) * unit == blocks * unit - k * unit;
  }

  lemma TidyFill(rows: seq<Row>, h: Hash, i: nat, s: Slot, starved: bool)
    requires |rows| > 0 && CanFill(rows, h, i, s) && Tidy(rows, starved)
    ensures Tidy(FillTable(rows, h, i, s), starved)
  {
    FillRowSums(rows, h, i, s);
  }

  lemma TidySums(rows: seq<Row>, h: Hash, m: Entries)
    requires Represents(rows, h, m) && Tidy(rows, false)
    ensures Sum(rows, UsedIn) <= Sum(rows, PosIn) <= Sum(rows, UsedIn) + 3 * |rows|
  {
    forall k | 0 <= k < |rows| && rows[k].Some? ensures Shape(rows[k].value) {
      HoldsRow(rows, h, m, k);
    }
    SumHoles(rows);
  }

  /** Filling a slot: one block more if a bucket was created or grown, one entry more unless one was evicted. */
  lemma ConsistentFill(rows: seq<Row>, h: Hash, m: Entries, elements: nat, extSize: nat, unit: nat,
                       maxelem: nat, starved: bool, i: nat, s: Slot)
    requires Consistent(rows, h, m, elements, extSize, unit, maxelem, starved) && Tidy(rows, starved)
    requires CanFill(rows, h, i, s)
    requires i == BucketAt(rows[Key(h, s.dom, |rows|)]).pos ==> elements < maxelem
    ensures var k := Key(h, s.dom, |rows|);
            var b := BucketAt(rows[k]);
            var rows' := FillTable(rows, h, i, s);
            && Consistent(rows', h, Evicted(b, i, m)[s.dom := s],
                          elements + (if InUse(b, i) then 0 else 1),
                          extSize + (if rows[k].None? || i == b.size then unit else 0), unit, maxelem, starved)
            && Sum(rows', PosIn) == Sum(rows, PosIn) + (if i < b.pos then 0 else 1)
  {
    assert |rows| > 0 && Shape(BucketAt(rows[Key(h, s.dom, |rows|)]));
    hide Represents, Sum, Evicted, Shape, CanFill, FillTable, FewHoles, BucketAt, Key;
    FillRow(rows, h, m, i, s);
    FillCount(rows, h, m, i, s);
    FillRowSums(rows, h, i, s);
    if !starved {
      TidySums(rows, h, m);
    }
    var rows' := FillTable(rows, h, i, s);
    ChargeBlock(Sum(rows, BlocksIn), Sum(rows', BlocksIn), extSize, unit);
  }

  lemma ChargeBlock(blocks: nat, blocks': nat, extSize: nat, unit: nat)
    requires blocks * unit <= extSize && blocks <= blocks' <= blocks + 1
    ensures blocks' * unit <= extSize + (if blocks' == blocks then 0 else unit)
  {
    if blocks' == blocks + 1 {
      assert (blocks + 1) * unit == blocks * unit + unit;
    }
  }

  function Pow2(n: nat): (p: nat)
    ensures p > 0
  {
    if n == 0 then 1 else 2 * Pow2(n - 1)
  }

  lemma {:induction false} Pow2Grows(m: nat, n: nat)
    requires m < n
    ensures 2 * Pow2(m) <= Pow2(n)
  {
    if m < n - 1 {
      Pow2Grows(m, n - 1);
    }
  }
}
