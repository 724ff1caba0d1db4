/** The resizable timed hash set: buckets, table and set objects updated in place. */
module HashSet {
  import opened Options
  import opened Timeout
  import opened HashTable
  import opened Sets

  datatype Ret = Success | ErrExist | ErrNoMem | ErrAgain | ErrHashFull

  const ULLONG_MAX: nat := 0xFFFF_FFFF_FFFF_FFFF
  const MAX_HTABLE_BITS: nat := 31

  /** Extensions given with an element; ULLONG_MAX marks an absent counter. */
  datatype Ext = Ext(timeout: U32, bytes: nat, packets: nat, skb: Skbinfo)

  /** Which extensions the set was created with. */
  datatype Features = Features(timeout: bool, counter: bool, skbinfo: bool)

  predicate Dead(f: Features, s: Slot, now: Tick) {
    f.timeout && Expired(s.deadline, now)
  }

  /** The unexpired members. */
  ghost function Live(f: Features, m: Entries, now: Tick): Entries {
    map d | d in m && !Dead(f, m[d], now) :: m[d]
  }

  /** Nothing was lost from m except expired entries. */
  ghost predicate Pruned(f: Features, m: Entries, m': Entries, now: Tick) {
    && (forall d :: d in m' ==> d in m && m'[d] == m[d])
    && (forall d :: d in m && !Dead(f, m[d], now) ==> d in m')
  }

  lemma PrunedOne(f: Features, m: Entries, m': Entries, now: Tick, d: string)
    requires Pruned(f, m, m', now) && d in m' && Dead(f, m'[d], now)
    ensures Pruned(f, m, m' - {d}, now)
  {
  }

  /** What an add finds: a full set first drops its expired entries. */
  ghost function Room(f: Features, maxelem: nat, m: Entries, now: Tick): Entries {
    if |m| >= maxelem && f.timeout then Live(f, m, now) else m
  }

  /** How many entries an add compares with maxelem. */
  ghost function Occupancy(f: Features, maxelem: nat, m: Entries, now: Tick): nat {
    |Room(f, maxelem, m, now)|
  }

  lemma LivePruned(f: Features, m: Entries, m': Entries, now: Tick)
    requires Pruned(f, m, m', now)
    ensures Live(f, m, now) == Live(f, m', now)
  {
  }

  lemma LiveCard(f: Features, m: Entries, now: Tick)
    ensures |Live(f, m, now)| <= |m|
    ensures !f.timeout ==> Live(f, m, now) == m
  {
    CardSubset(Live(f, m, now).Keys, m.Keys);
  }

  /** The names in the first n slots. */
  ghost function FirstNames(b: Bucket, n: nat): set<string>
    requires n <= |b.value|
  {
    set j | 0 <= j < n :: b.value[j].dom
  }

  lemma NameNext(b: Bucket, n: nat)
    requires n < |b.value|
    ensures FirstNames(b, n + 1) == FirstNames(b, n) + {b.value[n].dom}
    ensures b.value[n].dom in FirstNames(b, n) ==> exists j :: 0 <= j < n && b.value[j].dom == b.value[n].dom
  {
  }

  lemma {:induction false} FirstNamesCard(b: Bucket, n: nat)
    requires n <= |b.value| && forall j, k :: 0 <= j < k < n ==> b.value[j].dom != b.value[k].dom
    ensures |FirstNames(b, n)| == n
  {
    if n > 0 {
      FirstNamesCard(b, n - 1);
      NameNext(b, n - 1);
      hide FirstNames;
    }
  }

  /** A bucket full of unexpired entries is that many unexpired members. */
  lemma FullBucket(f: Features, rows: seq<Row>, h: Hash, m: Entries, k: nat, now: Tick)
    requires Represents(rows, h, m) && k < |rows|
    requires var b := BucketAt(rows[k]);
             Shape(b) && forall j :: 0 <= j < b.pos ==> b.used[j] && !Dead(f, b.value[j], now)
    ensures BucketAt(rows[k]).pos <= |Live(f, m, now)|
  {
    var b := BucketAt(rows[k]);
    HoldsRow(rows, h, m, k);
    assert forall j :: 0 <= j < b.pos ==> InUse(b, j);
    FirstNamesCard(b, b.pos);
    CardSubset(FirstNames(b, b.pos), Live(f, m, now).Keys);
  }

  /** The slot written for d over the previous contents of that slot. */
  function NewSlot(f: Features, base: Slot, d: string, ext: Ext, now: Tick): (s: Slot)
    ensures s.dom == d
  {
    Slot(d,
         if f.timeout then TimeoutSet(ext.timeout, now) else base.deadline,
         if f.counter && ext.bytes != ULLONG_MAX then ext.bytes else base.bytes,
         if f.counter && ext.packets != ULLONG_MAX then ext.packets else base.packets,
         if f.skbinfo then ext.skb else base.skb)
  }

  /** Entries other than d: none appear, and only expired ones go. */
  ghost predicate OthersKept(f: Features, m: Entries, m': Entries, d: string, now: Tick) {
    && (forall x :: x in m' && x != d ==> x in m && m'[x] == m[x])
    && (forall x :: x in m && x != d && !Dead(f, m[x], now) ==> x in m')
  }

  /** The first slot from i on that is free or expired, or the high-water mark. */
  ghost function FirstReusable(f: Features, b: Bucket, i: nat, now: Tick): (j: nat)
    requires Shape(b) && i <= b.pos
    ensures i <= j <= b.pos
    ensures j < b.pos ==> !b.used[j] || Dead(f, b.value[j], now)
    ensures forall k :: i <= k < j ==> b.used[k] && !Dead(f, b.value[k], now)
    decreases b.pos - i
  {
    if i == b.pos || !b.used[i] || Dead(f, b.value[i], now) then i else FirstReusable(f, b, i + 1, now)
  }

  /** The slot an add of d writes: the one d is in, else the first reusable one, else a new one. */
  ghost predicate Takes(f: Features, b: Bucket, d: string, now: Tick, i: nat) {
    && Shape(b) && i <= b.pos
    && if HasDom(b, d) then InUse(b, i) && b.value[i].dom == d else i == FirstReusable(f, b, 0, now)
  }

  /** What that slot held before. */
  ghost function SlotAt(b: Bucket, i: nat): Slot {
    if i < |b.value| then b.value[i] else BLANK
  }

  /** The answer of an add that chose slot i in row r; room says that the set is below its size. Only the memory for
      a new or a larger bucket is left to chance. */
  ghost predicate Answered(f: Features, r: Row, d: string, exist: bool, now: Tick, i: nat, room: bool, starved: bool,
                           ret: Ret)
  {
    var b := BucketAt(r);
    && Takes(f, b, d, now, i)
    && if HasDom(b, d) then ret == if exist || Dead(f, b.value[i], now) then Success else ErrExist
       else if i < b.pos then ret == Success
       else if !room then ret == ErrHashFull
       else if r.Some? && i < b.size then ret == Success
       else if r.Some? && b.size == AHASH_MAX_SIZE then ret == ErrAgain
       else ret == Success || (ret == ErrNoMem && starved)
  }

  /** A wider table is asked for only by a bucket of the largest size without a reusable slot, for a name it does not
      hold, while the set has room; the set is full only where no slot can be reused. */
  lemma AnsweredAgain(f: Features, r: Row, d: string, exist: bool, now: Tick, i: nat, room: bool, starved: bool,
                      ret: Ret)
    requires Answered(f, r, d, exist, now, i, room, starved, ret)
    ensures var b := BucketAt(r);
            && Takes(f, b, d, now, i)
            && (ret == ErrHashFull ==> !room)
            && (ret == Success && i == b.pos ==> room && Shape(b) && !HasDom(b, d))
            && (ret == ErrNoMem ==> starved)
            && (ret == ErrAgain ==> room && b.pos == b.size == AHASH_MAX_SIZE)
            && (ret == ErrAgain || ret == ErrHashFull ==>
                  Shape(b) && !HasDom(b, d) && forall k :: 0 <= k < b.pos ==> b.used[k] && !Dead(f, b.value[k], now))
  {
  }

  /** An add of d would reuse a slot that a deleted entry left free. */
  ghost predicate TakesHole(f: Features, b: Bucket, d: string, now: Tick) {
    Shape(b) && !HasDom(b, d) && var j := FirstReusable(f, b, 0, now); j < b.pos && !b.used[j]
  }

  /** Reuse comes before the check of the size: an add leaves more than maxelem entries exactly when there were more,
      or there were as many and the slot it chooses is a hole. */
  lemma OverLimitIff(f: Features, r: Row, d: string, exist: bool, now: Tick, i: nat, maxelem: nat, starved: bool,
                     ret: Ret, n: nat, n': nat)
    requires Answered(f, r, d, exist, now, i, n < maxelem, starved, ret)
    requires Shape(BucketAt(r)) && n' == n + (if ret == Success && !InUse(BucketAt(r), i) then 1 else 0)
    ensures n' > maxelem <==> n > maxelem || (n == maxelem && TakesHole(f, BucketAt(r), d, now))
  {
  }

  lemma BlankAnswered(f: Features, d: string, exist: bool, now: Tick, room: bool, starved: bool, ret: Ret)
    requires if room then ret == Success || (ret == ErrNoMem && starved) else ret == ErrHashFull
    ensures Answered(f, None, d, exist, now, 0, room, starved, ret)
  {
    var b := EmptyBucket(AHASH_INIT_SIZE);
    assert Shape(b) && !HasDom(b, d) && FirstReusable(f, b, 0, now) == 0;
  }

  /** The effect of an add on the stored entries, and its answer. */
  ghost predicate AddEffect(f: Features, m: Entries, m': Entries, d: string, ext: Ext, exist: bool, now: Tick,
                            ret: Ret, base: Slot)
  {
    && OthersKept(f, m, m', d, now)
    && (d in m && !Dead(f, m[d], now) ==> ret == (if exist then Success else ErrExist) && base == m[d])
    && (ret == ErrExist ==> d in m && !Dead(f, m[d], now))
    && (if ret == Success then d in m' && m'[d] == NewSlot(f, base, d, ext, now)
        else Pruned(f, m, m', now))
  }

  /** What a fill of slot i does to the entries, seen as the effect of an add. */
  lemma FillEffect(f: Features, rows: seq<Row>, h: Hash, m: Entries, d: string, ext: Ext, exist: bool, now: Tick,
                   i: nat)
    requires Represents(rows, h, m)
    requires Takes(f, BucketAt(rows[Key(h, d, |rows|)]), d, now, i)
    requires exist || d !in m || Dead(f, m[d], now)
    ensures var b := BucketAt(rows[Key(h, d, |rows|)]);
            var s := NewSlot(f, SlotAt(b, i), d, ext, now);
            AddEffect(f, m, Evicted(b, i, m)[d := s], d, ext, exist, now, Success, SlotAt(b, i))
  {
    FindInRow(rows, h, m, d);
    HoldsRow(rows, h, m, Key(h, d, |rows|));
  }

  /** A table stores one map. */
  lemma RepresentsOnce(rows: seq<Row>, h: Hash, m: Entries, m': Entries)
    requires Represents(rows, h, m) && Represents(rows, h, m')
    ensures m == m'
  {
    forall d ensures (d in m <==> d in m') && (d in m ==> m[d] == m'[d]) {
      FindInRow(rows, h, m, d);
      FindInRow(rows, h, m', d);
      var b := BucketAt(rows[Key(h, d, |rows|)]);
      if HasDom(b, d) {
        var j :| InUse(b, j) && b.value[j].dom == d;
        assert m[d] == b.value[j] == m'[d];
      }
    }
  }

  /** The slot an add chose may be filled. */
  lemma TakenFits(f: Features, rows: seq<Row>, h: Hash, m: Entries, s: Slot, now: Tick, i: nat)
    requires Represents(rows, h, m) && Takes(f, BucketAt(rows[Key(h, s.dom, |rows|)]), s.dom, now, i)
    requires Shape(Filled(BucketAt(rows[Key(h, s.dom, |rows|)]), i, s))
    ensures CanFill(rows, h, i, s)
  {
    HoldsRow(rows, h, m, Key(h, s.dom, |rows|));
  }

  /** A successful add makes one entry more unless it overwrites one, and takes a new slot only at the high-water
      mark. */
  lemma AddedSums(f: Features, rows: seq<Row>, rows': seq<Row>, h: Hash, m: Entries, m': Entries, s: Slot, now: Tick,
                  i: nat)
    requires Represents(rows, h, m) && Takes(f, BucketAt(rows[Key(h, s.dom, |rows|)]), s.dom, now, i)
    requires rows' == rows[Key(h, s.dom, |rows|) := Some(Filled(BucketAt(rows[Key(h, s.dom, |rows|)]), i, s))]
    requires Represents(rows', h, m')
    ensures var b := BucketAt(rows[Key(h, s.dom, |rows|)]);
            && |m'| == |m| + (if InUse(b, i) then 0 else 1)
            && Sum(rows', PosIn) == Sum(rows, PosIn) + (if i < b.pos then 0 else 1)
  {
    var b := BucketAt(rows[Key(h, s.dom, |rows|)]);
    HoldsRow(rows', h, m', Key(h, s.dom, |rows|));
    hide Represents, Sum, Holds, Shape, Filled, Evicted;
    TakenFits(f, rows, h, m, s, now, i);
    hide Takes, CanFill;
    FillRow(rows, h, m, i, s);
    RepresentsOnce(rows', h, m', Evicted(b, i, m)[s.dom := s]);
    FillCount(rows, h, m, i, s);
    FillRowSums(rows, h, i, s);
  }

  function BlankBucket(s: Slot): Bucket {
    var b := EmptyBucket(AHASH_INIT_SIZE);
    Bucket(b.used[0 := true], b.value[0 := s], b.size, 1)
  }

  /** A bucket prepared for an empty row is a fill of that row. */
  lemma FillsBlank(rows: seq<Row>, h: Hash, s: Slot)
    requires |rows| > 0 && rows[Key(h, s.dom, |rows|)].None?
    ensures CanFill(rows, h, 0, s) && FillTable(rows, h, 0, s) == rows[Key(h, s.dom, |rows|) := Some(BlankBucket(s))]
    ensures var b := BucketAt(rows[Key(h, s.dom, |rows|)]);
            Shape(b) && b.pos == 0 && b.size == AHASH_INIT_SIZE && !InUse(b, 0) && forall m :: Evicted(b, 0, m) == m
  {
  }

  lemma ConsistentBlank(rows: seq<Row>, h: Hash, m: Entries, elements: nat, extSize: nat, unit: nat,
                        maxelem: nat, starved: bool, s: Slot)
    requires Consistent(rows, h, m, elements, extSize, unit, maxelem, starved) && Tidy(rows, starved)
    requires |rows| > 0 && rows[Key(h, s.dom, |rows|)].None? && elements < maxelem
    ensures var rows' := rows[Key(h, s.dom, |rows|) := Some(BlankBucket(s))];
            && Consistent(rows', h, m[s.dom := s], elements + 1, extSize + unit, unit, maxelem, starved)
            && Tidy(rows', starved)
            && Sum(rows', PosIn) == Sum(rows, PosIn) + 1
  {
    hide Consistent, Tidy, FillTable, CanFill, Evicted, BlankBucket, Sum;
    FillsBlank(rows, h, s);
    ConsistentFill(rows, h, m, elements, extSize, unit, maxelem, starved, 0, s);
    TidyFill(rows, h, 0, s, starved);
  }

  /** The bucket with slot i written in place. */
  function PlacedBucket(b: Bucket, i: nat, s: Slot): Bucket
    requires i < |b.used| && i < |b.value|
  {
    Bucket(b.used[i := true], b.value[i := s], b.size, if i < b.pos then b.pos else i + 1)
  }

  /** The bucket copied into an array one block larger, with the next slot written. */
  function GrownBucket(b: Bucket, s: Slot): Bucket
    requires b.pos < |b.used| && b.pos <= |b.value|
  {
    Bucket(b.used[b.pos := true], (b.value + Blanks(AHASH_INIT_SIZE))[b.pos := s], b.size + AHASH_INIT_SIZE, b.pos + 1)
  }

  lemma ConsistentPlaced(rows: seq<Row>, h: Hash, m: Entries, elements: nat, extSize: nat, unit: nat,
                         maxelem: nat, starved: bool, b: Bucket, i: nat, s: Slot)
    requires Consistent(rows, h, m, elements, extSize, unit, maxelem, starved) && Tidy(rows, starved)
    requires |rows| > 0 && rows[Key(h, s.dom, |rows|)] == Some(b) && Shape(b) && i <= b.pos && i < b.size
    requires forall j :: InUse(b, j) && j != i ==> b.value[j].dom != s.dom
    requires i == b.pos ==> elements < maxelem
    ensures var rows' := rows[Key(h, s.dom, |rows|) := Some(PlacedBucket(b, i, s))];
            && Consistent(rows', h, Evicted(b, i, m)[s.dom := s], elements + (if InUse(b, i) then 0 else 1), extSize,
                          unit, maxelem, starved)
            && Tidy(rows', starved)
            && Sum(rows', PosIn) == Sum(rows, PosIn) + (if i < b.pos then 0 else 1)
  {
    hide Consistent, Tidy, Sum;
    assert FillTable(rows, h, i, s) == rows[Key(h, s.dom, |rows|) := Some(PlacedBucket(b, i, s))];
    hide FillTable, CanFill, Evicted, PlacedBucket;
    ConsistentFill(rows, h, m, elements, extSize, unit, maxelem, starved, i, s);
    TidyFill(rows, h, i, s, starved);
  }

  lemma ConsistentGrown(rows: seq<Row>, h: Hash, m: Entries, elements: nat, extSize: nat, unit: nat,
                        maxelem: nat, starved: bool, b: Bucket, s: Slot)
    requires Consistent(rows, h, m, elements, extSize, unit, maxelem, starved) && Tidy(rows, starved)
    requires |rows| > 0 && rows[Key(h, s.dom, |rows|)] == Some(b) && Shape(b) && b.pos == b.size < AHASH_MAX_SIZE
    requires forall j :: InUse(b, j) ==> b.value[j].dom != s.dom
    requires elements < maxelem
    ensures var rows' := rows[Key(h, s.dom, |rows|) := Some(GrownBucket(b, s))];
            && Consistent(rows', h, m[s.dom := s], elements + 1, extSize + unit, unit, maxelem, starved)
            && Tidy(rows', starved)
            && Sum(rows', PosIn) == Sum(rows, PosIn) + 1
  {
    hide Consistent, Tidy, Sum;
    assert FillTable(rows, h, b.pos, s) == rows[Key(h, s.dom, |rows|) := Some(GrownBucket(b, s))];
    assert Evicted(b, b.pos, m) == m;
    hide FillTable, CanFill, Evicted, GrownBucket;
    ConsistentFill(rows, h, m, elements, extSize, unit, maxelem, starved, b.pos, s);
    TidyFill(rows, h, b.pos, s, starved);
  }

  lemma TidyStarved(rows: seq<Row>, starved: bool, starved': bool)
    requires Tidy(rows, starved) && (starved ==> starved')
    ensures Tidy(rows, starved')
  {
  }

  lemma PrunedAdd(f: Features, m: Entries, m0: Entries, m': Entries, d: string, ext: Ext, exist: bool, now: Tick,
                  ret: Ret, base: Slot)
    requires Pruned(f, m, m0, now) && AddEffect(f, m0, m', d, ext, exist, now, ret, base)
    ensures AddEffect(f, m, m', d, ext, exist, now, ret, base)
  {
  }

  lemma NoEffect(f: Features, m: Entries, d: string, ext: Ext, exist: bool, now: Tick, ret: Ret, base: Slot)
    requires ret == ErrExist || d !in m || Dead(f, m[d], now)
    requires ret == ErrExist ==> d in m && !Dead(f, m[d], now) && !exist && base == m[d]
    requires ret != Success
    ensures AddEffect(f, m, m, d, ext, exist, now, ret, base)
  {
  }

  /** Slots the loop of an add has passed over. */
  ghost predicate Passed(f: Features, b: Bucket, d: string, now: Tick, i: nat, j: int) {
    && Shape(b) && i <= b.pos
    && (forall k :: 0 <= k < i && InUse(b, k) ==> b.value[k].dom != d)
    && FirstReusable(f, b, 0, now) == (if j == -1 then FirstReusable(f, b, i, now) else j)
    && -1 <= j < i
  }

  lemma PassOne(f: Features, b: Bucket, d: string, now: Tick, i: nat, j: int)
    requires Passed(f, b, d, now, i, j) && i < b.pos
    ensures b.used[i] && b.value[i].dom == d ==> HasDom(b, d) && Takes(f, b, d, now, i) && InUse(b, i)
    ensures !(b.used[i] && b.value[i].dom == d) ==>
              Passed(f, b, d, now, i + 1, if j == -1 && (!b.used[i] || Dead(f, b.value[i], now)) then i else j)
  {
    assert InUse(b, i) <==> b.used[i];
  }

  lemma BlankEffect(f: Features, rows: seq<Row>, h: Hash, m: Entries, d: string, ext: Ext, exist: bool, now: Tick)
    requires Represents(rows, h, m) && rows[Key(h, d, |rows|)].None?
    ensures Takes(f, BucketAt(rows[Key(h, d, |rows|)]), d, now, 0)
    ensures SlotAt(BucketAt(rows[Key(h, d, |rows|)]), 0) == BLANK
    ensures AddEffect(f, m, m[d := NewSlot(f, BLANK, d, ext, now)], d, ext, exist, now, Success, BLANK)
    ensures AddEffect(f, m, m, d, ext, exist, now, ErrHashFull, BLANK)
    ensures AddEffect(f, m, m, d, ext, exist, now, ErrNoMem, BLANK)
  {
    FindInRow(rows, h, m, d);
  }

  lemma GrowEffect(b: Bucket, m: Entries)
    requires Shape(b)
    ensures Evicted(b, b.pos, m) == m
  {
  }

  /** The three ways a bucket is written are one: slot i filled. */
  lemma WaysToFill(b: Bucket, i: nat, s: Slot)
    requires Shape(b) && i <= b.pos
    ensures i < b.size ==> PlacedBucket(b, i, s) == Filled(b, i, s)
    ensures i == b.pos == b.size ==> GrownBucket(b, s) == Filled(b, i, s)
    ensures b == EmptyBucket(AHASH_INIT_SIZE) && i == 0 ==> BlankBucket(s) == Filled(b, i, s)
  {
  }

  lemma SameBits(b: Bucket, i: nat, s: Slot)
    requires Shape(b) && InUse(b, i)
    ensures PlacedBucket(b, i, s) == b.(value := b.value[i := s])
  {
    assert b.used[i := true] == b.used;
  }

  lemma TidyRow(rows: seq<Row>, rows': seq<Row>, k: nat, starved: bool, starved': bool)
    requires Tidy(rows, starved) && (starved ==> starved')
    requires k < |rows| == |rows'| && rows' == rows[k := rows'[k]]
    requires starved' || FewHoles(rows'[k])
    ensures Tidy(rows', starved')
  {
  }

  lemma OnlySlot(b: Bucket, d: string, i: nat, part: Entries)
    requires Holds(b, part) && InUse(b, i) && b.value[i].dom == d
    ensures forall j :: InUse(b, j) && j != i ==> b.value[j].dom != d
  {
  }

  lemma NoSlotFound(f: Features, b: Bucket, d: string, now: Tick, j: int)
    requires Passed(f, b, d, now, b.pos, j)
    ensures !HasDom(b, d) && Takes(f, b, d, now, if j == -1 then b.pos else j)
  {
  }

  const WORD64: nat := 0x1_0000_0000_0000_0000

  /** What a counter comparison asks for; DSET_COUNTER_NONE accepts anything. */
  datatype CounterOp = CounterNone | CounterEq | CounterNe | CounterLt | CounterGt

  function MatchCounter(counter: nat, value: nat, op: CounterOp): bool {
    match op
    case CounterNone => true
    case CounterEq => counter == value
    case CounterNe => counter != value
    case CounterLt => counter < value
    case CounterGt => counter > value
  }

  /** One of less, equal and greater holds, and not equal is the contrary of equal; less is greater seen from the other
      side; and as a counter advances, greater stays true and less stays false. */
  lemma ComparesNumbers(counter: nat, counter': nat, value: nat)
    ensures MatchCounter(counter, value, CounterLt) || MatchCounter(counter, value, CounterEq)
            || MatchCounter(counter, value, CounterGt)
    ensures !(MatchCounter(counter, value, CounterLt) && MatchCounter(counter, value, CounterEq))
    ensures !(MatchCounter(counter, value, CounterGt) && MatchCounter(counter, value, CounterEq))
    ensures !(MatchCounter(counter, value, CounterLt) && MatchCounter(counter, value, CounterGt))
    ensures MatchCounter(counter, value, CounterNe) <==> !MatchCounter(counter, value, CounterEq)
    ensures MatchCounter(counter, counter, CounterEq) && MatchCounter(counter, value, CounterNone)
    ensures MatchCounter(counter, value, CounterLt) <==> MatchCounter(value, counter, CounterGt)
    ensures counter <= counter' && MatchCounter(counter, value, CounterGt) ==> MatchCounter(counter', value, CounterGt)
    ensures counter <= counter' && MatchCounter(counter', value, CounterLt) ==> MatchCounter(counter, value, CounterLt)
  {
  }

  /** Flags and comparison values of a test. */
  datatype TestFlags = TestFlags(matchCounters: bool, skipUpdate: bool,
                                 packets: nat, packetsOp: CounterOp, bytes: nat, bytesOp: CounterOp)

  /** Does the unexpired entry answer the test? */
  predicate Matches(f: Features, s: Slot, fl: TestFlags, now: Tick) {
    && !Dead(f, s, now)
    && (f.counter && fl.matchCounters ==>
          MatchCounter(s.packets, fl.packets, fl.packetsOp) && MatchCounter(s.bytes, fl.bytes, fl.bytesOp))
  }

  /** A counter satisfies what a test asks of it. */
  predicate Satisfies(counter: nat, value: nat, op: CounterOp) {
    && (op.CounterEq? ==> counter == value) && (op.CounterNe? ==> counter != value)
    && (op.CounterLt? ==> counter < value) && (op.CounterGt? ==> counter > value)
  }

  /** An entry answers a test when it has not expired and, in a set with counters, if the test asks for it, both of its
      counters satisfy the test. */
  lemma MatchesMeans(f: Features, s: Slot, fl: TestFlags, now: Tick)
    ensures Matches(f, s, fl, now) <==>
              && !(f.timeout && Expired(s.deadline, now))
              && (f.counter && fl.matchCounters ==>
                    Satisfies(s.packets, fl.packets, fl.packetsOp) && Satisfies(s.bytes, fl.bytes, fl.bytesOp))
  {
  }

  /** Two matches advance the counters as one with the sums; with the flag that says so, or without counters given, none
      advances. */
  lemma BumpsAddUp(f: Features, s: Slot, e1: Ext, e2: Ext, fl: TestFlags)
    requires f.counter && !fl.skipUpdate && e1.packets != ULLONG_MAX && e2.packets != ULLONG_MAX
    requires e1.packets + e2.packets != ULLONG_MAX
    ensures Bumped(f, Bumped(f, s, e1, fl), e2, fl)
            == Bumped(f, s, e1.(bytes := e1.bytes + e2.bytes, packets := e1.packets + e2.packets), fl)
    ensures s.bytes + e1.bytes < WORD64 && s.packets + e1.packets < WORD64 ==>
              Bumped(f, s, e1, fl).bytes - s.bytes == e1.bytes && Bumped(f, s, e1, fl).packets - s.packets == e1.packets
    ensures Bumped(f, s, e1, fl.(skipUpdate := true)) == s && Bumped(f.(counter := false), s, e1, fl) == s
  {
    ModSum(s.bytes, e1.bytes, e2.bytes);
    ModSum(s.packets, e1.packets, e2.packets);
  }

  lemma ModSum(a: nat, b: nat, c: nat)
    ensures ((a + b) % WORD64 + c) % WORD64 == (a + (b + c)) % WORD64
  {
  }

  /** The entry after a matching test: its counters advance modulo 2^64. */
  function Bumped(f: Features, s: Slot, ext: Ext, fl: TestFlags): (t: Slot)
    ensures t.dom == s.dom && t.deadline == s.deadline && t.skb == s.skb
  {
    if f.counter && ext.packets != ULLONG_MAX && !fl.skipUpdate
    then s.(bytes := (s.bytes + ext.bytes) % WORD64, packets := (s.packets + ext.packets) % WORD64)
    else s
  }

  /** A table under construction by a resize: its entries, its memory, and no holes. */
  ghost predicate Rehashed(rows: seq<Row>, h: Hash, done: Entries, ext: nat, unit: nat) {
    && Represents(rows, h, done)
    && Sum(rows, UsedIn) == |done|
    && Sum(rows, BlocksIn) * unit == ext
    && forall i :: 0 <= i < |rows| ==> NoHoles(rows[i])
  }

  lemma RehashedEmpty(rows: seq<Row>, h: Hash, unit: nat)
    requires |rows| > 0 && forall i :: 0 <= i < |rows| ==> rows[i].None?
    ensures Rehashed(rows, h, map[], 0, unit)
  {
    SumNone(rows, UsedIn);
    SumNone(rows, BlocksIn);
  }

  lemma RehashedFill(rows: seq<Row>, h: Hash, done: Entries, ext: nat, unit: nat, s: Slot)
    requires Rehashed(rows, h, done, ext, unit) && s.dom !in done
    requires var b := BucketAt(rows[Key(h, s.dom, |rows|)]);
             Shape(b) && (b.pos == b.size ==> b.size < AHASH_MAX_SIZE)
    ensures var k := Key(h, s.dom, |rows|);
            var b := BucketAt(rows[k]);
            && CanFill(rows, h, b.pos, s)
            && Rehashed(FillTable(rows, h, b.pos, s), h, done[s.dom := s],
                        ext + (if rows[k].None? || b.pos == b.size then unit else 0), unit)
  {
    hide Represents, Sum, Holds, FillTable, CanFill, Shape, UsedOf, Evicted, NoHoles, BucketAt;
    assert |rows| > 0 by { RowsNonempty(rows, h, done); }
    var k := Key(h, s.dom, |rows|);
    var b := BucketAt(rows[k]);
    NextSlotFits(rows, h, done, s);
    FillRow(rows, h, done, b.pos, s);
    FillRowSums(rows, h, b.pos, s);
    FillTight(rows, h, s);
    BlockLess(Sum(rows, BlocksIn) + 1, unit);
  }

  lemma RowsNonempty(rows: seq<Row>, h: Hash, m: Entries)
    requires Represents(rows, h, m)
    ensures |rows| > 0
  {
  }

  /** A name that is not in the table can go into the next slot of its bucket. */
  lemma NextSlotFits(rows: seq<Row>, h: Hash, done: Entries, s: Slot)
    requires Represents(rows, h, done) && s.dom !in done
    requires var b := BucketAt(rows[Key(h, s.dom, |rows|)]);
             Shape(b) && (b.pos == b.size ==> b.size < AHASH_MAX_SIZE)
    ensures var b := BucketAt(rows[Key(h, s.dom, |rows|)]);
            && CanFill(rows, h, b.pos, s) && Evicted(b, b.pos, done) == done && !InUse(b, b.pos)
  {
    hide Represents;
    FindInRow(rows, h, done, s.dom);
  }

  /** And leaves no hole. */
  lemma FillTight(rows: seq<Row>, h: Hash, s: Slot)
    requires |rows| > 0 && forall i :: 0 <= i < |rows| ==> NoHoles(rows[i])
    requires CanFill(rows, h, BucketAt(rows[Key(h, s.dom, |rows|)]).pos, s)
    ensures var rows' := FillTable(rows, h, BucketAt(rows[Key(h, s.dom, |rows|)]).pos, s);
            |rows'| == |rows| && forall i :: 0 <= i < |rows'| ==> NoHoles(rows'[i])
  {
    var k := Key(h, s.dom, |rows|);
    var b := BucketAt(rows[k]);
    FilledUsed(b, b.pos, s);
    EmptyHolds(AHASH_INIT_SIZE);
    hide Filled, Shape, UsedOf, CanFill;
  }

  lemma RehashedSums(rows: seq<Row>, h: Hash, done: Entries, ext: nat, unit: nat)
    requires Rehashed(rows, h, done, ext, unit)
    ensures Sum(rows, BlocksIn) * unit == ext && forall i :: 0 <= i < |rows| ==> NoHoles(rows[i])
  {
  }

  lemma RehashedShape(rows: seq<Row>, h: Hash, done: Entries, ext: nat, unit: nat, k: nat)
    requires Rehashed(rows, h, done, ext, unit) && k < |rows|
    ensures Shape(BucketAt(rows[k]))
  {
    HoldsRow(rows, h, done, k);
  }

  /** The finished table carries the set's accounts over: twice the rows leave room for all used slots. */
  lemma RehashedConsistent(rows: seq<Row>, rows': seq<Row>, h: Hash, m: Entries, elements: nat, extSize: nat, unit: nat,
                           maxelem: nat, starved: bool, ext: nat)
    requires Consistent(rows, h, m, elements, extSize, unit, maxelem, starved) && Tidy(rows, starved)
    requires Rehashed(rows', h, m, ext, unit) && |rows| <= |rows'|
    ensures Consistent(rows', h, m, elements, ext, unit, maxelem, starved) && Tidy(rows', starved)
    ensures Sum(rows', PosIn) == elements
  {
    UsedAtMostPos(rows);
    forall k | 0 <= k < |rows'| && rows'[k].Some? ensures Shape(rows'[k].value) && FewHoles(rows'[k]) {
      HoldsRow(rows', h, m, k);
    }
    SumHoles(rows');
  }

  /** Which entries of the old table have been copied when the scan stands at slot j of bucket i. */
  ghost predicate CopiedTo(m: Entries, done: Entries, h: Hash, rows: seq<Row>, i: nat, j: nat) {
    && |rows| > 0
    && (forall d :: d in done ==> d in m && done[d] == m[d] && Key(h, d, |rows|) <= i)
    && (forall d :: d in m && Key(h, d, |rows|) < i ==> d in done)
    && (i < |rows| && Shape(BucketAt(rows[i])) ==>
          forall k :: InUse(BucketAt(rows[i]), k) ==> (BucketAt(rows[i]).value[k].dom in done <==> k < j))
  }

  lemma CopyStart(m: Entries, h: Hash, rows: seq<Row>)
    requires Represents(rows, h, m)
    ensures CopiedTo(m, map[], h, rows, 0, 0)
  {
  }

  lemma CopyNextBucket(m: Entries, done: Entries, h: Hash, rows: seq<Row>, i: nat)
    requires Represents(rows, h, m) && i < |rows| && CopiedTo(m, done, h, rows, i, BucketAt(rows[i]).pos)
    ensures CopiedTo(m, done, h, rows, i + 1, 0)
  {
    forall d | d in m && Key(h, d, |rows|) == i ensures d in done {
      FindInRow(rows, h, m, d);
      assert HasDom(BucketAt(rows[i]), d);
    }
    if i + 1 < |rows| {
      HoldsRow(rows, h, m, i + 1);
      var b := BucketAt(rows[i + 1]);
      forall k | InUse(b, k) ensures b.value[k].dom !in done {
        assert b.value[k].dom in Part(h, |rows|, m, i + 1);
      }
    }
  }

  lemma CopyStep(m: Entries, done: Entries, h: Hash, rows: seq<Row>, i: nat, j: nat)
    requires Represents(rows, h, m) && i < |rows| && CopiedTo(m, done, h, rows, i, j)
    requires rows[i].Some? && j < rows[i].value.pos
    ensures Shape(rows[i].value)
    ensures !rows[i].value.used[j] ==> CopiedTo(m, done, h, rows, i, j + 1)
    ensures var s := rows[i].value.value[j];
            rows[i].value.used[j] ==> s.dom !in done && CopiedTo(m, done[s.dom := s], h, rows, i, j + 1)
  {
    var b := rows[i].value;
    HoldsRow(rows, h, m, i);
    assert InUse(b, j) <==> b.used[j];
    if b.used[j] {
      var s := b.value[j];
      assert s.dom in Part(h, |rows|, m, i);
    }
  }

  lemma CopyEnd(m: Entries, done: Entries, h: Hash, rows: seq<Row>)
    requires |rows| > 0 && CopiedTo(m, done, h, rows, |rows|, 0)
    ensures done == m
  {
  }

  /** A hash bucket: header, bitmap and inline value array are one allocation. */
  class HBucket {
    var used: seq<bool>
    var value: seq<Slot>
    var size: nat
    var pos: nat

    ghost function V(): Bucket
      reads this
    {
      Bucket(used, value, size, pos)
    }

    constructor (n: nat)
      ensures V() == EmptyBucket(n)
    {
      used := seq(AHASH_MAX_TUNED, _ => false);
      value := Blanks(n);
      size := n;
      pos := 0;
    }
  }

  class HTable {
    const bits: nat
    const bucket: array<HBucket?>
    ghost var rows: seq<Row>
    ghost var chain: set<HBucket>   // every bucket that has been linked here

    ghost predicate Valid()
      reads this, bucket, chain
    {
      && bits <= MAX_HTABLE_BITS
      && |rows| == bucket.Length == Pow2(bits)
      && (forall i :: 0 <= i < bucket.Length ==>
            if bucket[i] == null then rows[i].None?
            else bucket[i] in chain && rows[i] == Some(bucket[i].V()))
      && (forall i, j :: 0 <= i < j < bucket.Length && bucket[i] != null ==> bucket[i] != bucket[j])
    }

    constructor (bits: nat)
      requires bits <= MAX_HTABLE_BITS
      ensures Valid() && this.bits == bits && fresh(bucket)
      ensures chain == {} && forall i :: 0 <= i < |rows| ==> rows[i].None?
    {
      this.bits := bits;
      bucket := new HBucket?[Pow2(bits)](_ => null);
      rows := seq(Pow2(bits), _ => None);
      chain := {};
    }

    /** Publish n (or clear the pointer) in row key. */
    method Link(key: nat, n: HBucket?)
      requires key < bucket.Length && Valid()
      requires n != null ==> forall i :: 0 <= i < bucket.Length && i != key ==> bucket[i] != n
      modifies this`rows, this`chain, bucket
      ensures Valid() && chain == old(chain) + (if n == null then {} else {n})
      ensures rows == old(rows)[key := if n == null then None else Some(n.V())]
      ensures bucket[key] == n
      ensures forall i :: 0 <= i < bucket.Length && i != key ==> bucket[i] == old(bucket[i])
    {
      bucket[key] := n;
      if n != null {
        chain := chain + {n};
      }
      rows := rows[key := if n == null then None else Some(n.V())];
    }

    /** Clear the pointers in all rows. */
    method Clear()
      requires Valid()
      modifies this`rows, this`chain, bucket
      ensures Valid() && chain == old(chain)
      ensures forall k :: 0 <= k < |rows| ==> rows[k].None?
    {
      hide Pow2;
      for i := 0 to bucket.Length
        invariant Valid() && chain == old(chain)
        invariant forall k :: 0 <= k < i ==> rows[k].None?
      {
        Link(i, null);
      }
    }
  }

  /** short: memory has run short, or a wider table could not be had; rows: the width of the table; slots: how many
      slots lie below the high-water marks of its buckets, in use or free. */
  datatype Space = Space(short: bool, rows: nat, slots: nat)

  class DomainSet {
    const hash: Hash
    const maxelem: nat
    const feat: Features
    const header: nat           // sizeof(struct hbucket)
    const dsize: nat
    var table: HTable
    var elements: nat
    var extSize: nat
    ghost var stored: Entries   // what the used slots hold
    ghost var starved: bool     // some bucket allocation has failed
    ghost var refused: bool     // some wider table could not be had

    function ExtSize(n: nat): nat {
      header + n * dsize
    }

    /** Everything but the bound on holes. */
    ghost predicate Core()
      reads this, table, table.bucket, table.chain
    {
      && table.Valid()
      && Consistent(table.rows, hash, stored, elements, extSize, header + AHASH_INIT_SIZE * dsize, maxelem, starved)
    }

    ghost predicate Valid()
      reads this, table, table.bucket, table.chain
    {
      Core() && Tidy(table.rows, starved)
    }

    /** Memory has run short, or a wider table could not be had. */
    ghost predicate Short()
      reads this
    {
      starved || refused
    }

    ghost function Spare(): Space
      reads this, table
    {
      Space(Short(), |table.rows|, Sum(table.rows, PosIn))
    }

    lemma SpareHolds()
      requires Valid()
      ensures |table.rows| == table.bucket.Length > 0 && |stored| <= Sum(table.rows, PosIn)
      ensures !starved ==> Sum(table.rows, PosIn) <= maxelem + 3 * |table.rows|
    {
      UsedAtMostPos(table.rows);
    }

    constructor (hash: Hash, maxelem: nat, feat: Features, bits: nat, header: nat, dsize: nat)
      requires bits <= MAX_HTABLE_BITS
      ensures Valid() && stored == map[] && !starved && !refused
      ensures fresh(table) && fresh(table.bucket) && table.chain == {}
      ensures this.hash == hash && this.maxelem == maxelem && this.feat == feat && table.bits == bits
      ensures forall i :: 0 <= i < |table.rows| ==> table.rows[i].None?
    {
      this.hash := hash;
      this.maxelem := maxelem;
      this.feat := feat;
      this.header := header;
      this.dsize := dsize;
      table := new HTable(bits);
      elements := 0;
      extSize := 0;
      stored := map[];
      starved := false;
      refused := false;
      new;
      ConsistentEmpty(table.rows, hash, header + AHASH_INIT_SIZE * dsize, maxelem, false);
    }

    /** A bucket allocation, which may fail. */
    method Kzalloc() returns (ok: bool)
      requires Core()
      modifies this`starved
      ensures Core() && starved == (old(starved) || !ok)
    {
      hide Consistent;
      ok := *;
      if !ok {
        ConsistentStarved(table.rows, hash, stored, elements, extSize, header + AHASH_INIT_SIZE * dsize, maxelem,
                          starved);
        starved := true;
      }
    }

    /** Destroy all elements. */
    method Flush()
      requires Valid()
      modifies this`elements, this`extSize, this`stored, table`rows, table`chain, table.bucket
      ensures Valid() && table == old(table) && table.chain == old(table.chain)
      ensures stored == map[] && elements == 0 && extSize == 0 && Sum(table.rows, BlocksIn) == 0
      ensures Sum(table.rows, PosIn) == 0
    {
      hide Consistent, Tidy, Sum, HTable.Valid;
      table.Clear();
      elements := 0;
      extSize := 0;
      stored := map[];
      SumNone(table.rows, PosIn);
      TableNonempty();
      ConsistentEmpty(table.rows, hash, header + AHASH_INIT_SIZE * dsize, maxelem, starved);
    }

    lemma TableNonempty()
      requires table.Valid()
      ensures |table.rows| == table.bucket.Length > 0 && table.bits <= MAX_HTABLE_BITS
    {
    }

    /** A copy of the used slots of n in an array one block smaller. */
    method Compact(n: HBucket) returns (tmp: HBucket)
      requires Shape(n.V()) && UsedOf(n.V()) + AHASH_INIT_SIZE <= n.size
      ensures fresh(tmp) && tmp.V() == Compacted(n.V())
    {
      ghost var b := n.V();
      tmp := new HBucket(n.size - AHASH_INIT_SIZE);
      var d := 0;
      CompactNone(b);
      hide Ones, Packed, UsedOf, Compacted;
      for j := 0 to n.pos
        invariant tmp.size == |tmp.value| == b.size - AHASH_INIT_SIZE && |tmp.used| == AHASH_MAX_TUNED
        invariant d == Ones(b.used, j) == |Packed(b, j)| <= UsedOf(b)
        invariant forall k :: 0 <= k < AHASH_MAX_TUNED ==> tmp.used[k] == (k < d)
        invariant tmp.value == Packed(b, j) + Blanks(tmp.size - d)
        modifies tmp
      {
        CompactNext(b, j, tmp.value);
        if n.used[j] {
          tmp.value := tmp.value[d := n.value[j]];
          tmp.used := tmp.used[d := true];
          d := d + 1;
        }
      }
      tmp.pos := d;
      CompactAll(b, tmp.V());
    }

    lemma CompactNone(b: Bucket)
      requires Shape(b) && UsedOf(b) + AHASH_INIT_SIZE <= b.size
      ensures EmptyBucket(b.size - AHASH_INIT_SIZE).value == Packed(b, 0) + Blanks(b.size - AHASH_INIT_SIZE)
    {
    }

    lemma CompactNext(b: Bucket, j: nat, value: seq<Slot>)
      requires Shape(b) && j < b.pos && UsedOf(b) + AHASH_INIT_SIZE <= b.size
      requires Ones(b.used, j) <= |value| == b.size - AHASH_INIT_SIZE
      requires value == Packed(b, j) + Blanks(|value| - Ones(b.used, j))
      ensures Ones(b.used, j + 1) == Ones(b.used, j) + (if b.used[j] then 1 else 0) <= UsedOf(b)
      ensures if b.used[j]
              then Ones(b.used, j) < |value|
                   && value[Ones(b.used, j) := b.value[j]] == Packed(b, j + 1) + Blanks(|value| - Ones(b.used, j + 1))
              else Packed(b, j + 1) == Packed(b, j)
    {
      OnesMonotone(b.used, j + 1, b.pos);
    }

    lemma CompactAll(b: Bucket, c: Bucket)
      requires Shape(b) && UsedOf(b) + AHASH_INIT_SIZE <= b.size && |c.used| == AHASH_MAX_TUNED
      requires c.size == b.size - AHASH_INIT_SIZE && c.pos == Ones(b.used, b.pos)
      requires forall k :: 0 <= k < AHASH_MAX_TUNED ==> c.used[k] == (k < c.pos)
      requires c.pos <= c.size && c.value == Packed(b, b.pos) + Blanks(c.size - c.pos)
      ensures c == Compacted(b)
    {
      assert c.used == Compacted(b).used;
    }

    /** A new bucket whose first slot holds d. */
    method BlankWith(d: string, ext: Ext, now: Tick) returns (n: HBucket)
      ensures fresh(n) && n.V() == BlankBucket(NewSlot(feat, BLANK, d, ext, now))
    {
      n := new HBucket(AHASH_INIT_SIZE);
      n.pos := 1;
      WriteSlot(n, 0, d, ext, now, true);
    }

    method ClearBit(n: HBucket, j: nat, shrink: bool)
      requires Shape(n.V()) && j < n.pos
      modifies n
      ensures n.V() == Cleared(old(n.V()), j, shrink)
    {
      n.used := n.used[j := false];
      if shrink && j + 1 == n.pos {
        n.pos := n.pos - 1;
      }
    }

    /** Clear slot j of bucket n: the entry leaves the set. */
    method ClearSlot(i: nat, n: HBucket, j: nat, shrink: bool)
      requires Core() && i < table.bucket.Length && table.bucket[i] == n
      requires Shape(n.V()) && InUse(n.V(), j)
      modifies this`elements, this`stored, table`rows, n
      ensures Core() && table.bucket[i] == n && n.V() == Cleared(old(n.V()), j, shrink)
      ensures table.rows == old(table.rows)[i := Some(n.V())]
      ensures stored == old(stored) - {old(n.value)[j].dom} && old(n.value)[j].dom in old(stored)
      ensures old(n.value)[j] == old(stored)[old(n.value)[j].dom]
      ensures Sum(table.rows, PosIn) <= Sum(old(table.rows), PosIn)
    {
      var t := table;
      hide Consistent, Sum, UsedOf, Cleared, Pow2;
      ConsistentClear(t.rows, hash, stored, elements, extSize, header + AHASH_INIT_SIZE * dsize, maxelem, starved, i, j,
                      shrink);
      stored := stored - {n.value[j].dom};
      ClearBit(n, j, shrink);
      t.rows := t.rows[i := Some(n.V())];
      elements := elements - 1;
    }

    /** Give back the bucket of row i, which uses no slot. */
    method FreeBucket(i: nat, n: HBucket)
      requires Core() && i < table.bucket.Length && table.bucket[i] == n
      requires Shape(n.V()) && UsedOf(n.V()) == 0 && n.size > 0
      modifies this`extSize, table`rows, table`chain, table.bucket
      ensures table.chain == old(table.chain)
      ensures Core() && table.rows == old(table.rows)[i := None] && table.bucket[i] == null
      ensures forall k :: 0 <= k < table.bucket.Length && k != i ==> table.bucket[k] == old(table.bucket[k])
      ensures Sum(table.rows, PosIn) <= Sum(old(table.rows), PosIn)
    {
      hide Consistent, Sum, UsedOf;
      ConsistentDrop(table.rows, hash, stored, elements, extSize, header, dsize, maxelem, starved, i);
      extSize := extSize - ExtSize(n.size);
      table.Link(i, null);
    }

    /** Replace the bucket of row i by a compacted copy, if there is memory for it. */
    method ShrinkBucket(i: nat, n: HBucket)
      requires Core() && i < table.bucket.Length && table.bucket[i] == n
      requires Shape(n.V()) && UsedOf(n.V()) + AHASH_INIT_SIZE <= n.size
      modifies this`extSize, this`starved, table`rows, table`chain, table.bucket
      ensures fresh(table.chain - old(table.chain))
      ensures Core() && (old(starved) ==> starved)
      ensures starved || NoHoles(table.rows[i])
      ensures if table.bucket[i] == n then table.rows == old(table.rows)
              else table.rows == old(table.rows)[i := Some(Compacted(n.V()))]
      ensures forall k :: 0 <= k < table.bucket.Length && k != i ==> table.bucket[k] == old(table.bucket[k])
      ensures Sum(table.rows, PosIn) <= Sum(old(table.rows), PosIn)
    {
      hide Consistent, Sum, UsedOf, Compacted;
      var ok := Kzalloc();
      if ok {
        ConsistentCompact(table.rows, hash, stored, elements, extSize, header + AHASH_INIT_SIZE * dsize, maxelem,
                          starved, i);
        var tmp := Compact(n);
        extSize := extSize - ExtSize(AHASH_INIT_SIZE);
        table.Link(i, tmp);
      }
    }

    ghost predicate RowAlive(r: Row, now: Tick) {
      r.Some? ==> Shape(r.value) && forall j :: InUse(r.value, j) ==> !Dead(feat, r.value.value[j], now)
    }

    lemma CompactedAlive(b: Bucket, now: Tick)
      requires Shape(b) && UsedOf(b) + AHASH_INIT_SIZE <= b.size
      requires RowAlive(Some(b), now)
      ensures RowAlive(Some(Compacted(b)), now)
    {
      forall k | InUse(Compacted(b), k) ensures !Dead(feat, Compacted(b).value[k], now) {
        var j := PackedFrom(b, b.pos, k);
        assert InUse(b, j);
      }
    }

    /** Clear the bit of one expired entry. */
    method ClearExpired(i: nat, n: HBucket, j: nat, now: Tick, ghost m: Entries)
      requires Core() && i < table.bucket.Length && table.bucket[i] == n
      requires Shape(n.V()) && InUse(n.V(), j) && Dead(feat, n.value[j], now) && Pruned(feat, m, stored, now)
      modifies this`elements, this`stored, table`rows, n
      ensures Core() && table.bucket[i] == n && n.V() == Cleared(old(n.V()), j, false) && Shape(n.V())
      ensures table.rows == old(table.rows)[i := Some(n.V())] && Pruned(feat, m, stored, now)
      ensures Sum(table.rows, PosIn) <= Sum(old(table.rows), PosIn)
      ensures Ones(n.used, j) == Ones(old(n.used), j) && n.pos == old(n.pos)
    {
      hide Consistent, Sum, Holds, Pruned;
      ghost var u, m1, s := n.used, stored, n.value[j];
      ClearSlot(i, n, j, false);
      PrunedOne(feat, m, m1, now, s.dom);
      OnesAgree(u, n.used, j);
    }

    /** The first j slots of bucket n are swept: d of them are holes, and no expired entry is left in them. The entries
        were m and the rows rows0 before. */
    ghost predicate Swept(i: nat, n: HBucket, rows0: seq<Row>, m: Entries, now: Tick, j: nat, d: int)
      reads this, table, table.bucket, table.chain, n
    {
      && Core() && i < |rows0| == table.bucket.Length && table.bucket[i] == n && Shape(n.V()) && j <= n.pos
      && table.rows == rows0[i := Some(n.V())]
      && Pruned(feat, m, stored, now)
      && d == j - Ones(n.used, j)
      && (forall k :: 0 <= k < j && n.used[k] ==> !Dead(feat, n.value[k], now))
      && Sum(table.rows, PosIn) <= Sum(rows0, PosIn)
    }

    lemma SweepBegins(i: nat, n: HBucket, now: Tick)
      requires Core() && i < table.bucket.Length && table.bucket[i] == n
      ensures Swept(i, n, table.rows, stored, now, 0, 0)
    {
      ConsistentShape(table.rows, hash, stored, elements, extSize, header + AHASH_INIT_SIZE * dsize, maxelem, starved,
                      i);
    }

    lemma SweepEnds(i: nat, n: HBucket, rows0: seq<Row>, m: Entries, now: Tick, d: nat)
      requires Swept(i, n, rows0, m, now, n.pos, d)
      ensures Core() && table.bucket[i] == n && Shape(n.V())
      ensures table.rows == rows0[i := Some(n.V())] && RowAlive(Some(n.V()), now)
      ensures d == n.pos - UsedOf(n.V()) && Pruned(feat, m, stored, now)
      ensures Sum(table.rows, PosIn) <= Sum(rows0, PosIn)
    {
    }

    /** Clear the bit of slot j if its entry has expired; hole says that the slot is free now. */
    method SweepSlot(i: nat, n: HBucket, j: nat, now: Tick, ghost rows0: seq<Row>, ghost m: Entries, ghost d: nat)
      returns (hole: bool)
      requires Swept(i, n, rows0, m, now, j, d) && j < n.pos
      modifies this`elements, this`stored, table`rows, n
      ensures Swept(i, n, rows0, m, now, j + 1, d + if hole then 1 else 0) && n.pos == old(n.pos)
    {
      hide Consistent, Sum, Holds, Pruned, Pow2, HTable.Valid;
      hole := !n.used[j];
      if !hole && Dead(feat, n.value[j], now) {
        ClearExpired(i, n, j, now, m);
        hole := true;
      }
    }

    /** Clear the bits of expired entries in bucket n; d counts the holes it ends up with. */
    method DropExpired(i: nat, n: HBucket, now: Tick) returns (d: nat)
      requires Core() && i < table.bucket.Length && table.bucket[i] == n
      modifies this`elements, this`stored, table`rows, n
      ensures Core() && table.bucket[i] == n && Shape(n.V())
      ensures table.rows == old(table.rows)[i := Some(n.V())] && RowAlive(Some(n.V()), now)
      ensures d == n.pos - UsedOf(n.V())
      ensures Pruned(feat, old(stored), stored, now)
      ensures Sum(table.rows, PosIn) <= Sum(old(table.rows), PosIn)
    {
      TableNonempty();
      SweepBegins(i, n, now);
      hide *;
      d := Sweep(i, n, now, table.rows, stored);
      SweepEnds(i, n, old(table.rows), old(stored), now, d);
    }

    method Sweep(i: nat, n: HBucket, now: Tick, ghost rows0: seq<Row>, ghost m: Entries) returns (d: nat)
      requires Swept(i, n, rows0, m, now, 0, 0)
      modifies this`elements, this`stored, table`rows, n
      ensures Swept(i, n, rows0, m, now, n.pos, d)
    {
      hide *;
      d := 0;
      for j := 0 to n.pos
        invariant Swept(i, n, rows0, m, now, j, d) && n.pos == old(n.pos)
        modifies this`elements, this`stored, table`rows, n
      {
        var hole := SweepSlot(i, n, j, now, rows0, m, d);
        if hole {
          d := d + 1;
        }
      }
    }

    /** Drop the expired entries of bucket i, and the space they leave if it is a block or more. */
    method ExpireBucket(i: nat, now: Tick)
      requires Core() && i < table.bucket.Length && table.bucket[i] != null
      modifies this`elements, this`extSize, this`stored, this`starved
      modifies table`rows, table`chain, table.bucket, table.chain
      ensures fresh(table.chain - old(table.chain))
      ensures Core() && (old(starved) ==> starved)
      ensures forall k :: 0 <= k < table.bucket.Length && k != i ==>
                table.bucket[k] == old(table.bucket[k]) && table.rows[k] == old(table.rows)[k]
      ensures Pruned(feat, old(stored), stored, now)
      ensures RowAlive(table.rows[i], now)
      ensures starved || FewHoles(table.rows[i])
      ensures Sum(table.rows, PosIn) <= Sum(old(table.rows), PosIn)
    {
      hide Consistent, Sum, Holds, Compacted;
      var n := table.bucket[i];
      var d := DropExpired(i, n, now);
      if d >= AHASH_INIT_SIZE {
        if d >= n.size {
          FreeBucket(i, n);
        } else {
          ghost var b := n.V();
          ShrinkBucket(i, n);
          CompactedAlive(b, now);
        }
      }
    }

    lemma AllAlive(rows: seq<Row>, m: Entries, now: Tick)
      requires Represents(rows, hash, m) && forall k :: 0 <= k < |rows| ==> RowAlive(rows[k], now)
      ensures forall d :: d in m ==> !Dead(feat, m[d], now)
    {
      forall d | d in m ensures !Dead(feat, m[d], now) {
        FindInRow(rows, hash, m, d);
        var k := Key(hash, d, |rows|);
        assert RowAlive(rows[k], now);
        assert HasDom(BucketAt(rows[k]), d);
      }
    }

    /** The collector: only unexpired entries stay, and a bucket left with a block of holes is freed or packed. */
    method Expire(now: Tick)
      requires Valid()
      modifies this`elements, this`extSize, this`stored, this`starved
      modifies table`rows, table`chain, table.bucket, table.chain
      ensures Valid() && table == old(table) && (old(starved) ==> starved)
      ensures fresh(table.chain - old(table.chain))
      ensures stored == Live(feat, old(stored), now)
      ensures Sum(table.rows, PosIn) <= Sum(old(table.rows), PosIn)
    {
      hide Sum, Holds, Represents;
      var t := table;
      for i := 0 to t.bucket.Length
        invariant Core() && table == t && (old(starved) ==> starved)
        invariant fresh(t.chain - old(t.chain))
        invariant Tidy(t.rows, starved)
        invariant forall k :: 0 <= k < i ==> RowAlive(t.rows[k], now)
        invariant Pruned(feat, old(stored), stored, now)
        invariant Sum(table.rows, PosIn) <= Sum(old(table.rows), PosIn)
      {
        if t.bucket[i] != null {
          ExpireBucket(i, now);
        }
      }
      AllAlive(t.rows, stored, now);
    }

    /** The tail of an add: copy the element unless it is there, overwrite its extensions, mark the slot. */
    method WriteSlot(n: HBucket, j: nat, d: string, ext: Ext, now: Tick, copy: bool)
      requires |n.used| == AHASH_MAX_TUNED && j < |n.value| <= AHASH_MAX_SIZE
      requires copy || n.value[j].dom == d
      modifies n
      ensures n.V() == old(n.V()).(used := old(n.used)[j := true],
                                   value := old(n.value)[j := NewSlot(feat, old(n.value)[j], d, ext, now)])
    {
      var data := n.value[j];
      if copy {
        data := data.(dom := d);
      }
      if feat.counter {
        if ext.bytes != ULLONG_MAX {
          data := data.(bytes := ext.bytes);
        }
        if ext.packets != ULLONG_MAX {
          data := data.(packets := ext.packets);
        }
      }
      if feat.skbinfo {
        data := data.(skb := ext.skb);
      }
      if feat.timeout {
        data := data.(deadline := TimeoutSet(ext.timeout, now));
      }
      n.value := n.value[j := data];
      n.used := n.used[j := true];
    }

    /** A new bucket for an empty row, holding d. */
    method AddBlank(key: nat, d: string, ext: Ext, now: Tick) returns (ok: bool)
      requires Valid() && key == Key(hash, d, |table.rows|) && key < table.bucket.Length
      requires table.bucket[key] == null && elements < maxelem
      modifies this`elements, this`extSize, this`stored, this`starved, table`rows, table`chain, table.bucket
      ensures Valid() && table == old(table) && (old(starved) ==> starved)
      ensures fresh(table.chain - old(table.chain))
      ensures !ok ==> starved && stored == old(stored) && table.rows == old(table.rows)
      ensures ok ==> stored == old(stored)[d := NewSlot(feat, BLANK, d, ext, now)]
      ensures ok ==> table.rows == old(table.rows)[key := Some(BlankBucket(NewSlot(feat, BLANK, d, ext, now)))]
      ensures Sum(table.rows, PosIn) == Sum(old(table.rows), PosIn) + (if ok then 1 else 0)
    {
      hide Consistent, Tidy, BlankBucket, NewSlot, Key, Pow2, Sum;
      ghost var rows := table.rows;
      ok := Kzalloc();
      if !ok {
        TidyStarved(rows, old(starved), starved);
        return;
      }
      var n := BlankWith(d, ext, now);
      extSize := extSize + ExtSize(AHASH_INIT_SIZE);
      ghost var s := NewSlot(feat, BLANK, d, ext, now);
      ConsistentBlank(rows, hash, stored, elements, old(extSize), header + AHASH_INIT_SIZE * dsize, maxelem, starved,
                      s);
      elements := elements + 1;
      stored := stored[d := s];
      table.Link(key, n);
    }

    method Place(n: HBucket, j: nat, d: string, ext: Ext, now: Tick, copy: bool)
      requires Shape(n.V()) && j <= n.pos && j < n.size && (copy || n.value[j].dom == d)
      modifies n
      ensures n.V() == PlacedBucket(old(n.V()), j, NewSlot(feat, SlotAt(old(n.V()), j), d, ext, now))
    {
      hide NewSlot;
      if j == n.pos {
        n.pos := n.pos + 1;
      }
      WriteSlot(n, j, d, ext, now, copy);
    }

    /** Write d into slot j of the bucket in place: a new slot, a reused one, or the one d is in. */
    method AddInPlace(key: nat, n: HBucket, j: nat, d: string, ext: Ext, now: Tick, copy: bool)
      requires Valid() && key == Key(hash, d, |table.rows|) && key < table.bucket.Length && table.bucket[key] == n
      requires Shape(n.V()) && j <= n.pos && j < n.size && (j == n.pos ==> elements < maxelem)
      requires forall k :: InUse(n.V(), k) && k != j ==> n.value[k].dom != d
      requires copy || (InUse(n.V(), j) && n.value[j].dom == d)
      modifies this`elements, this`stored, table`rows, n
      ensures Valid()
      ensures stored == Evicted(old(n.V()), j, old(stored))[d := NewSlot(feat, SlotAt(old(n.V()), j), d, ext, now)]
      ensures var s := NewSlot(feat, SlotAt(old(n.V()), j), d, ext, now);
              table.rows == old(table.rows)[key := Some(PlacedBucket(old(n.V()), j, s))]
      ensures Sum(table.rows, PosIn) == Sum(old(table.rows), PosIn) + (if j < old(n.pos) then 0 else 1)
    {
      hide Consistent, Tidy, NewSlot, Key, Pow2, Sum, Evicted, PlacedBucket;
      ghost var b := n.V();
      ghost var s := NewSlot(feat, SlotAt(b, j), d, ext, now);
      ConsistentPlaced(table.rows, hash, stored, elements, extSize, header + AHASH_INIT_SIZE * dsize, maxelem, starved,
                       b, j, s);
      if copy {
        if n.used[j] {
          ConsistentCount(table.rows, hash, stored, elements, extSize, header + AHASH_INIT_SIZE * dsize, maxelem,
                          starved, key);
          elements := elements - 1;
        }
        elements := elements + 1;
      }
      Place(n, j, d, ext, now, copy);
      stored := Evicted(b, j, stored)[d := s];
      table.rows := table.rows[key := Some(n.V())];
    }

    /** A copy of bucket n one block larger, holding d in its next slot. */
    method GrownWith(n: HBucket, d: string, ext: Ext, now: Tick) returns (m: HBucket)
      requires Shape(n.V()) && n.pos == n.size < AHASH_MAX_SIZE
      ensures fresh(m) && m.V() == GrownBucket(n.V(), NewSlot(feat, BLANK, d, ext, now))
    {
      hide NewSlot;
      m := new HBucket(n.size + AHASH_INIT_SIZE);
      m.used := n.used;
      m.value := n.value + Blanks(AHASH_INIT_SIZE);
      assert m.value[n.pos] == BLANK;
      m.pos := n.pos + 1;
      WriteSlot(m, n.pos, d, ext, now, true);
    }

    /** Grow the full bucket n by a block and add d to it, if there is memory. */
    method AddGrown(key: nat, n: HBucket, d: string, ext: Ext, now: Tick) returns (ok: bool)
      requires Valid() && key == Key(hash, d, |table.rows|) && key < table.bucket.Length && table.bucket[key] == n
      requires Shape(n.V()) && n.pos == n.size < AHASH_MAX_SIZE && elements < maxelem
      requires forall k :: InUse(n.V(), k) ==> n.value[k].dom != d
      modifies this`elements, this`extSize, this`stored, this`starved, table`rows, table`chain, table.bucket
      ensures Valid() && table == old(table) && (old(starved) ==> starved)
      ensures fresh(table.chain - old(table.chain))
      ensures !ok ==> starved && stored == old(stored) && table.rows == old(table.rows)
      ensures ok ==> stored == old(stored)[d := NewSlot(feat, BLANK, d, ext, now)]
      ensures var s := NewSlot(feat, BLANK, d, ext, now);
              ok ==> table.rows == old(table.rows)[key := Some(GrownBucket(old(n.V()), s))]
      ensures Sum(table.rows, PosIn) == Sum(old(table.rows), PosIn) + (if ok then 1 else 0)
    {
      hide Consistent, Tidy, NewSlot, Key, Pow2, Sum, GrownBucket;
      ghost var rows := table.rows;
      ok := Kzalloc();
      if !ok {
        TidyStarved(rows, old(starved), starved);
        return;
      }
      var m := GrownWith(n, d, ext, now);
      extSize := extSize + ExtSize(AHASH_INIT_SIZE);
      ghost var s := NewSlot(feat, BLANK, d, ext, now);
      ConsistentGrown(rows, hash, stored, elements, old(extSize), header + AHASH_INIT_SIZE * dsize, maxelem, starved,
                      n.V(), s);
      elements := elements + 1;
      stored := stored[d := s];
      table.Link(key, m);
    }

    /** Scan bucket n for d, remembering the first slot that could be reused. */
    method Probe(n: HBucket, d: string, now: Tick) returns (hit: bool, reuse: bool, j: nat)
      requires Shape(n.V())
      ensures hit <==> HasDom(n.V(), d)
      ensures Takes(feat, n.V(), d, now, j)
      ensures !hit ==> (reuse <==> j < n.pos)
    {
      hide Takes, FirstReusable, HasDom;
      ghost var b := n.V();
      var i, first := 0, -1;
      while i < n.pos
        invariant Passed(feat, b, d, now, i, first)
      {
        PassOne(feat, b, d, now, i, first);
        if !n.used[i] {
          if first == -1 {
            first := i;
          }
        } else if n.value[i].dom == d {
          return true, false, i;
        } else if Dead(feat, n.value[i], now) && first == -1 {
          first := i;
        }
        i := i + 1;
      }
      NoSlotFound(feat, b, d, now, first);
      return false, first != -1, if first == -1 then n.pos else first;
    }

    /** The bucket holds d in slot j: its extensions are overwritten if that is asked for or the entry has expired. */
    method AddHit(key: nat, n: HBucket, j: nat, d: string, ext: Ext, exist: bool, now: Tick) returns (ret: Ret)
      requires Valid() && key == Key(hash, d, |table.rows|) && key < table.bucket.Length && table.bucket[key] == n
      requires Takes(feat, n.V(), d, now, j) && HasDom(n.V(), d) && Represents(table.rows, hash, stored)
      requires Holds(n.V(), Part(hash, |table.rows|, stored, key))
      modifies this`elements, this`stored, table`rows, n
      ensures Valid()
      ensures ret == if exist || Dead(feat, old(n.value)[j], now) then Success else ErrExist
      ensures AddEffect(feat, old(stored), stored, d, ext, exist, now, ret, SlotAt(old(n.V()), j))
      ensures var s := NewSlot(feat, SlotAt(old(n.V()), j), d, ext, now);
              table.rows == if ret == Success then old(table.rows)[key := Some(Filled(old(n.V()), j, s))]
                            else old(table.rows)
      ensures Sum(table.rows, PosIn) == Sum(old(table.rows), PosIn)
    {
      hide Consistent, Tidy, Sum, NewSlot, FirstReusable, Evicted, Represents, Holds, AddEffect, Filled, PlacedBucket,
           Pow2, Dead;
      ghost var b := n.V();
      FindInRow(table.rows, hash, stored, d);
      HitEntry(b, stored, d, j);
      WaysToFill(b, j, NewSlot(feat, SlotAt(b, j), d, ext, now));
      if exist || Dead(feat, n.value[j], now) {
        FillEffect(feat, table.rows, hash, stored, d, ext, exist, now, j);
        OnlySlot(b, d, j, Part(hash, |table.rows|, stored, key));
        AddInPlace(key, n, j, d, ext, now, false);
        return Success;
      }
      NoEffect(feat, stored, d, ext, exist, now, ErrExist, b.value[j]);
      return ErrExist;
    }

    lemma HitEntry(b: Bucket, m: Entries, d: string, j: nat)
      requires Shape(b) && InUse(b, j) && b.value[j].dom == d
      requires HasDom(b, d) <==> d in m
      requires forall k :: InUse(b, k) && b.value[k].dom == d ==> d in m && m[d] == b.value[k]
      ensures d in m && m[d] == b.value[j] == SlotAt(b, j)
    {
    }

    /** The bucket neither holds d nor has a slot to reuse: a slot above the mark is taken, if one can be had. */
    method AddAbove(key: nat, n: HBucket, d: string, ext: Ext, exist: bool, now: Tick) returns (ret: Ret)
      requires Valid() && key == Key(hash, d, |table.rows|) && key < table.bucket.Length && table.bucket[key] == n
      requires Takes(feat, n.V(), d, now, n.pos) && !HasDom(n.V(), d) && Represents(table.rows, hash, stored)
      modifies this`elements, this`extSize, this`stored, this`starved, table`rows, table`chain, table.bucket, n
      ensures Valid() && table == old(table) && (old(starved) ==> starved)
      ensures fresh(table.chain - old(table.chain))
      ensures Answered(feat, Some(old(n.V())), d, exist, now, old(n.pos), old(elements) < maxelem, starved, ret)
      ensures AddEffect(feat, old(stored), stored, d, ext, exist, now, ret, SlotAt(old(n.V()), old(n.pos)))
      ensures var s := NewSlot(feat, SlotAt(old(n.V()), old(n.pos)), d, ext, now);
              table.rows == if ret == Success then old(table.rows)[key := Some(Filled(old(n.V()), old(n.pos), s))]
                            else old(table.rows)
      ensures ret != Success ==> Sum(table.rows, PosIn) == Sum(old(table.rows), PosIn)
      ensures ret == Success ==> old(elements) < maxelem
    {
      hide Consistent, Tidy, Sum, NewSlot, FirstReusable, Evicted, Represents, Holds, AddEffect, Filled,
           PlacedBucket, GrownBucket, Pow2;
      ghost var b := n.V();
      FindInRow(table.rows, hash, stored, d);
      WaysToFill(b, n.pos, NewSlot(feat, SlotAt(b, n.pos), d, ext, now));
      FillEffect(feat, table.rows, hash, stored, d, ext, exist, now, n.pos);
      if elements >= maxelem {
        NoEffect(feat, stored, d, ext, exist, now, ErrHashFull, SlotAt(b, n.pos));
        return ErrHashFull;
      }
      if n.pos >= n.size {
        if n.size >= AHASH_MAX_SIZE {
          NoEffect(feat, stored, d, ext, exist, now, ErrAgain, SlotAt(b, n.pos));
          return ErrAgain;
        }
        NoEffect(feat, stored, d, ext, exist, now, ErrNoMem, SlotAt(b, n.pos));
        GrowEffect(b, stored);
        var ok := AddGrown(key, n, d, ext, now);
        return if ok then Success else ErrNoMem;
      }
      AddInPlace(key, n, n.pos, d, ext, now, true);
      ret := Success;
    }

    /** Find the slot for d in its bucket and write it there. */
    method AddToBucket(key: nat, n: HBucket, d: string, ext: Ext, exist: bool, now: Tick)
      returns (ret: Ret, ghost slot: nat)
      requires Valid() && key == Key(hash, d, |table.rows|) && key < table.bucket.Length && table.bucket[key] == n
      modifies this`elements, this`extSize, this`stored, this`starved, table`rows, table`chain, table.bucket, n
      ensures Valid() && table == old(table) && (old(starved) ==> starved)
      ensures fresh(table.chain - old(table.chain))
      ensures Answered(feat, Some(old(n.V())), d, exist, now, slot, old(elements) < maxelem, starved, ret)
      ensures Shape(old(n.V())) && slot <= old(n.pos)
      ensures AddEffect(feat, old(stored), stored, d, ext, exist, now, ret, SlotAt(old(n.V()), slot))
      ensures var s := NewSlot(feat, SlotAt(old(n.V()), slot), d, ext, now);
              table.rows == if ret == Success then old(table.rows)[key := Some(Filled(old(n.V()), slot, s))]
                            else old(table.rows)
      ensures old(elements) >= maxelem ==> Sum(table.rows, PosIn) <= Sum(old(table.rows), PosIn)
    {
      hide Consistent, Tidy, Sum, NewSlot, FirstReusable, Evicted, Represents, Holds, AddEffect, Filled, PlacedBucket,
           Pow2, Dead;
      ghost var b := n.V();
      ConsistentShape(table.rows, hash, stored, elements, extSize, header + AHASH_INIT_SIZE * dsize, maxelem, starved,
                      key);
      var hit, reuse, j := Probe(n, d, now);
      slot := j;
      if hit {
        ret := AddHit(key, n, j, d, ext, exist, now);
      } else if reuse {
        WaysToFill(b, j, NewSlot(feat, SlotAt(b, j), d, ext, now));
        FindInRow(table.rows, hash, stored, d);
        FillEffect(feat, table.rows, hash, stored, d, ext, exist, now, j);
        AddInPlace(key, n, j, d, ext, now, true);
        ret := Success;
      } else {
        ret := AddAbove(key, n, d, ext, exist, now);
      }
    }

    /** The table once slot i of d's bucket is written. */
    ghost function Inserted(rows: seq<Row>, i: nat, d: string, ext: Ext, now: Tick): seq<Row>
      requires |rows| > 0 && Shape(BucketAt(rows[Key(hash, d, |rows|)])) &&
               i <= BucketAt(rows[Key(hash, d, |rows|)]).pos
    {
      var b := BucketAt(rows[Key(hash, d, |rows|)]);
      rows[Key(hash, d, |rows|) := Some(Filled(b, i, NewSlot(feat, SlotAt(b, i), d, ext, now)))]
    }

    /** A full set first drops its expired elements. */
    method MakeRoom(now: Tick)
      requires Valid()
      modifies this`elements, this`extSize, this`stored, this`starved
      modifies table`rows, table`chain, table.bucket, table.chain
      ensures Valid() && table == old(table) && (old(starved) ==> starved)
      ensures fresh(table.chain - old(table.chain))
      ensures Pruned(feat, old(stored), stored, now)
      ensures stored == Room(feat, maxelem, old(stored), now)
      ensures elements == |stored| == Occupancy(feat, maxelem, old(stored), now)
      ensures |old(stored)| < maxelem || !feat.timeout ==> table.rows == old(table.rows)
      ensures Sum(table.rows, PosIn) <= Sum(old(table.rows), PosIn)
    {
      hide Consistent, Tidy, Sum;
      ConsistentSize();
      if elements >= maxelem {
        if feat.timeout {
          Expire(now);
          ConsistentSize();
        }
      }
    }

    lemma ConsistentSize()
      requires Core()
      ensures elements == |stored| && |table.rows| > 0
    {
    }

    /** An add to the table as it is. */
    method AddHere(d: string, ext: Ext, exist: bool, now: Tick) returns (ret: Ret, ghost slot: nat)
      requires Valid()
      modifies this`elements, this`extSize, this`stored, this`starved
      modifies table`rows, table`chain, table.bucket, table.chain
      ensures Valid() && table == old(table) && (old(starved) ==> starved)
      ensures fresh(table.chain - old(table.chain)) && |table.rows| == |old(table.rows)| > 0
      ensures Answered(feat, old(table.rows)[Key(hash, d, |table.rows|)], d, exist, now, slot, |old(stored)| < maxelem,
                       starved, ret)
      ensures var b := BucketAt(old(table.rows)[Key(hash, d, |table.rows|)]);
              && Shape(b) && slot <= b.pos
              && AddEffect(feat, old(stored), stored, d, ext, exist, now, ret, SlotAt(b, slot))
      ensures table.rows == if ret == Success then Inserted(old(table.rows), slot, d, ext, now) else old(table.rows)
      ensures Represents(old(table.rows), hash, old(stored)) && Represents(table.rows, hash, stored)
    {
      hide Consistent, Tidy, Sum, NewSlot, Takes, FirstReusable, Evicted, AddEffect, Answered,
           Represents, Holds, Shape, EmptyBucket;
      slot := 0;
      ghost var rows, m := table.rows, stored;
      var key := hash(d) % table.bucket.Length;
      var n := table.bucket[key];
      ConsistentShape(rows, hash, m, elements, extSize, header + AHASH_INIT_SIZE * dsize, maxelem, starved, key);
      if n == null {
        BlankEffect(feat, rows, hash, m, d, ext, exist, now);
        WaysToFill(EmptyBucket(AHASH_INIT_SIZE), 0, NewSlot(feat, BLANK, d, ext, now));
        if elements >= maxelem {
          ret := ErrHashFull;
        } else {
          var ok := AddBlank(key, d, ext, now);
          ret := if ok then Success else ErrNoMem;
        }
        BlankAnswered(feat, d, exist, now, |m| < maxelem, starved, ret);
      } else {
        ret, slot := AddToBucket(key, n, d, ext, exist, now);
      }
      ConsistentShape(table.rows, hash, stored, elements, extSize, header + AHASH_INIT_SIZE * dsize, maxelem, starved,
                      key);
    }

    /** Add an element, or report why not. The ghost results give the table the slot was chosen in, after
        expired entries of a full set were dropped, and the slot. */
    method Add(d: string, ext: Ext, exist: bool, now: Tick)
      returns (ret: Ret, ghost mid: seq<Row>, ghost slot: nat)
      requires Valid()
      modifies this`elements, this`extSize, this`stored, this`starved
      modifies table`rows, table`chain, table.bucket, table.chain
      ensures Valid() && table == old(table) && (old(starved) ==> starved)
      ensures fresh(table.chain - old(table.chain))
      ensures |mid| == |table.rows| && Represents(mid, hash, Room(feat, maxelem, old(stored), now))
      ensures Answered(feat, mid[Key(hash, d, |mid|)], d, exist, now, slot,
                       Occupancy(feat, maxelem, old(stored), now) < maxelem, starved, ret)
      ensures var b := BucketAt(mid[Key(hash, d, |mid|)]);
              Shape(b) && slot <= b.pos
      ensures AddEffect(feat, old(stored), stored, d, ext, exist, now, ret,
                        SlotAt(BucketAt(mid[Key(hash, d, |mid|)]), slot))
      ensures |old(stored)| < maxelem || !feat.timeout ==> mid == old(table.rows)
      ensures table.rows == if ret == Success then Inserted(mid, slot, d, ext, now) else mid
      ensures ret == ErrHashFull ==> Occupancy(feat, maxelem, old(stored), now) >= maxelem
      ensures ret == ErrNoMem ==> starved
      ensures ret == ErrAgain ==> Occupancy(feat, maxelem, old(stored), now) < maxelem
      ensures ret == ErrAgain ==> AHASH_MAX_SIZE <= |Live(feat, old(stored), now)|
      ensures |stored| == Occupancy(feat, maxelem, old(stored), now)
                + (if ret == Success && !InUse(BucketAt(mid[Key(hash, d, |mid|)]), slot) then 1 else 0)
      ensures |stored| > maxelem <==>
                var n := Occupancy(feat, maxelem, old(stored), now);
                n > maxelem || (n == maxelem && TakesHole(feat, BucketAt(mid[Key(hash, d, |mid|)]), d, now))
      ensures Sum(mid, PosIn) <= Sum(old(table.rows), PosIn)
      ensures Sum(table.rows, PosIn) ==
              Sum(mid, PosIn) + (if ret == Success && slot == BucketAt(mid[Key(hash, d, |mid|)]).pos then 1 else 0)
      ensures ret == Success && slot == BucketAt(mid[Key(hash, d, |mid|)]).pos ==>
                Occupancy(feat, maxelem, old(stored), now) < maxelem
                && (d in old(stored) ==> Dead(feat, old(stored)[d], now))
      ensures Occupancy(feat, maxelem, old(stored), now) >= maxelem ==>
                Sum(table.rows, PosIn) <= Sum(old(table.rows), PosIn)
    {
      hide Consistent, Tidy, Sum, NewSlot, Takes, FirstReusable, Evicted, AddEffect, Answered,
           Represents, Holds, Occupancy, Room, Pruned, Shape, EmptyBucket, Live, Filled, Key, InUse, TakesHole;
      MakeRoom(now);
      ghost var m0 := stored;
      mid := table.rows;
      ret, slot := AddHere(d, ext, exist, now);
      AddFacts(mid, old(stored), m0, d, ext, exist, now, ret, slot);
    }

    lemma AbsentDead(m: Entries, m0: Entries, d: string, now: Tick)
      requires Pruned(feat, m, m0, now)
      ensures d in m && d !in m0 ==> Dead(feat, m[d], now)
    {
    }

    /** What an add to the table mid, which holds m0, amounts to. */
    lemma AddFacts(mid: seq<Row>, m: Entries, m0: Entries, d: string, ext: Ext, exist: bool, now: Tick, ret: Ret,
                   i: nat)
      requires Represents(mid, hash, m0) && Represents(table.rows, hash, stored) && Pruned(feat, m, m0, now)
      requires Answered(feat, mid[Key(hash, d, |mid|)], d, exist, now, i, |m0| < maxelem, starved, ret)
      requires var b := BucketAt(mid[Key(hash, d, |mid|)]);
               && Shape(b) && i <= b.pos
               && AddEffect(feat, m0, stored, d, ext, exist, now, ret, SlotAt(b, i))
      requires table.rows == if ret == Success then Inserted(mid, i, d, ext, now) else mid
      ensures var b := BucketAt(mid[Key(hash, d, |mid|)]);
              && AddEffect(feat, m, stored, d, ext, exist, now, ret, SlotAt(b, i))
              && |stored| == |m0| + (if ret == Success && !InUse(b, i) then 1 else 0)
              && Sum(table.rows, PosIn) == Sum(mid, PosIn) + (if ret == Success && i == b.pos then 1 else 0)
              && (ret == Success && i == b.pos ==> |m0| < maxelem && (d in m ==> Dead(feat, m[d], now)))
              && (|stored| > maxelem <==> |m0| > maxelem || (|m0| == maxelem && TakesHole(feat, b, d, now)))
      ensures ret == ErrHashFull ==> |m0| >= maxelem
      ensures ret == ErrNoMem ==> starved
      ensures ret == ErrAgain ==> |m0| < maxelem && AHASH_MAX_SIZE <= |Live(feat, m, now)|
    {
      var key := Key(hash, d, |mid|);
      var b := BucketAt(mid[key]);
      AbsentDead(m, m0, d, now);
      hide Represents, Answered, AddEffect, Shape, Sum, NewSlot, Pruned, Filled, Takes, TakesHole, Live, Dead, Key;
      AnsweredAgain(feat, mid[key], d, exist, now, i, |m0| < maxelem, starved, ret);
      PrunedAdd(feat, m, m0, stored, d, ext, exist, now, ret, SlotAt(b, i));
      FindInRow(mid, hash, m0, d);
      LivePruned(feat, m, m0, now);
      if ret == ErrAgain {
        FullBucket(feat, mid, hash, m0, key, now);
      }
      if ret == Success {
        AddedSums(feat, mid, table.rows, hash, m0, stored, NewSlot(feat, SlotAt(b, i), d, ext, now), now, i);
      } else {
        RepresentsOnce(mid, hash, m0, stored);
      }
      OverLimitIff(feat, mid[key], d, exist, now, i, maxelem, starved, ret, |m0|, |stored|);
    }

    /** Take out an unexpired entry. A bucket that is left empty goes, one with a block of holes is packed. */
    method Del(d: string, now: Tick) returns (ret: Ret, ghost slot: nat)
      requires Valid()
      modifies this`elements, this`extSize, this`stored, this`starved
      modifies table`rows, table`chain, table.bucket, table.chain
      ensures Valid() && table == old(table) && (old(starved) ==> starved)
      ensures fresh(table.chain - old(table.chain))
      ensures ret == (if d in old(stored) && !Dead(feat, old(stored)[d], now) then Success else ErrExist)
      ensures stored == if ret == Success then old(stored) - {d} else old(stored)
      ensures ret != Success ==> table.rows == old(table.rows)
      ensures ret == Success ==>
                var key := Key(hash, d, |table.rows|);
                var b := BucketAt(old(table.rows)[key]);
                Shape(b) && InUse(b, slot) && b.value[slot].dom == d && Removed(old(table.rows), table.rows, key, slot)
      ensures Sum(table.rows, PosIn) <= Sum(old(table.rows), PosIn)
    {
      hide Consistent, Sum, Represents, Holds, Compacted, UsedOf, Removed;
      slot := 0;
      ghost var rows := table.rows;
      ConsistentSize();
      var key := hash(d) % table.bucket.Length;
      var n := table.bucket[key];
      ConsistentShape(rows, hash, stored, elements, extSize, header + AHASH_INIT_SIZE * dsize, maxelem, starved, key);
      FindInRow(rows, hash, stored, d);
      if n == null {
        return ErrExist, slot;
      }
      var hit, i, k := FindToDelete(n, d, now);
      if !hit {
        return ErrExist, slot;
      }
      slot := i;
      DelSlot(key, n, i, k);
      ret := Success;
    }

    /** Bucket key without slot i: freed if that was all it had, compacted (memory permitting) if a block is free. */
    ghost predicate Removed(rows: seq<Row>, rows': seq<Row>, key: nat, i: nat)
      requires key < |rows| && Shape(BucketAt(rows[key])) && InUse(BucketAt(rows[key]), i)
    {
      var c := Cleared(BucketAt(rows[key]), i, true);
      && Shape(c)
      && if c.pos == 0 then rows' == rows[key := None]
         else if c.pos >= UsedOf(c) + AHASH_INIT_SIZE then
           rows' == rows[key := Some(c)] || rows' == rows[key := Some(Compacted(c))]
         else rows' == rows[key := Some(c)]
    }

    /** Look for an unexpired d in bucket n; k counts the holes before it. */
    method FindToDelete(n: HBucket, d: string, now: Tick) returns (hit: bool, i: nat, k: nat)
      requires Shape(n.V())
      requires forall i, j :: InUse(n.V(), i) && InUse(n.V(), j) && n.value[i].dom == n.value[j].dom ==> i == j
      ensures hit ==> InUse(n.V(), i) && n.value[i].dom == d && !Dead(feat, n.value[i], now) && k == i - Ones(n.used, i)
      ensures !hit ==> forall j :: InUse(n.V(), j) && n.value[j].dom == d ==> Dead(feat, n.value[j], now)
    {
      i, k := 0, 0;
      while i < n.pos
        invariant i <= n.pos && k == i - Ones(n.used, i)
        invariant forall j :: 0 <= j < i && InUse(n.V(), j) ==> n.value[j].dom != d
      {
        if !n.used[i] {
          k := k + 1;
        } else if n.value[i].dom == d {
          assert InUse(n.V(), i);
          return !Dead(feat, n.value[i], now), i, k;
        }
        i := i + 1;
      }
      hit := false;
    }

    /** Clear slot i of bucket n, then free or compact the bucket if its holes allow it. */
    method DelSlot(key: nat, n: HBucket, i0: nat, k0: nat)
      requires Valid() && key < table.bucket.Length && table.bucket[key] == n
      requires Shape(n.V()) && InUse(n.V(), i0) && k0 == i0 - Ones(n.used, i0)
      modifies this`elements, this`extSize, this`stored, this`starved, table`rows, table`chain, table.bucket, n
      ensures Valid() && table == old(table) && (old(starved) ==> starved)
      ensures fresh(table.chain - old(table.chain))
      ensures stored == old(stored) - {old(n.value)[i0].dom}
      ensures Removed(old(table.rows), table.rows, key, i0)
      ensures Sum(table.rows, PosIn) <= Sum(old(table.rows), PosIn)
    {
      hide Consistent, Sum, Represents, Holds, Compacted;
      ghost var u := n.used;
      ClearSlot(key, n, i0, true);
      ClearedUsed(old(n.V()), i0, true);
      OnesAgree(u, n.used, i0);
      ghost var rows := table.rows;
      var k := k0;
      for i := i0 to n.pos
        invariant k == i - Ones(n.used, i)
      {
        if !n.used[i] {
          k := k + 1;
        }
      }
      if n.pos == 0 && k == 0 {
        FreeBucket(key, n);
        TidyRow(old(table.rows), table.rows, key, old(starved), starved);
      } else if k >= AHASH_INIT_SIZE {
        ShrinkBucket(key, n);
        TidyRow(old(table.rows), table.rows, key, old(starved), starved);
      } else {
        TidyRow(old(table.rows), table.rows, key, old(starved), starved);
      }
    }

    /** Test whether the element is in the set; a match advances its counters. */
    method Test(d: string, ext: Ext, fl: TestFlags, now: Tick) returns (ret: bool)
      requires Valid()
      modifies this`stored, table`rows, table.chain
      ensures Valid()
      ensures ret <==> d in old(stored) && Matches(feat, old(stored)[d], fl, now)
      ensures ret <==>
                && d in old(stored) && !(feat.timeout && Expired(old(stored)[d].deadline, now))
                && (feat.counter && fl.matchCounters ==>
                      && Satisfies(old(stored)[d].packets, fl.packets, fl.packetsOp)
                      && Satisfies(old(stored)[d].bytes, fl.bytes, fl.bytesOp))
      ensures stored == if ret then old(stored)[d := Bumped(feat, old(stored)[d], ext, fl)] else old(stored)
      ensures Sum(table.rows, PosIn) == Sum(old(table.rows), PosIn)
    {
      hide Consistent, Tidy, Sum, Represents, Holds, Bumped, Matches, Satisfies;
      if d in stored {
        MatchesMeans(feat, stored[d], fl, now);
      }
      ConsistentSize();
      var key := hash(d) % table.bucket.Length;
      var n := table.bucket[key];
      ConsistentShape(table.rows, hash, stored, elements, extSize, header + AHASH_INIT_SIZE * dsize, maxelem, starved,
                      key);
      FindInRow(table.rows, hash, stored, d);
      if n == null {
        return false;
      }
      for i := 0 to n.pos
        invariant Valid() && stored == old(stored) && n.V() == old(n.V()) && table.rows == old(table.rows)
        invariant forall j :: 0 <= j < i && InUse(n.V(), j) && n.value[j].dom == d ==>
            !Matches(feat, n.value[j], fl, now)
      {
        if n.used[i] && n.value[i].dom == d {
          assert InUse(n.V(), i);
          if Matches(feat, n.value[i], fl, now) {
            BumpSlot(key, n, i, ext, fl);
            return true;
          }
        }
      }
      return false;
    }

    method BumpSlot(key: nat, n: HBucket, i: nat, ext: Ext, fl: TestFlags)
      requires Valid() && key < table.bucket.Length && table.bucket[key] == n
      requires Shape(n.V()) && InUse(n.V(), i) && key == Key(hash, n.value[i].dom, |table.rows|)
      requires Holds(n.V(), Part(hash, |table.rows|, stored, key))
      modifies this`stored, table`rows, n
      ensures Valid()
      ensures stored == old(stored)[old(n.value)[i].dom := Bumped(feat, old(n.value)[i], ext, fl)]
      ensures Sum(table.rows, PosIn) == Sum(old(table.rows), PosIn)
    {
      hide Consistent, Tidy, Sum, Represents, Bumped, PlacedBucket, Key, Pow2;
      ghost var b := n.V();
      var s := Bumped(feat, n.value[i], ext, fl);
      OnlySlot(b, s.dom, i, Part(hash, |table.rows|, stored, key));
      ConsistentPlaced(table.rows, hash, stored, elements, extSize, header + AHASH_INIT_SIZE * dsize, maxelem, starved,
                       b, i, s);
      assert Evicted(b, i, stored)[s.dom := s] == stored[s.dom := s];
      SameBits(b, i, s);
      n.value := n.value[i := s];
      stored := stored[s.dom := s];
      table.rows := table.rows[key := Some(n.V())];
    }

    /** Copy one slot into the table being built; a bucket beyond the largest size asks for a wider table. */
    method RehashOne(t: HTable, data: Slot, ghost done: Entries, extsize: nat) returns (ret: Ret, extsize': nat)
      requires Core() && t != table && t.Valid()
      requires Rehashed(t.rows, hash, done, extsize, header + AHASH_INIT_SIZE * dsize) && data.dom !in done
      modifies this`starved, t`rows, t`chain, t.bucket, t.chain
      requires t.bucket != table.bucket && t.chain !! table.chain
      ensures Core() && (old(starved) ==> starved)
      ensures t.Valid() && fresh(t.chain - old(t.chain))
      ensures ret in {Success, ErrNoMem, ErrAgain} && (ret == ErrNoMem ==> starved)
      ensures ret == Success ==>
                Rehashed(t.rows, hash, done[data.dom := data], extsize', header + AHASH_INIT_SIZE * dsize)
    {
      hide Consistent, Sum, Represents, Rehashed, CanFill, Pow2, Tidy, Shape, Filled;
      ghost var rows := t.rows;
      var key := hash(data.dom) % t.bucket.Length;
      RehashedShape(t.rows, hash, done, extsize, header + AHASH_INIT_SIZE * dsize, key);
      ret, extsize' := Success, extsize;
      var m := t.bucket[key];
      if m != null && m.pos >= m.size && m.size >= AHASH_MAX_SIZE {
        return ErrAgain, extsize';
      }
      RehashedFill(t.rows, hash, done, extsize, header + AHASH_INIT_SIZE * dsize, data);
      if m == null || m.pos >= m.size {
        var ok := Kzalloc();
        if !ok {
          return ErrNoMem, extsize';
        }
        m := LargerBucket(m, data);
        extsize' := extsize + ExtSize(AHASH_INIT_SIZE);
        t.Link(key, m);
      } else {
        AppendFills(m.V(), data);
        AppendTo(t, key, m, data);
      }
    }

    lemma AppendFills(b: Bucket, data: Slot)
      requires Shape(b) && b.pos < b.size
      ensures |b.used| == AHASH_MAX_TUNED && b.pos < |b.value| == b.size <= AHASH_MAX_SIZE
      ensures Filled(b, b.pos, data)
              == Bucket(b.used[b.pos := true], b.value[b.pos := data], b.size, b.pos + 1)
    {
    }

    method AppendTo(t: HTable, key: nat, m: HBucket, data: Slot)
      requires t.Valid() && key < t.bucket.Length && t.bucket[key] == m
      requires |m.used| == AHASH_MAX_TUNED && m.pos < |m.value| == m.size <= AHASH_MAX_SIZE
      modifies m, t`rows
      ensures t.Valid() && t.bucket[key] == m && |old(t.rows)| == t.bucket.Length
      ensures m.V() == Bucket(old(m.used)[old(m.pos) := true], old(m.value)[old(m.pos) := data], old(m.size),
                              old(m.pos) + 1)
      ensures t.rows == old(t.rows)[key := Some(m.V())]
    {
      hide Pow2;
      Append(m, data);
      t.rows := t.rows[key := Some(m.V())];
    }

    /** A bucket one block larger than m, or an initial one, with data in its next slot. */
    method LargerBucket(m: HBucket?, data: Slot) returns (ht: HBucket)
      requires m != null ==> Shape(m.V()) && m.pos == m.size < AHASH_MAX_SIZE
      ensures fresh(ht)
      ensures var b := if m == null then EmptyBucket(AHASH_INIT_SIZE) else m.V();
              Shape(b) && ht.V() == Filled(b, b.pos, data)
    {
      if m == null {
        ht := new HBucket(AHASH_INIT_SIZE);
      } else {
        ht := new HBucket(m.size + AHASH_INIT_SIZE);
        ht.used, ht.value, ht.pos := m.used, m.value + Blanks(AHASH_INIT_SIZE), m.pos;
      }
      Append(ht, data);
    }

    method Append(m: HBucket, data: Slot)
      requires |m.used| == AHASH_MAX_TUNED && m.pos < |m.value| == m.size <= AHASH_MAX_SIZE
      modifies m
      ensures m.V() == Bucket(old(m.used)[old(m.pos) := true], old(m.value)[old(m.pos) := data], old(m.size),
                              old(m.pos) + 1)
    {
      m.value := m.value[m.pos := data];
      m.used := m.used[m.pos := true];
      m.pos := m.pos + 1;
    }

    /** Copy every element into t. On failure the set and its own table are as they were. */
    method RehashInto(t: HTable) returns (ret: Ret, extsize: nat)
      requires Valid() && t != table && t.Valid() && t.bucket != table.bucket && t.chain !! table.chain
      requires forall i :: 0 <= i < |t.rows| ==> t.rows[i].None?
      modifies this`starved, t`rows, t`chain, t.bucket, t.chain
      ensures Valid() && (old(starved) ==> starved)
      ensures t.Valid() && fresh(t.chain - old(t.chain))
      ensures ret in {Success, ErrNoMem, ErrAgain} && (ret == ErrNoMem ==> starved)
      ensures ret == Success ==> Rehashed(t.rows, hash, stored, extsize, header + AHASH_INIT_SIZE * dsize)
    {
      hide Consistent, Sum, Represents, Rehashed, CopiedTo, Tidy;
      ret, extsize := Success, 0;
      ghost var unit := header + AHASH_INIT_SIZE * dsize;
      ghost var done: Entries := map[];
      ghost var rows := table.rows;
      RehashedEmpty(t.rows, hash, unit);
      ConsistentShape(rows, hash, stored, elements, extSize, unit, maxelem, starved, 0);
      CopyStart(stored, hash, rows);
      for i := 0 to table.bucket.Length
        invariant Core() && (old(starved) ==> starved) && ret == Success
        invariant t.Valid() && fresh(t.chain - old(t.chain)) && t.chain !! table.chain
        invariant Rehashed(t.rows, hash, done, extsize, unit)
        invariant CopiedTo(stored, done, hash, rows, i, 0)
      {
        var n := table.bucket[i];
        if n != null {
          for j := 0 to n.pos
            invariant Core() && (old(starved) ==> starved) && ret == Success
            invariant t.Valid() && fresh(t.chain - old(t.chain)) && t.chain !! table.chain
            invariant Rehashed(t.rows, hash, done, extsize, unit)
            invariant CopiedTo(stored, done, hash, rows, i, j)
          {
            CopyStep(stored, done, hash, rows, i, j);
            if n.used[j] {
              ret, extsize := RehashOne(t, n.value[j], done, extsize);
              if ret != Success {
                TidyStarved(rows, old(starved), starved);
                return;
              }
              done := done[n.value[j].dom := n.value[j]];
            }
          }
        }
        CopyNextBucket(stored, done, hash, rows, i);
      }
      CopyEnd(stored, done, hash, rows);
      TidyStarved(rows, old(starved), starved);
    }

    lemma Doubled(t: HTable)
      requires table.Valid() && t.Valid() && table.bits < t.bits
      ensures 0 < 2 * |table.rows| <= |t.rows|
    {
      Pow2Grows(table.bits, t.bits);
    }

    /** Put the finished table in place. */
    method Adopt(t: HTable, extsize: nat)
      requires Valid() && t.Valid() && table.bits < t.bits
      requires Rehashed(t.rows, hash, stored, extsize, header + AHASH_INIT_SIZE * dsize)
      modifies this`table, this`extSize
      ensures Valid() && table == t && extSize == extsize
      ensures forall i :: 0 <= i < |table.rows| ==> NoHoles(table.rows[i])
      ensures extSize == Sum(table.rows, BlocksIn) * ExtSize(AHASH_INIT_SIZE)
      ensures Sum(table.rows, PosIn) == elements == |stored| && 2 * |old(table).rows| <= |table.rows|
    {
      hide Consistent, Sum, Represents, Tidy, Pow2, NoHoles, Rehashed;
      ConsistentSize();
      Doubled(t);
      RehashedSums(t.rows, hash, stored, extsize, header + AHASH_INIT_SIZE * dsize);
      RehashedConsistent(table.rows, t.rows, hash, stored, elements, extSize, header + AHASH_INIT_SIZE * dsize,
                         maxelem, starved, extsize);
      table := t;
      extSize := extsize;
    }

    /** Double the table until its buckets fit, or fail for lack of memory; htable_size is zero above 31 bits. */
    method Resize() returns (ret: Ret)
      requires Valid()
      modifies this`table, this`extSize, this`starved, this`refused
      ensures Valid() && (old(starved) ==> starved) && (old(refused) ==> refused)
      ensures stored == old(stored) && elements == old(elements)
      ensures ret in {Success, ErrNoMem} && (ret == ErrNoMem ==> starved || refused)
      ensures ret != Success ==> table == old(table) && extSize == old(extSize)
      ensures ret == Success ==>
                && fresh(table) && fresh(table.bucket) && fresh(table.chain) && table.bits > old(table.bits)
                && (forall i :: 0 <= i < |table.rows| ==> NoHoles(table.rows[i]))
                && extSize == Sum(table.rows, BlocksIn) * ExtSize(AHASH_INIT_SIZE)
                && Sum(table.rows, PosIn) == elements == |stored| && 2 * |old(table.rows)| <= |table.rows|
    {
      hide Consistent, Sum, Represents, Tidy, Pow2, NoHoles, Rehashed;
      TableNonempty();
      var bits := table.bits;
      while true
        invariant Valid() && (old(starved) ==> starved) && table.bits <= bits <= MAX_HTABLE_BITS
        invariant table == old(table) && extSize == old(extSize) && refused == old(refused)
        decreases MAX_HTABLE_BITS - bits
      {
        bits := bits + 1;
        var ok: bool := *;
        if bits > MAX_HTABLE_BITS || !ok {
          refused := true;
          return ErrNoMem;
        }
        var t := new HTable(bits);
        var extsize;
        ret, extsize := RehashInto(t);
        if ret == Success {
          Adopt(t, extsize);
          return;
        }
        if ret != ErrAgain {
          return;
        }
      }
    }
  }
  // ---------------------------------------------------------------- creation

  const MINIMAL_HASHSIZE: nat := 64
  const WORD32: nat := 0x1_0000_0000

  /** The number of the highest set bit, counted from 1. */
  function Fls(n: nat): (b: nat)
    ensures n > 0 ==> b > 0 && Pow2(b - 1) <= n
    ensures n < Pow2(b)
  {
    if n == 0 then 0 else 1 + Fls(n / 2)
  }

  /** The width for a hash size asked for. */
  function HtableBits(hashsize: nat): nat
    requires 0 < hashsize < WORD32
  {
    var bits := Fls(hashsize - 1);
    if Pow2(bits) != hashsize then Fls(hashsize) else bits
  }

  /** It is the next power of two. */
  lemma RoundsUp(hashsize: nat)
    requires 0 < hashsize < WORD32
    ensures var bits := HtableBits(hashsize);
            hashsize <= Pow2(bits) && (bits > 0 ==> Pow2(bits - 1) < hashsize)
  {
    var bits := Fls(hashsize - 1);
    if Pow2(bits) != hashsize {
      var up := Fls(hashsize);
      if bits < up - 1 {
        Pow2Grows(bits, up - 1);
      }
      assert bits == 0 ==> hashsize == 1;
      if up < bits {
        Pow2Grows(up, bits);
      }
    }
  }

  /** Create a set; a hash size above 2^31 rounds up to a table that is never allocated. */
  method CreateSet(hash: Hash, maxelem: nat, feat: Features, hashsize: nat, header: nat, dsize: nat)
    returns (s: DomainSet?)
    requires hashsize < WORD32
    ensures s != null ==>
              && fresh(s) && fresh(s.table) && fresh(s.table.bucket)
              && s.Valid() && s.stored == map[] && s.hash == hash && s.maxelem == maxelem && s.feat == feat
    ensures s != null ==>
              var asked := if hashsize < MINIMAL_HASHSIZE then MINIMAL_HASHSIZE else hashsize;
              asked <= |s.table.rows| < 2 * asked && |s.table.rows| == Pow2(s.table.bits)
    ensures hashsize > Pow2(MAX_HTABLE_BITS) ==> s == null
  {
    var asked := if hashsize < MINIMAL_HASHSIZE then MINIMAL_HASHSIZE else hashsize;
    var bits := HtableBits(asked);
    RoundsUp(asked);
    if bits < MAX_HTABLE_BITS {
      Pow2Grows(bits, MAX_HTABLE_BITS);
    }
    var ok: bool := *;
    if bits > MAX_HTABLE_BITS || !ok {
      return null;
    }
    s := new DomainSet(hash, maxelem, feat, bits, header, dsize);
  }
}
