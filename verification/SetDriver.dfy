/** The set object driven by a sequence of events: its answers are those of a plain timed map. */
module SetDriver {
  import opened Options
  import opened HashTable
  import opened HashSet
  import opened TimedRuns
  import T = Timeout

  /** Event times from now on: the collector keeps its half-turn deadline and timeouts are clamped. */
  ghost predicate Timely(f: Features, events: seq<Event>, now: int, lastGc: int)
    decreases |events|
  {
    events != [] ==>
      match events[0]
      case Tick(dt) => (f.timeout ==> now + dt - lastGc <= T.HALF) && Timely(f, events[1..], now + dt, lastGc)
      case AddElem(_, ext, _) => (f.timeout ==> ext.timeout <= T.MAX_TIMEOUT) && Timely(f, events[1..], now, lastGc)
      case Gc => Timely(f, events[1..], now, now)
      case _ => Timely(f, events[1..], now, lastGc)
  }

  /** The facts of an add make its effect. */
  lemma AddHasEffect(s: DomainSet, m: Entries, sp: Space, d: string, ext: Ext, exist: bool, at: T.Tick, ret: Ret,
                     base: Slot)
    requires AddEffect(s.feat, m, s.stored, d, ext, exist, at, ret, base) && (sp.short ==> s.Short())
    requires ret == ErrHashFull ==> Occupancy(s.feat, s.maxelem, m, at) >= s.maxelem
    requires ret == ErrAgain ==> Occupancy(s.feat, s.maxelem, m, at) < s.maxelem
    requires ret == ErrAgain ==> AHASH_MAX_SIZE <= |Live(s.feat, m, at)|
    requires ret == ErrNoMem ==> s.Short()
    requires |s.stored| <= s.Spare().slots && (!s.Short() ==> s.Spare().slots <= s.maxelem + 3 * |s.table.rows|)
    requires s.Spare().slots <= sp.slots + 1 && |s.table.rows| == sp.rows
    requires s.Spare().slots == sp.slots + 1 ==>
               ret == Success && Occupancy(s.feat, s.maxelem, m, at) < s.maxelem && Fresh(s.feat, m, d, at)
    ensures Effect(s.feat, s.maxelem, m, sp, AddElem(d, ext, exist), Code(ret), at, s.stored, s.Spare())
  {
    hide AddEffect, Occupancy, Live, Sum;
  }

  method OperateAdd(s: DomainSet, d: string, ext: Ext, exist: bool, at: T.Tick) returns (ret: Ret)
    requires s.Valid()
    modifies s`elements, s`extSize, s`stored, s`starved
    modifies s.table`rows, s.table`chain, s.table.bucket, s.table.chain
    ensures s.Valid() && fresh(s.table.chain - old(s.table.chain))
    ensures Effect(s.feat, s.maxelem, old(s.stored), old(s.Spare()), AddElem(d, ext, exist), Code(ret), at, s.stored,
                   s.Spare())
  {
    hide DomainSet.Core, DomainSet.Inserted, Answered, AddEffect, Occupancy, Represents, Sum, Effect, Live, Dead,
         Shape, InUse, TakesHole;
    ghost var m, sp := s.stored, s.Spare();
    s.SpareHolds();
    ghost var mid, slot;
    ret, mid, slot := s.Add(d, ext, exist, at);
    s.SpareHolds();
    AddHasEffect(s, m, sp, d, ext, exist, at, ret, SlotAt(BucketAt(mid[Key(s.hash, d, |mid|)]), slot));
  }

  method OperateDel(s: DomainSet, d: string, at: T.Tick) returns (ret: Ret)
    requires s.Valid()
    modifies s`elements, s`extSize, s`stored, s`starved
    modifies s.table`rows, s.table`chain, s.table.bucket, s.table.chain
    ensures s.Valid() && fresh(s.table.chain - old(s.table.chain))
    ensures Effect(s.feat, s.maxelem, old(s.stored), old(s.Spare()), DelElem(d), Code(ret), at, s.stored, s.Spare())
  {
    hide DomainSet.Core, DomainSet.Removed, AddEffect, Occupancy, Sum, Live, Dead, Shape, InUse;
    s.SpareHolds();
    ghost var slot;
    ret, slot := s.Del(d, at);
    s.SpareHolds();
  }

  method OperateTest(s: DomainSet, d: string, ext: Ext, fl: TestFlags, at: T.Tick) returns (found: bool)
    requires s.Valid()
    modifies s`stored, s.table`rows, s.table.chain
    ensures s.Valid()
    ensures Effect(s.feat, s.maxelem, old(s.stored), old(s.Spare()), TestElem(d, ext, fl), Verdict(found), at, s.stored,
                   s.Spare())
  {
    hide DomainSet.Core, AddEffect, Occupancy, Sum, Live, Dead, Matches, Bumped;
    s.SpareHolds();
    found := s.Test(d, ext, fl, at);
    s.SpareHolds();
  }

  method OperateFlush(s: DomainSet, at: T.Tick)
    requires s.Valid()
    modifies s`elements, s`extSize, s`stored, s.table`rows, s.table`chain, s.table.bucket
    ensures s.Valid() && s.table.chain == old(s.table.chain)
    ensures Effect(s.feat, s.maxelem, old(s.stored), old(s.Spare()), FlushAll, NoAnswer, at, s.stored, s.Spare())
  {
    hide DomainSet.Core, AddEffect, Occupancy, Sum, Live, Dead;
    s.SpareHolds();
    s.Flush();
    s.SpareHolds();
  }

  method OperateGc(s: DomainSet, at: T.Tick)
    requires s.Valid()
    modifies s`elements, s`extSize, s`stored, s`starved
    modifies s.table`rows, s.table`chain, s.table.bucket, s.table.chain
    ensures s.Valid() && fresh(s.table.chain - old(s.table.chain))
    ensures Effect(s.feat, s.maxelem, old(s.stored), old(s.Spare()), Gc, NoAnswer, at, s.stored, s.Spare())
  {
    hide DomainSet.Core, AddEffect, Occupancy, Sum, Live, Dead;
    s.SpareHolds();
    s.Expire(at);
    s.SpareHolds();
  }

  /** A table that is replaced stays as it was. */
  method OperateWiden(s: DomainSet, at: T.Tick) returns (ret: Ret)
    requires s.Valid()
    modifies s`table, s`extSize, s`starved, s`refused
    ensures s.Valid() && s.stored == old(s.stored)
    ensures s.table == old(s.table) || (fresh(s.table) && fresh(s.table.bucket) && fresh(s.table.chain))
    ensures s.table != old(s.table) ==> |s.table.rows| > |old(s.table.rows)|
    ensures Effect(s.feat, s.maxelem, old(s.stored), old(s.Spare()), Widen, Code(ret), at, s.stored, s.Spare())
  {
    hide DomainSet.Core, AddEffect, Occupancy, Sum, Live, Dead;
    s.SpareHolds();
    ret := s.Resize();
    s.SpareHolds();
  }

  /** Carry out one operation at the given reading of the clock. A table that is replaced stays as it was. */
  method Operate(s: DomainSet, ev: Event, at: T.Tick) returns (a: Answer)
    requires s.Valid()
    modifies s, s.table, s.table.bucket, s.table.chain
    ensures s.Valid()
    ensures s.table == old(s.table) || (fresh(s.table) && fresh(s.table.bucket))
    ensures fresh(s.table.chain - old(s.table.chain))
    ensures s.table != old(s.table) ==>
              && ev.Widen? && |s.table.rows| > |old(s.table.rows)|
              && fresh(s.table.chain) && s.stored == old(s.stored)
              && unchanged(old(s.table)) && unchanged(old(s.table.bucket)) && unchanged(old(s.table.chain))
    ensures Effect(s.feat, s.maxelem, old(s.stored), old(s.Spare()), ev, a, at, s.stored, s.Spare())
  {
    hide *;
    a := NoAnswer;
    match ev {
      case Tick(_) =>
        TickHasEffect(s, ev.ticks, at);
      case AddElem(d, ext, exist) =>
        var ret := OperateAdd(s, d, ext, exist, at);
        a := Code(ret);
      case DelElem(d) =>
        var ret := OperateDel(s, d, at);
        a := Code(ret);
      case TestElem(d, ext, fl) =>
        var found := OperateTest(s, d, ext, fl, at);
        a := Verdict(found);
      case FlushAll =>
        OperateFlush(s, at);
      case Gc =>
        OperateGc(s, at);
      case Widen =>
        var ret := OperateWiden(s, at);
        a := Code(ret);
    }
  }

  lemma TickHasEffect(s: DomainSet, dt: nat, at: T.Tick)
    requires s.Valid()
    ensures Effect(s.feat, s.maxelem, s.stored, s.Spare(), Tick(dt), NoAnswer, at, s.stored, s.Spare())
  {
    s.SpareHolds();
  }

  /** Carry out one event. */
  method Perform(s: DomainSet, ev: Event, now: int, ghost lastGc: int)
    returns (a: Answer, now': int, ghost lastGc': int)
    requires s.Valid() && Timely(s.feat, [ev], now, lastGc)
    modifies s, s.table, s.table.bucket, s.table.chain
    ensures s.Valid()
    ensures s.table == old(s.table) || (fresh(s.table) && fresh(s.table.bucket))
    ensures fresh(s.table.chain - old(s.table.chain))
    ensures Step(s.feat, s.maxelem, State(old(s.stored), now, lastGc, old(s.Spare())), ev, a,
                 State(s.stored, now', lastGc', s.Spare()))
    ensures now' == (if ev.Tick? then now + ev.ticks else now) && lastGc' == (if ev.Gc? then now else lastGc)
  {
    hide DomainSet.Core, Effect;
    a := Operate(s, ev, T.Wrap(now));
    now' := if ev.Tick? then now + ev.ticks else now;
    lastGc' := if ev.Gc? then now else lastGc;
  }

  /** From an empty set, any sequence of events is answered as the plain timed map answers it. */
  method Execute(s: DomainSet, events: seq<Event>, start: int) returns (answers: seq<Answer>, ghost states: seq<State>)
    requires s.Valid() && s.stored == map[] && Timely(s.feat, events, start, start)
    modifies s, s.table, s.table.bucket, s.table.chain
    ensures s.Valid() && |states| == |events| + 1 == |answers| + 1
    ensures states[0] == State(map[], start, start, old(s.Spare())) && Abs(s.feat, states[0]) == map[]
    ensures states[|events|].m == s.stored && states[|events|].space == s.Spare()
    ensures Run(s.feat, s.maxelem, states, events, answers)
    ensures forall k :: 0 <= k < |events| ==>
              IdealStep(s.feat, s.maxelem, Abs(s.feat, states[k]), states[k].space, states[k].now, events[k],
                        answers[k], Abs(s.feat, states[k + 1]), states[k + 1].space)
  {
    hide Step, IdealStep, Abs, DomainSet.Core;
    var now := start;
    ghost var lastGc := start;
    answers := [];
    states := [State(s.stored, now, lastGc, s.Spare())];
    for i := 0 to |events|
      invariant s.Valid()
      invariant s.table == old(s.table) || (fresh(s.table) && fresh(s.table.bucket))
      invariant fresh(s.table.chain - old(s.table.chain))
      invariant |states| == i + 1 == |answers| + 1 && states[i] == State(s.stored, now, lastGc, s.Spare())
      invariant states[0] == State(map[], start, start, old(s.Spare()))
      invariant Timely(s.feat, events[i..], now, lastGc)
      invariant forall k :: 0 <= k < i ==> Step(s.feat, s.maxelem, states[k], events[k], answers[k], states[k + 1])
    {
      TimelyNext(s.feat, events, i, now, lastGc);
      var a;
      a, now, lastGc := Perform(s, events[i], now, lastGc);
      answers := answers + [a];
      states := states + [State(s.stored, now, lastGc, s.Spare())];
    }
    RunRefines(s.feat, s.maxelem, states, events, answers);
  }

  lemma TimelyNext(f: Features, events: seq<Event>, i: nat, now: int, lastGc: int)
    requires i < |events| && Timely(f, events[i..], now, lastGc)
    ensures Timely(f, [events[i]], now, lastGc)
    ensures Timely(f, events[i + 1..], if events[i].Tick? then now + events[i].ticks else now,
                   if events[i].Gc? then now else lastGc)
  {
    assert events[i..][1..] == events[i + 1..];
    assert [events[i]][1..] == [];
  }

  /** Add a name that is no member: whether it starts with clean counters can be read off the slot chosen in mid, which
      is the table before the call unless a full set first dropped its expired entries. */
  method AddNew(s: DomainSet, d: string, ext: Ext, exist: bool, now: T.Tick)
    returns (ret: Ret, ghost mid: seq<Row>, ghost slot: nat)
    requires s.Valid() && (d !in s.stored || Dead(s.feat, s.stored[d], now))
    modifies s, s.table, s.table.bucket, s.table.chain
    ensures s.Valid() && Represents(mid, s.hash, Room(s.feat, s.maxelem, old(s.stored), now))
    ensures |old(s.stored)| < s.maxelem || !s.feat.timeout ==> mid == old(s.table.rows)
    ensures Takes(s.feat, BucketAt(mid[Key(s.hash, d, |mid|)]), d, now, slot)
    ensures ret == Success ==>
              && d in s.stored
              && (ReadsAs(s.feat, s.stored[d], NewSlot(s.feat, BLANK, d, ext, now)) <==>
                    CleanSlot(s.feat, SlotAt(BucketAt(mid[Key(s.hash, d, |mid|)]), slot), ext))
  {
    hide Takes, AddEffect, Tidy, Sum, Represents, ReadsAs, CleanSlot, Filled, NewSlot, SlotAt;
    ret, mid, slot := s.Add(d, ext, exist, now);
    if ret == Success {
      FreshCountersIff(s.feat, mid, s.table.rows, s.hash, Room(s.feat, s.maxelem, old(s.stored), now), s.stored,
                       d, ext, now, slot);
    }
  }

  const COUNTERS: Features := Features(false, true, false)

  function FirstOf(skb: Skbinfo): Slot { NewSlot(COUNTERS, BLANK, "a", Ext(0, 5, 7, skb), 0) }

  function SecondOf(skb: Skbinfo): Slot { NewSlot(COUNTERS, BLANK, "c", Ext(0, 1, 1, skb), 0) }

  ghost function PairBucket(skb: Skbinfo): Bucket {
    Shapes(FirstOf(skb), SecondOf(skb));
    Filled(Filled(EmptyBucket(AHASH_INIT_SIZE), 0, FirstOf(skb)), 1, SecondOf(skb))
  }

  ghost function FirstBucket(skb: Skbinfo): Bucket {
    Shapes(FirstOf(skb), SecondOf(skb));
    Filled(EmptyBucket(AHASH_INIT_SIZE), 0, FirstOf(skb))
  }

  /** A set for two members with counters and two rows; the names "a", "b" and "c" hash to the first, "x" to the
      second. */
  ghost predicate TwoRows(s: DomainSet) {
    s.feat == COUNTERS && s.maxelem == 2 && forall d :: s.hash(d) == if d == "x" then 1 else 0
  }

  /** Add a new name to such a set while its bucket is small, and has a free slot if the set is full: only memory can
      fail. */
  method AddPlain(s: DomainSet, d: string, ext: Ext, ghost k: nat) returns (ok: bool, ghost slot: nat)
    requires s.Valid() && s.feat == COUNTERS && d !in s.stored
    requires k < |s.table.rows| && k == Key(s.hash, d, |s.table.rows|)
    requires var b := BucketAt(s.table.rows[k]);
             b.size < AHASH_MAX_SIZE && (|s.stored| < s.maxelem || TakesHole(COUNTERS, b, d, 0))
    modifies s, s.table, s.table.bucket, s.table.chain
    ensures s.Valid() && s.table == old(s.table) && fresh(s.table.chain - old(s.table.chain))
    ensures |s.table.rows| == |old(s.table.rows)| && Takes(COUNTERS, BucketAt(old(s.table.rows)[k]), d, 0, slot)
    ensures var b := BucketAt(old(s.table.rows)[k]);
            ok ==> (Shape(b) && slot <= b.pos
                    && s.stored.Keys == old(s.stored).Keys + {d}
                    && s.stored[d] == NewSlot(COUNTERS, SlotAt(b, slot), d, ext, 0)
                    && s.table.rows ==
                       old(s.table.rows)[k := Some(Filled(b, slot, NewSlot(COUNTERS, SlotAt(b, slot), d, ext, 0)))])
    ensures !ok ==> s.starved
  {
    hide Answered, Occupancy, Consistent, Represents, Takes, Filled, SlotAt, NewSlot, Shape, AddEffect, Sum, Tidy, Key,
         BucketAt, Live, InUse, TakesHole;
    ghost var rows, m := s.table.rows, s.stored;
    ghost var mid;
    var ret;
    ret, mid, slot := s.Add(d, ext, false, 0);
    PlainAdd(mid[k], m, s.stored, d, ext, slot, s.maxelem, s.starved, ret, SlotAt(BucketAt(mid[k]), slot));
    ok := ret == Success;
  }

  lemma PlainAdd(r: Row, m: Entries, m': Entries, d: string, ext: Ext, i: nat, cap: nat, starved: bool, ret: Ret,
                 base: Slot)
    requires d !in m && BucketAt(r).size < AHASH_MAX_SIZE
    requires |m| < cap || TakesHole(COUNTERS, BucketAt(r), d, 0)
    requires Answered(COUNTERS, r, d, false, 0, i, Occupancy(COUNTERS, cap, m, 0) < cap, starved, ret)
    requires AddEffect(COUNTERS, m, m', d, ext, false, 0, ret, base)
    ensures Takes(COUNTERS, BucketAt(r), d, 0, i)
    ensures ret == Success || (ret == ErrNoMem && starved)
    ensures ret == Success ==> m'.Keys == m.Keys + {d} && m'[d] == NewSlot(COUNTERS, base, d, ext, 0)
  {
    AnsweredAgain(COUNTERS, r, d, false, 0, i, |m| < cap, starved, ret);
    hide Answered, Takes;
    if ret == Success {
      AddedKeys(COUNTERS, m, m', d, ext, 0, base);
    }
  }

  lemma KeyIs(s: DomainSet, d: string)
    requires TwoRows(s)
    ensures Key(s.hash, d, 2) == if d == "x" then 1 else 0
  {
  }

  method NewTwoRows() returns (s: DomainSet)
    ensures fresh(s) && fresh(s.table) && fresh(s.table.bucket) && s.table.chain == {}
    ensures s.Valid() && s.stored == map[] && TwoRows(s) && s.table.rows == [None, None]
  {
    hide Consistent, Tidy, Represents, Sum;
    s := new DomainSet(d => if d == "x" then 1 else 0, 2, COUNTERS, 1, 0, 0);
    TwoWide(s);
  }

  /** A set with counters whose first bucket holds "a" (5 bytes). */
  method OneMember(skb: Skbinfo) returns (s: DomainSet, ok: bool)
    ensures fresh(s) && fresh(s.table) && fresh(s.table.bucket) && fresh(s.table.chain)
    ensures s.Valid() && TwoRows(s) && |s.table.rows| == 2
    ensures ok ==> s.stored.Keys == {"a"} && s.table.rows == [Some(FirstBucket(skb)), None]
    ensures !ok ==> s.starved
  {
    hide DomainSet.Core, Takes, Filled, SlotAt, EmptyBucket, NewSlot, Shape, Key, TwoRows, TakesHole;
    s := NewTwoRows();
    OfTwoRows(s);
    KeyIs(s, "a");
    Shapes(FirstOf(skb), SecondOf(skb));
    ghost var i;
    ok, i := AddPlain(s, "a", Ext(0, 5, 7, skb), 0);
    FirstSlot(COUNTERS, i);
    OfTwoRows(s);
  }

  lemma OfTwoRows(s: DomainSet)
    requires TwoRows(s)
    ensures s.feat == COUNTERS && s.maxelem == 2
  {
  }

  lemma TwoWide(s: DomainSet)
    requires s.Valid() && s.table.bits == 1
    ensures |s.table.rows| == 2
  {
    assert Pow2(1) == 2 * Pow2(0) == 2;
  }

  /** And "c" beside it. */
  method TwoMembers(skb: Skbinfo) returns (s: DomainSet, ok: bool)
    ensures fresh(s) && fresh(s.table) && fresh(s.table.bucket) && fresh(s.table.chain)
    ensures s.Valid() && TwoRows(s) && |s.table.rows| == 2
    ensures ok ==> s.stored.Keys == {"a", "c"} && s.table.rows == [Some(PairBucket(skb)), None]
    ensures !ok ==> s.starved
  {
    hide DomainSet.Core, Takes, Filled, SlotAt, EmptyBucket, NewSlot, Shape, Key, TwoRows, TakesHole;
    s, ok := OneMember(skb);
    if !ok { return; }
    OfTwoRows(s);
    KeyIs(s, "c");
    Shapes(FirstOf(skb), SecondOf(skb));
    KeysCard(s.stored, {"a"}, 1);
    ghost var i;
    ok, i := AddPlain(s, "c", Ext(0, 1, 1, skb), 0);
    SecondSlot(COUNTERS, FirstOf(skb), i);
  }

  lemma KeysCard(m: Entries, keys: set<string>, n: nat)
    requires m.Keys == keys && |keys| == n
    ensures |m| == n
  {
  }

  /** The first bucket with a hole where "a" was, and "c" behind it. */
  ghost function HoleBucket(skb: Skbinfo): Bucket {
    HoleShape(skb);
    Cleared(PairBucket(skb), 0, true)
  }

  lemma HoleShape(skb: Skbinfo)
    ensures Shape(PairBucket(skb)) && 0 < PairBucket(skb).pos
    ensures var c := Cleared(PairBucket(skb), 0, true);
            && Shape(c) && c.pos == 2 && c.size == AHASH_INIT_SIZE && UsedOf(c) + AHASH_INIT_SIZE > c.pos
            && TakesHole(COUNTERS, c, "b", 0)
  {
    Shapes(FirstOf(skb), SecondOf(skb));
    var c := Cleared(PairBucket(skb), 0, true);
    assert !InUse(c, 0);
  }

  method MemberAndHole(skb: Skbinfo) returns (s: DomainSet, ok: bool)
    ensures fresh(s) && fresh(s.table) && fresh(s.table.bucket) && fresh(s.table.chain)
    ensures s.Valid() && TwoRows(s) && |s.table.rows| == 2
    ensures ok ==> s.stored.Keys == {"c"} && s.table.rows == [Some(HoleBucket(skb)), None]
    ensures !ok ==> s.starved
  {
    hide DomainSet.Core, Cleared, InUse, NewSlot, PairBucket, Shape, Filled, Compacted, UsedOf, TakesHole, Key, TwoRows;
    s, ok := TwoMembers(skb);
    if !ok { return; }
    OfTwoRows(s);
    KeyIs(s, "a");
    s.SpareHolds();
    ghost var j;
    var ret;
    ret, j := s.Del("a", 0);
    s.SpareHolds();
    HoleShape(skb);
    DeletedSlot(skb, j);
  }

  /** Counters that are not given are inherited from whatever the slot held: with counters enabled and memory
      available, a fresh member starts with the byte count of a deleted one. */
  method StaleCounters(skb: Skbinfo) returns (s: DomainSet, ok: bool)
    ensures s.Valid() && (ok ==> s.stored.Keys == {"b", "c"} && s.stored["b"].bytes == 5)
    ensures !ok ==> s.starved
  {
    hide DomainSet.Core, Takes, Cleared, SlotAt, NewSlot, PairBucket, Shape, Filled, UsedOf, TakesHole, Key, TwoRows;
    s, ok := MemberAndHole(skb);
    if !ok { return; }
    OfTwoRows(s);
    KeyIs(s, "b");
    HoleShape(skb);
    KeysCard(s.stored, {"c"}, 1);
    ghost var i;
    ok, i := AddPlain(s, "b", Ext(0, ULLONG_MAX, ULLONG_MAX, skb), 0);
    ReusedSlot(skb, i);
    InheritedBytes(COUNTERS, FirstOf(skb), Ext(0, ULLONG_MAX, ULLONG_MAX, skb));
    FirstBytes(skb);
  }

  /** The size of a set is passed: a hole is left in one bucket, the set is filled from another, and the next add goes
      into the hole. */
  method OverLimit(skb: Skbinfo) returns (s: DomainSet, ok: bool)
    ensures s.Valid() && s.maxelem == 2 && (ok ==> s.stored.Keys == {"b", "c", "x"} && s.elements == 3)
    ensures !ok ==> s.starved
  {
    hide DomainSet.Core, Takes, Cleared, SlotAt, NewSlot, Shape, Filled, UsedOf, TakesHole, HoleBucket, Key, TwoRows;
    s, ok := MemberAndHole(skb);
    OfTwoRows(s);
    if !ok { return; }
    KeyIs(s, "x");
    KeyIs(s, "b");
    HoleShape(skb);
    HoleIs(skb);
    KeysCard(s.stored, {"c"}, 1);
    ghost var i;
    ok, i := AddPlain(s, "x", Ext(0, 1, 1, skb), 1);
    if !ok { return; }
    assert s.table.rows[0] == Some(HoleBucket(skb));
    ok, i := AddPlain(s, "b", Ext(0, 1, 1, skb), 0);
    if ok {
      KeysCard(s.stored, {"b", "c", "x"}, 3);
      s.ConsistentSize();
    }
  }

  lemma HoleIs(skb: Skbinfo)
    ensures HoleBucket(skb).size < AHASH_MAX_SIZE && TakesHole(COUNTERS, HoleBucket(skb), "b", 0)
  {
    HoleShape(skb);
  }

  lemma AddedKeys(f: Features, m: Entries, m': Entries, d: string, ext: Ext, now: T.Tick, base: Slot)
    requires !f.timeout && AddEffect(f, m, m', d, ext, false, now, Success, base)
    ensures m'.Keys == m.Keys + {d} && m'[d] == NewSlot(f, base, d, ext, now)
    ensures d !in m && |m'| == |m| + 1
  {
    hide NewSlot, Pruned, T.Expired;
    forall x | x in m && x != d ensures x in m' && m'[x] == m[x] {
      assert !Dead(f, m[x], now);
    }
    forall x | x in m' && x != d ensures x in m {}
    hide *;
    assert m'.Keys == m.Keys + {d};
  }

  lemma Shapes(sa: Slot, sc: Slot)
    ensures var b0 := EmptyBucket(AHASH_INIT_SIZE);
            && Shape(b0) && b0.pos == 0 && b0.size == AHASH_INIT_SIZE
            && Shape(Filled(b0, 0, sa)) && Filled(b0, 0, sa).pos == 1 && Filled(b0, 0, sa).size == AHASH_INIT_SIZE
            && Shape(Filled(Filled(b0, 0, sa), 1, sc)) && Filled(Filled(b0, 0, sa), 1, sc).pos == 2
  {
  }

  lemma FirstSlot(f: Features, i: nat)
    requires Takes(f, EmptyBucket(AHASH_INIT_SIZE), "a", 0, i)
    ensures i == 0 && SlotAt(EmptyBucket(AHASH_INIT_SIZE), 0) == BLANK
  {
  }

  lemma SecondSlot(f: Features, sa: Slot, i: nat)
    requires !f.timeout && sa.dom == "a" && Takes(f, Filled(EmptyBucket(AHASH_INIT_SIZE), 0, sa), "c", 0, i)
    ensures i == 1 && SlotAt(Filled(EmptyBucket(AHASH_INIT_SIZE), 0, sa), 1) == BLANK
  {
    assert FirstReusable(f, Filled(EmptyBucket(AHASH_INIT_SIZE), 0, sa), 1, 0) == 1;
  }

  lemma DeletedSlot(skb: Skbinfo, j: nat)
    requires var b := PairBucket(skb); Shape(b) && InUse(b, j) && b.value[j].dom == "a"
    ensures j == 0
  {
  }

  lemma ReusedSlot(skb: Skbinfo, i: nat)
    requires Shape(PairBucket(skb)) && Takes(COUNTERS, Cleared(PairBucket(skb), 0, true), "b", 0, i)
    ensures i == 0 && SlotAt(Cleared(PairBucket(skb), 0, true), 0) == FirstOf(skb)
  {
    var c := Cleared(PairBucket(skb), 0, true);
    assert InUse(c, 1) && !InUse(c, 0);
  }

  lemma InheritedBytes(f: Features, base: Slot, ext: Ext)
    requires f.counter && ext.bytes == ULLONG_MAX
    ensures NewSlot(f, base, "b", ext, 0).bytes == base.bytes
  {
  }

  lemma FirstBytes(skb: Skbinfo)
    ensures FirstOf(skb).bytes == 5
  {
  }
}
