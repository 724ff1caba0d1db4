/** Listing a table over several messages while the set changes in between. One bucket scan is one moment. */
module BucketDump {
  import opened Options
  import opened Timeout
  import opened HashTable
  import opened HashSet
  import opened TimedRuns
  import opened SetDriver

  datatype ListRet = ListOk | ErrMsgSize

  // ---------------------------------------------------------------- what a scan of a bucket finds

  /** The unexpired entries in the first n slots, in slot order. */
  ghost function Visible(f: Features, b: Bucket, n: nat, now: Timeout.Tick): seq<Slot>
    requires n <= |b.used| && n <= |b.value|
  {
    if n == 0 then []
    else if b.used[n - 1] && !Dead(f, b.value[n - 1], now) then Visible(f, b, n - 1, now) + [b.value[n - 1]]
    else Visible(f, b, n - 1, now)
  }

  ghost function VisibleIn(f: Features, r: Row, now: Timeout.Tick): seq<Slot> {
    if r.Some? && Shape(r.value) then Visible(f, r.value, r.value.pos, now) else []
  }

  lemma {:induction false} VisiblePrefix(f: Features, b: Bucket, i: nat, n: nat, now: Timeout.Tick)
    requires i <= n <= |b.used| && n <= |b.value|
    ensures Visible(f, b, i, now) <= Visible(f, b, n, now)
  {
    if i < n {
      VisiblePrefix(f, b, i, n - 1, now);
    }
  }

  /** Room an element list takes: a nest header and the attributes of each. */
  ghost function Need(elems: seq<Slot>, size: Slot -> nat): nat {
    if elems == [] then 0 else Need(elems[..|elems| - 1], size) + 4 + size(elems[|elems| - 1])
  }

  lemma NeedAppend(elems: seq<Slot>, e: Slot, size: Slot -> nat)
    ensures Need(elems + [e], size) == Need(elems, size) + 4 + size(e)
  {
    assert (elems + [e])[..|elems|] == elems;
  }

  lemma {:induction false} NeedConcat(a: seq<Slot>, b: seq<Slot>, size: Slot -> nat)
    ensures Need(a + b, size) == Need(a, size) + Need(b, size)
    decreases |b|
  {
    if b == [] {
      assert a + b == a;
    } else {
      var n := |b| - 1;
      assert (a + b)[..|a| + n] == a + b[..n];
      NeedConcat(a, b[..n], size);
    }
  }

  lemma NeedPrefix(a: seq<Slot>, b: seq<Slot>, size: Slot -> nat)
    requires a <= b
    ensures Need(a, size) <= Need(b, size)
  {
    assert b == a + b[|a|..];
    NeedConcat(a, b[|a|..], size);
  }

  /** The message being filled: its room in bytes and the elements put so far. */
  class Message {
    var room: nat
    var elems: seq<Slot>

    constructor (room: nat)
      ensures this.room == room && elems == []
    {
      this.room := room;
      elems := [];
    }

    /** Put one element with its extensions, all of it or (ok false) not. The nest header is checked first. */
    method Put(e: Slot, size: nat) returns (nested: bool, ok: bool)
      modifies this
      ensures ok <==> old(room) >= 4 + size
      ensures nested <==> old(room) >= 4
      ensures ok ==> elems == old(elems) + [e] && room == old(room) - 4 - size
      ensures !ok ==> elems == old(elems) && room == old(room)
    {
      nested := room >= 4;
      ok := room >= 4 + size;
      if ok {
        room := room - 4 - size;
        elems := elems + [e];
      }
    }
  }

  lemma VisibleNext(f: Features, b: Bucket, i: nat, now: Timeout.Tick, size: Slot -> nat)
    requires Shape(b) && i < b.pos
    ensures var v, v' := Visible(f, b, i, now), Visible(f, b, i + 1, now);
            && v <= VisibleIn(f, Some(b), now)
            && if b.used[i] && !Dead(f, b.value[i], now) then
                 && v' == v + [b.value[i]] <= VisibleIn(f, Some(b), now)
                 && Need(v', size) == Need(v, size) + 4 + size(b.value[i]) <= Need(VisibleIn(f, Some(b), now), size)
               else v' == v
  {
    VisiblePrefix(f, b, i, b.pos, now);
    VisiblePrefix(f, b, i + 1, b.pos, now);
    NeedAppend(Visible(f, b, i, now), b.value[i], size);
    NeedPrefix(Visible(f, b, i + 1, now), VisibleIn(f, Some(b), now), size);
  }

  lemma VisibleEnds(f: Features, b: Bucket, now: Timeout.Tick, size: Slot -> nat)
    requires Shape(b)
    ensures b.pos <= |b.used| && b.pos <= |b.value|
    ensures Visible(f, b, 0, now) == [] && Need([], size) == 0
    ensures Visible(f, b, b.pos, now) == VisibleIn(f, Some(b), now)
  {
  }

  /** Element k is the first that does not fit into the room; noNest: not even its nest header does. */
  ghost predicate Misfit(elems: seq<Slot>, size: Slot -> nat, room: nat, k: nat, noNest: bool) {
    && k < |elems| && Need(elems[..k], size) <= room < Need(elems[..k + 1], size)
    && (noNest <==> room < Need(elems[..k], size) + 4)
  }

  ghost predicate Misfits(elems: seq<Slot>, size: Slot -> nat, room: nat, noNest: bool) {
    exists k :: Misfit(elems, size, room, k, noNest)
  }

  lemma MisfitNext(found: seq<Slot>, v: seq<Slot>, e: Slot, size: Slot -> nat, room: nat, noNest: bool)
    requires v + [e] <= found && Need(v, size) <= room < Need(v, size) + 4 + size(e)
    requires noNest <==> room < Need(v, size) + 4
    ensures Misfits(found, size, room, noNest)
  {
    NeedAppend(v, e, size);
    assert found[..|v|] == v && found[..|v| + 1] == v + [e];
    assert Misfit(found, size, room, |v|, noNest);
  }

  /** Put a bucket's unexpired entries; full says that one of them did not fit, noNest that not even its nest header
      did. */
  method PutBucket(msg: Message, n: HBucket, f: Features, now: Timeout.Tick, size: Slot -> nat)
    returns (full: bool, noNest: bool)
    requires Shape(n.V())
    modifies msg
    ensures var found := VisibleIn(f, Some(n.V()), now);
            && (full <==> Need(found, size) > old(msg.room))
            && (!full ==> msg.elems == old(msg.elems) + found && msg.room + Need(found, size) == old(msg.room))
            && (full ==> old(msg.elems) <= msg.elems && Misfits(found, size, old(msg.room), noNest))
    ensures noNest ==> full
  {
    full, noNest := false, false;
    ghost var b := n.V();
    VisibleEnds(f, b, now, size);
    hide Visible, VisibleIn, Need, Dead, Misfits;
    for i := 0 to n.pos
      invariant msg.elems == old(msg.elems) + Visible(f, b, i, now)
      invariant msg.room + Need(Visible(f, b, i, now), size) == old(msg.room)
    {
      VisibleNext(f, b, i, now, size);
      if n.used[i] && !Dead(f, n.value[i], now) {
        var nested, ok := msg.Put(n.value[i], size(n.value[i]));
        if !ok {
          MisfitNext(VisibleIn(f, Some(b), now), Visible(f, b, i, now), n.value[i], size, old(msg.room), !nested);
          return true, !nested;
        }
        assert msg.elems == old(msg.elems) + (Visible(f, b, i, now) + [n.value[i]]);
      }
    }
  }

  // ---------------------------------------------------------------- the dumped table while the set changes

  /** An operation and the reading of the clock it sees. */
  datatype Happening = Happening(ev: Event, at: Timeout.Tick)

  /** What happens before the scans 0 up to n - 1 of a dump. */
  ghost function Past(between: nat -> seq<Happening>, n: nat): seq<Happening> {
    if n == 0 then [] else Past(between, n - 1) + between(n - 1)
  }

  /** The contents of the set, and its space, at one moment. */
  datatype Moment = Moment(m: Entries, space: Space)

  /** The operation turns moment a into b. */
  ghost predicate Follows(f: Features, cap: nat, a: Moment, h: Happening, b: Moment) {
    exists ans :: Effect(f, cap, a.m, a.space, h.ev, ans, h.at, b.m, b.space)
  }

  /** The moments of a set around each of the operations evs, the first taken when the dump began. */
  ghost predicate History(f: Features, cap: nat, hist: seq<Moment>, evs: seq<Happening>) {
    |hist| == |evs| + 1 && forall j :: 0 <= j < |evs| ==> Follows(f, cap, hist[j], evs[j], hist[j + 1])
  }

  /** Up to moment `moment` the table that the dump began with was last the set's own at moment at: it still is, or the
      operation that follows replaced it. */
  ghost predicate LastOwn(hist: seq<Moment>, at: nat, moment: nat) {
    && at <= moment < |hist|
    && (forall j :: 0 <= j <= at ==> hist[j].space.rows == hist[0].space.rows)
    && (at < moment ==> hist[at + 1].space.rows != hist[0].space.rows)
  }

  ghost predicate Separate(s: DomainSet, t: HTable)
    reads s
    reads s.table, t
  {
    s.table != t && s.table.bucket != t.bucket && s.table.chain !! t.chain
  }

  /** After the operations evs the dumped table t holds the contents of moment at: the present ones while it is the
      set's table, and those of the moment it was replaced from then on. */
  ghost predicate Dumping(s: DomainSet, t: HTable, evs: seq<Happening>, hist: seq<Moment>, at: nat)
    reads s, s.table, s.table.bucket, s.table.chain, t, t.bucket, t.chain
  {
    && s.Valid() && t.Valid()
    && History(s.feat, s.maxelem, hist, evs) && hist[|evs|] == Moment(s.stored, s.Spare())
    && hist[0].space.rows == |t.rows|
    && LastOwn(hist, at, |evs|) && Represents(t.rows, s.hash, hist[at].m)
    && if s.table == t then at == |evs| else at < |evs| && Separate(s, t)
  }

  lemma HistoryNext(f: Features, cap: nat, evs: seq<Happening>, hist: seq<Moment>, h: Happening, a: Answer, b: Moment)
    requires History(f, cap, hist, evs)
    requires Effect(f, cap, hist[|evs|].m, hist[|evs|].space, h.ev, a, h.at, b.m, b.space)
    ensures History(f, cap, hist + [b], evs + [h])
  {
    hide Effect;
    assert Follows(f, cap, hist[|evs|], h, b);
    var hist', evs' := hist + [b], evs + [h];
    forall j | 0 <= j < |evs'| ensures Follows(f, cap, hist'[j], evs'[j], hist'[j + 1]) {
      assert hist'[j] == hist[j];
    }
  }

  lemma LastOwnNext(hist: seq<Moment>, at: nat, b: Moment)
    requires |hist| > 0 && LastOwn(hist, at, |hist| - 1)
    ensures at < |hist| - 1 ==> LastOwn(hist + [b], at, |hist|)
    ensures at == |hist| - 1 ==>
              LastOwn(hist + [b], if b.space.rows == hist[0].space.rows then at + 1 else at, |hist|)
  {
    var hist' := hist + [b];
    assert forall j :: 0 <= j < |hist| ==> hist'[j] == hist[j];
    assert hist'[|hist|] == b;
  }

  /** One operation on the set under a dump. */
  method Disturb(s: DomainSet, t: HTable, h: Happening, ghost evs: seq<Happening>, ghost hist: seq<Moment>,
                 ghost at: nat)
    returns (ghost hist': seq<Moment>, ghost at': nat)
    requires Dumping(s, t, evs, hist, at)
    modifies s, s.table, s.table.bucket, s.table.chain
    ensures Dumping(s, t, evs + [h], hist', at') && hist <= hist' && at <= at'
    ensures s.table == old(s.table) || (fresh(s.table) && fresh(s.table.bucket))
    ensures fresh(s.table.chain - old(s.table.chain))
    ensures old(s.table) != t ==> s.table != t && at' == at && t.rows == old(t.rows)
  {
    hide History, Effect, Consistent, Tidy, Represents, LastOwn, Sum, Pow2;
    HistorySize(s, t, evs, hist, at);
    var a := Operate(s, h.ev, h.at);
    ghost var b := Moment(s.stored, s.Spare());
    HistoryNext(s.feat, s.maxelem, evs, hist, h, a, b);
    LastOwnNext(hist, at, b);
    hist' := hist + [b];
    at' := if s.table == t then |hist| else at;
    if s.table == t {
      TableRepresents(s);
    }
  }

  lemma TableRepresents(s: DomainSet)
    requires s.Valid()
    ensures Represents(s.table.rows, s.hash, s.stored)
  {
  }

  /** Everything that happens between two scans. */
  method Interlude(s: DomainSet, t: HTable, hs: seq<Happening>, ghost evs: seq<Happening>, ghost hist: seq<Moment>,
                   ghost at: nat)
    returns (ghost hist': seq<Moment>, ghost at': nat)
    requires Dumping(s, t, evs, hist, at)
    modifies s, s.table, s.table.bucket, s.table.chain
    ensures Dumping(s, t, evs + hs, hist', at') && hist <= hist' && at <= at'
    ensures s.table == old(s.table) || (fresh(s.table) && fresh(s.table.bucket))
    ensures fresh(s.table.chain - old(s.table.chain))
    ensures old(s.table) != t ==> s.table != t && at' == at && t.rows == old(t.rows)
  {
    hide Dumping;
    hist', at' := hist, at;
    assert evs + hs[..0] == evs;
    for i := 0 to |hs|
      invariant Dumping(s, t, evs + hs[..i], hist', at') && hist <= hist' && at <= at'
      invariant s.table == old(s.table) || (fresh(s.table) && fresh(s.table.bucket))
      invariant fresh(s.table.chain - old(s.table.chain))
      invariant old(s.table) != t ==> s.table != t && at' == at && t.rows == old(t.rows)
    {
      hist', at' := Disturb(s, t, hs[i], evs + hs[..i], hist', at');
      assert evs + hs[..i + 1] == evs + hs[..i] + [hs[i]];
    }
    assert hs[..|hs|] == hs;
  }

  // ---------------------------------------------------------------- scans

  /** A scan of one bucket, the nr-th of the dump: the table then, whose contents are those of moment at of the history,
      the present moment of the set, and the clock. */
  datatype Scan = Scan(nr: nat, rows: seq<Row>, at: nat, moment: nat, now: Timeout.Tick)

  /** What the scan finds in bucket b. */
  ghost function Found(f: Features, sc: Scan, b: nat): seq<Slot> {
    if b < |sc.rows| then VisibleIn(f, sc.rows[b], sc.now) else []
  }

  ghost predicate GoodScan(h: Hash, n: nat, hist: seq<Moment>, sc: Scan) {
    |sc.rows| == n && LastOwn(hist, sc.at, sc.moment) && Represents(sc.rows, h, hist[sc.at].m)
  }

  /** The scan comes after all that happens before it, and reads the clock it is given. */
  ghost predicate Dated(between: nat -> seq<Happening>, clock: nat -> Timeout.Tick, sc: Scan) {
    sc.now == clock(sc.nr) && sc.moment == |Past(between, sc.nr + 1)|
  }

  ghost predicate AllDated(between: nat -> seq<Happening>, clock: nat -> Timeout.Tick, log: seq<Scan>) {
    forall k :: 0 <= k < |log| ==> Dated(between, clock, log[k])
  }

  /** Scans are numbered and time does not run backwards, and a table once behind the set stays as it is. */
  ghost predicate InOrder(a: Scan, b: Scan) {
    && a.nr < b.nr && a.at <= b.at && a.moment <= b.moment
    && (a.at < a.moment ==> b.at == a.at && b.rows == a.rows)
  }

  /** Scan b is of bucket b. */
  ghost predicate GoodLog(h: Hash, n: nat, hist: seq<Moment>, log: seq<Scan>) {
    && (forall k :: 0 <= k < |log| ==> GoodScan(h, n, hist, log[k]))
    && (forall j, k :: 0 <= j < k < |log| ==> InOrder(log[j], log[k]))
  }

  /** Buckets lo up to hi as they were found. */
  ghost function Listed(f: Features, log: seq<Scan>, lo: nat, hi: nat): seq<Slot>
    requires hi <= |log|
  {
    if hi <= lo then [] else Listed(f, log, lo, hi - 1) + Found(f, log[hi - 1], hi - 1)
  }

  lemma {:induction false} ListedSame(f: Features, log: seq<Scan>, log': seq<Scan>, lo: nat, hi: nat)
    requires log <= log' && hi <= |log|
    ensures Listed(f, log, lo, hi) == Listed(f, log', lo, hi)
  {
    if lo < hi {
      ListedSame(f, log, log', lo, hi - 1);
    }
  }

  lemma ListedLast(f: Features, log: seq<Scan>, lo: nat, hi: nat)
    requires lo <= hi <= |log|
    ensures Listed(f, log, lo, hi) ==
              if lo < hi then Listed(f, log, lo, hi - 1) + Found(f, log[hi - 1], hi - 1) else []
  {
    hide Found;
  }

  lemma {:induction false} ListedSplit(f: Features, log: seq<Scan>, lo: nat, mid: nat, hi: nat)
    requires lo <= mid <= hi <= |log|
    ensures Listed(f, log, lo, hi) == Listed(f, log, lo, mid) + Listed(f, log, mid, hi)
  {
    hide *;
    ListedLast(f, log, mid, hi);
    ListedLast(f, log, lo, hi);
    if mid < hi {
      ListedSplit(f, log, lo, mid, hi - 1);
    }
  }

  lemma ListedNext(f: Features, log: seq<Scan>, sc: Scan, lo: nat)
    requires lo <= |log|
    ensures Listed(f, log + [sc], lo, |log| + 1) == Listed(f, log, lo, |log|) + Found(f, sc, |log|)
  {
    ListedSame(f, log, log + [sc], lo, |log|);
  }

  /** Scan number nr will be in order with those made, whatever the clock. */
  ghost predicate Ready(log: seq<Scan>, nr: nat, rows: seq<Row>, at: nat, moment: nat) {
    forall j :: 0 <= j < |log| ==> InOrder(log[j], Scan(nr, rows, at, moment, 0))
  }

  /** A state of a dump after its first `scans` scans. */
  ghost predicate Midway(s: DomainSet, t: HTable, between: nat -> seq<Happening>, clock: nat -> Timeout.Tick,
                         scans: nat, hist: seq<Moment>, at: nat, log: seq<Scan>)
    reads s, s.table, s.table.bucket, s.table.chain, t, t.bucket, t.chain
  {
    && Dumping(s, t, Past(between, scans), hist, at)
    && GoodLog(s.hash, t.bucket.Length, hist, log) && AllDated(between, clock, log)
    && Ready(log, scans, t.rows, at, |hist| - 1)
  }

  lemma GoodLogLater(h: Hash, n: nat, hist: seq<Moment>, hist': seq<Moment>, log: seq<Scan>)
    requires GoodLog(h, n, hist, log) && hist <= hist'
    ensures GoodLog(h, n, hist', log)
  {
    hide Represents, InOrder;
    forall k | 0 <= k < |log| ensures GoodScan(h, n, hist', log[k]) {
      assert GoodScan(h, n, hist, log[k]);
    }
  }

  /** live: the dumped table is still the set's. */
  lemma ReadyLater(log: seq<Scan>, nr: nat, rows: seq<Row>, at: nat, moment: nat, live: bool, rows': seq<Row>, at': nat,
                   moment': nat)
    requires Ready(log, nr, rows, at, moment) && moment <= moment' && at <= at'
    requires if live then at == moment else at' == at && rows' == rows
    ensures Ready(log, nr, rows', at', moment')
  {
    forall j | 0 <= j < |log| ensures InOrder(log[j], Scan(nr, rows', at', moment', 0)) {
      assert InOrder(log[j], Scan(nr, rows, at, moment, 0));
    }
  }

  /** A scan made may be logged or not. */
  lemma LogNext(h: Hash, n: nat, between: nat -> seq<Happening>, clock: nat -> Timeout.Tick, hist: seq<Moment>,
                log: seq<Scan>, sc: Scan)
    requires GoodLog(h, n, hist, log) && GoodScan(h, n, hist, sc) && Ready(log, sc.nr, sc.rows, sc.at, sc.moment)
    requires AllDated(between, clock, log) && Dated(between, clock, sc)
    ensures GoodLog(h, n, hist, log + [sc]) && Ready(log + [sc], sc.nr + 1, sc.rows, sc.at, sc.moment)
    ensures AllDated(between, clock, log + [sc]) && Ready(log, sc.nr + 1, sc.rows, sc.at, sc.moment)
  {
    hide GoodScan, Dated;
    forall j | 0 <= j < |log| ensures InOrder(log[j], sc) {
      assert InOrder(log[j], Scan(sc.nr, sc.rows, sc.at, sc.moment, 0));
    }
    forall j | 0 <= j < |log| ensures InOrder(log[j], Scan(sc.nr + 1, sc.rows, sc.at, sc.moment, 0)) {
      assert InOrder(log[j], sc);
    }
  }

  /** What happens before the next scan, and the scan. */
  method NextScan(s: DomainSet, t: HTable, between: nat -> seq<Happening>, clock: nat -> Timeout.Tick, scans: nat,
                  ghost hist: seq<Moment>, ghost at: nat, ghost log: seq<Scan>)
    returns (ghost hist': seq<Moment>, ghost at': nat, ghost sc: Scan)
    requires Midway(s, t, between, clock, scans, hist, at, log)
    modifies s, s.table, s.table.bucket, s.table.chain
    ensures hist <= hist' && Midway(s, t, between, clock, scans + 1, hist', at', log)
    ensures s.table == old(s.table) || (fresh(s.table) && fresh(s.table.bucket))
    ensures fresh(s.table.chain - old(s.table.chain))
    ensures sc == Scan(scans, t.rows, at', |hist'| - 1, clock(scans)) && Dated(between, clock, sc)
    ensures GoodScan(s.hash, t.bucket.Length, hist', sc)
    ensures Midway(s, t, between, clock, scans + 1, hist', at', log + [sc])
  {
    hide History, Represents, InOrder, Consistent, Tidy, DomainSet.Core, Sum, AllDated, LastOwn;
    ghost var live, rows := s.table == t, t.rows;
    HistorySize(s, t, Past(between, scans), hist, at);
    hist', at' := Interlude(s, t, between(scans), Past(between, scans), hist, at);
    assert Past(between, scans + 1) == Past(between, scans) + between(scans);
    HistorySize(s, t, Past(between, scans + 1), hist', at');
    sc := Scan(scans, t.rows, at', |hist'| - 1, clock(scans));
    hide GoodLog, Ready, Past;
    GoodLogLater(s.hash, t.bucket.Length, hist, hist', log);
    ReadyLater(log, scans, rows, at, |hist| - 1, live, t.rows, at', |hist'| - 1);
    LogNext(s.hash, t.bucket.Length, between, clock, hist', log, sc);
  }

  lemma HistorySize(s: DomainSet, t: HTable, evs: seq<Happening>, hist: seq<Moment>, at: nat)
    requires Dumping(s, t, evs, hist, at)
    ensures |hist| == |evs| + 1
  {
  }

  // ---------------------------------------------------------------- messages

  /** Put bucket b of the dumped table as the scan found it. */
  method PutRow(msg: Message, t: HTable, b: nat, f: Features, size: Slot -> nat, ghost sc: Scan, now: Timeout.Tick)
    returns (full: bool, noNest: bool)
    requires t.Valid() && b < t.bucket.Length && sc.rows == t.rows && sc.now == now
    requires t.bucket[b] != null ==> Shape(t.bucket[b].V())
    modifies msg
    ensures var found := Found(f, sc, b);
            && (full <==> Need(found, size) > old(msg.room))
            && (!full ==> msg.elems == old(msg.elems) + found && msg.room + Need(found, size) == old(msg.room))
            && (full ==> old(msg.elems) <= msg.elems && Misfits(found, size, old(msg.room), noNest))
    ensures noNest ==> full
  {
    var n := t.bucket[b];
    if n == null {
      assert Found(f, sc, b) == [];
      return false, false;
    }
    full, noNest := PutBucket(msg, n, f, now, size);
  }

  lemma RowShape(s: DomainSet, t: HTable, evs: seq<Happening>, hist: seq<Moment>, at: nat, b: nat)
    requires Dumping(s, t, evs, hist, at) && b < t.bucket.Length
    ensures t.Valid() && (t.bucket[b] != null ==> Shape(t.bucket[b].V()))
  {
    HoldsRow(t.rows, s.hash, hist[at].m, b);
  }

  /** The next scan, and its bucket put into the message. */
  method ListBucket(msg: Message, s: DomainSet, t: HTable, b: nat, size: Slot -> nat,
                    between: nat -> seq<Happening>, clock: nat -> Timeout.Tick, scans: nat, ghost hist: seq<Moment>,
                    ghost at: nat, ghost log: seq<Scan>)
    returns (full: bool, noNest: bool, ghost hist': seq<Moment>, ghost at': nat, ghost sc: Scan)
    requires Midway(s, t, between, clock, scans, hist, at, log) && b < t.bucket.Length
    modifies msg, s, s.table, s.table.bucket, s.table.chain
    ensures hist <= hist' && Midway(s, t, between, clock, scans + 1, hist', at', log)
    ensures Midway(s, t, between, clock, scans + 1, hist', at', log + [sc])
    ensures s.table == old(s.table) || (fresh(s.table) && fresh(s.table.bucket))
    ensures fresh(s.table.chain - old(s.table.chain))
    ensures sc.nr == scans && Dated(between, clock, sc) && GoodScan(s.hash, t.bucket.Length, hist', sc)
    ensures var found := Found(s.feat, sc, b);
            && (full <==> Need(found, size) > old(msg.room))
            && (!full ==> msg.elems == old(msg.elems) + found && msg.room + Need(found, size) == old(msg.room))
            && (full ==> old(msg.elems) <= msg.elems && Misfits(found, size, old(msg.room), noNest))
    ensures noNest ==> full
  {
    hide Dumping, Ready, GoodLog, GoodScan, Found, Need, Listed, Represents, Past, AllDated, Dated, Misfits;
    hist', at', sc := NextScan(s, t, between, clock, scans, hist, at, log);
    RowShape(s, t, Past(between, scans + 1), hist', at', b);
    full, noNest := PutRow(msg, t, b, s.feat, size, sc, clock(scans));
  }

  /** Bucket b as the scan found it does not fit behind the elements in a message with so much room. */
  ghost predicate TooLarge(f: Features, elems: seq<Slot>, sc: Scan, b: nat, room: nat, size: Slot -> nat) {
    Need(elems, size) + Need(Found(f, sc, b), size) + 4 > room
  }

  /** One LIST message from bucket first on, after the first `scans` scans of the dump. The cursor comes back 0 when the
      listing is finished. Buckets are listed whole or not at all, as many as fit, each as the next scan finds it; there
      is an error exactly when the bucket at the cursor alone does not fit. tried is the last scan made, whose bucket
      is left to the next message unless the listing is finished. */
  method ListMessage(s: DomainSet, t: HTable, first: nat, room: nat, size: Slot -> nat,
                     between: nat -> seq<Happening>, clock: nat -> Timeout.Tick, scans: nat,
                     ghost hist: seq<Moment>, ghost at: nat, ghost log: seq<Scan>)
    returns (ret: ListRet, arg0: nat, elems: seq<Slot>, scans': nat,
             ghost hist': seq<Moment>, ghost at': nat, ghost log': seq<Scan>, ghost tried: Scan)
    requires Midway(s, t, between, clock, scans, hist, at, log) && first == |log| < t.bucket.Length
    modifies s, s.table, s.table.bucket, s.table.chain
    ensures Midway(s, t, between, clock, scans', hist', at', log') && hist <= hist' && log <= log'
    ensures s.table == old(s.table) || (fresh(s.table) && fresh(s.table.bucket))
    ensures fresh(s.table.chain - old(s.table.chain))
    ensures forall k :: first <= k < |log'| ==> log'[k].nr == scans + (k - first)
    ensures ret == ListOk ==> first < |log'| <= t.bucket.Length && elems == Listed(s.feat, log', first, |log'|)
    ensures ret == ListOk ==> arg0 == (if |log'| == t.bucket.Length then 0 else |log'|)
    ensures ret == ListOk ==> scans' == scans + (|log'| - first) + (if arg0 == 0 then 0 else 1)
    ensures ret == ListOk ==> room >= 4 && Need(elems, size) <= room - 4
    ensures ret == ErrMsgSize ==> log' == log && elems == [] && scans' == (if room < 4 then scans else scans + 1)
    ensures ret == ErrMsgSize && room < 4 ==> arg0 == first
    ensures ret == ErrMsgSize && room >= 4 ==>
              || (Misfits(Found(s.feat, tried, first), size, room - 4, true) && arg0 == first)
              || (Misfits(Found(s.feat, tried, first), size, room - 4, false) && arg0 == 0)
    ensures (ret == ListOk && arg0 != 0) || (ret == ErrMsgSize && room >= 4) ==>
              && tried.nr + 1 == scans' && Dated(between, clock, tried)
              && GoodScan(s.hash, t.bucket.Length, hist', tried)
              && TooLarge(s.feat, elems, tried, |log'|, room, size)
  {
    hide Dumping, Ready, GoodLog, GoodScan, Found, Need, Listed, Represents, Past, AllDated, Dated, Midway, Misfits;
    arg0, elems, ret, scans' := first, [], ListOk, scans;
    hist', at', log', tried := hist, at, log, Scan(0, [], 0, 0, 0);
    if room < 4 {
      return ErrMsgSize, arg0, elems, scans', hist', at', log', tried;
    }
    var msg := new Message(room - 4);
    NoneListed(s.feat, log, first, size);
    while arg0 < t.bucket.Length
      invariant Midway(s, t, between, clock, scans', hist', at', log') && hist <= hist' && log <= log' && fresh(msg)
      invariant s.table == old(s.table) || (fresh(s.table) && fresh(s.table.bucket))
      invariant fresh(s.table.chain - old(s.table.chain))
      invariant first <= arg0 == |log'| <= t.bucket.Length && scans' == scans + (arg0 - first)
      invariant forall k :: first <= k < |log'| ==> log'[k].nr == scans + (k - first)
      invariant arg0 == first ==> log' == log && msg.elems == []
      invariant msg.elems == Listed(s.feat, log', first, arg0)
      invariant msg.room + Need(msg.elems, size) == room - 4
    {
      ghost var before := msg.elems;
      var incomplete := |msg.elems|;
      var full, noNest;
      full, noNest, hist', at', tried := ListBucket(msg, s, t, arg0, size, between, clock, scans', hist', at', log');
      scans' := scans' + 1;
      if full {
        if noNest && arg0 == first {
          return ErrMsgSize, arg0, [], scans', hist', at', log', tried;
        }
        // nla_put_failure
        elems := msg.elems[..incomplete];
        if arg0 == first {
          return ErrMsgSize, 0, [], scans', hist', at', log', tried;
        }
        assert elems == before;
        return;
      }
      ListedNext(s.feat, log', tried, first);
      NeedConcat(before, Found(s.feat, tried, arg0), size);
      log' := log' + [tried];
      arg0 := arg0 + 1;
    }
    elems := msg.elems;
    arg0 := 0;
  }

  lemma NoneListed(f: Features, log: seq<Scan>, first: nat, size: Slot -> nat)
    requires first <= |log|
    ensures Listed(f, log, first, first) == [] && Need([], size) == 0
  {
  }

  /** A whole dump: messages of whatever size until the cursor is back at 0, while the operations given come between the
      scans. The messages together are one scan of every bucket, in order, up to the end or to a bucket that does not
      fit into a message of its own; every message but the last costs one scan that the next one makes again. */
  method Dump(s: DomainSet, rooms: nat -> nat, size: Slot -> nat, between: nat -> seq<Happening>,
              clock: nat -> Timeout.Tick)
    returns (ret: ListRet, listed: seq<Slot>, messages: nat, scans: nat,
             ghost hist: seq<Moment>, ghost log: seq<Scan>, ghost tried: Scan)
    requires s.Valid()
    modifies s, s.table, s.table.bucket, s.table.chain
    ensures s.Valid() && History(s.feat, s.maxelem, hist, Past(between, scans))
    ensures hist[0] == Moment(old(s.stored), old(s.Spare())) && hist[|hist| - 1] == Moment(s.stored, s.Spare())
    ensures GoodLog(s.hash, old(s.table).bucket.Length, hist, log) && AllDated(between, clock, log)
    ensures NumberedBelow(log, scans) && listed == Listed(s.feat, log, 0, |log|)
    ensures 0 < messages <= old(s.table).bucket.Length
    ensures ret == ListOk ==> |log| == old(s.table).bucket.Length && scans == |log| + messages - 1
    ensures ret == ErrMsgSize ==> |log| < old(s.table).bucket.Length
    ensures ret == ErrMsgSize && rooms(messages - 1) >= 4 ==>
              && tried.nr + 1 == scans && Dated(between, clock, tried)
              && GoodScan(s.hash, old(s.table).bucket.Length, hist, tried)
              && TooLarge(s.feat, [], tried, |log|, rooms(messages - 1), size)
  {
    hide Ready, GoodLog, Listed, Need, History, Represents, Consistent, Tidy, Found, GoodScan, AllDated, Dated, Past,
         TooLarge, DomainSet.Core, Sum, Misfits, InOrder, LastOwn, NumberedBelow;
    var t := s.table;
    ghost var at;
    var arg0 := 0;
    scans := 0;
    listed, ret, messages, hist, at, log := [], ListOk, 0, [Moment(s.stored, s.Spare())], 0, [];
    DumpBegins(s, between, clock);
    NoneListed(s.feat, log, 0, size);
    hide Dumping, Midway;
    while true
      invariant Midway(s, t, between, clock, scans, hist, at, log)
      invariant |hist| > 0 && hist[0] == Moment(old(s.stored), old(s.Spare()))
      invariant s.table == old(s.table) || (fresh(s.table) && fresh(s.table.bucket))
      invariant fresh(s.table.chain - old(s.table.chain))
      invariant arg0 == |log| < t.bucket.Length && messages <= arg0 && ret == ListOk && scans == arg0 + messages
      invariant listed == Listed(s.feat, log, 0, arg0)
      decreases t.bucket.Length - arg0
    {
      var elems;
      ghost var before := log;
      var first := arg0;
      ret, arg0, elems, scans, hist, at, log, tried :=
        ListMessage(s, t, first, rooms(messages), size, between, clock, scans, hist, at, log);
      messages := messages + 1;
      if ret != ListOk {
        MidwayHolds(s, t, between, clock, scans, hist, at, log);
        return;
      }
      ListedSame(s.feat, before, log, 0, first);
      ListedSplit(s.feat, log, 0, first, |log|);
      listed := listed + elems;
      if arg0 == 0 {
        MidwayHolds(s, t, between, clock, scans, hist, at, log);
        return;
      }
    }
  }

  ghost predicate NumberedBelow(log: seq<Scan>, scans: nat) {
    forall k :: 0 <= k < |log| ==> log[k].nr < scans
  }

  lemma DumpBegins(s: DomainSet, between: nat -> seq<Happening>, clock: nat -> Timeout.Tick)
    requires s.Valid()
    ensures Midway(s, s.table, between, clock, 0, [Moment(s.stored, s.Spare())], 0, []) && s.table.bucket.Length > 0
  {
    s.SpareHolds();
  }

  lemma MidwayHolds(s: DomainSet, t: HTable, between: nat -> seq<Happening>, clock: nat -> Timeout.Tick, scans: nat,
                    hist: seq<Moment>, at: nat, log: seq<Scan>)
    requires Midway(s, t, between, clock, scans, hist, at, log)
    ensures s.Valid() && History(s.feat, s.maxelem, hist, Past(between, scans))
    ensures |hist| > 0 && hist[|hist| - 1] == Moment(s.stored, s.Spare())
    ensures GoodLog(s.hash, t.bucket.Length, hist, log) && AllDated(between, clock, log) && NumberedBelow(log, scans)
  {
    forall k | 0 <= k < |log| ensures log[k].nr < scans {
      assert InOrder(log[k], Scan(scans, t.rows, at, |hist| - 1, 0));
    }
  }

  // ---------------------------------------------------------------- exactly once

  /** How often d is listed. */
  ghost function Count(s: seq<Slot>, d: string): nat {
    if s == [] then 0 else Count(s[..|s| - 1], d) + (if s[|s| - 1].dom == d then 1 else 0)
  }

  lemma {:induction false} CountConcat(a: seq<Slot>, b: seq<Slot>, d: string)
    ensures Count(a + b, d) == Count(a, d) + Count(b, d)
    decreases |b|
  {
    if b == [] {
      assert a + b == a;
    } else {
      var n := |b| - 1;
      assert (a + b)[..|a| + n] == a + b[..n];
      CountConcat(a, b[..n], d);
    }
  }

  lemma {:induction false} CountPositive(s: seq<Slot>, d: string)
    ensures Count(s, d) > 0 <==> exists x :: x in s && x.dom == d
  {
    if s != [] {
      var n := |s| - 1;
      CountPositive(s[..n], d);
      assert s == s[..n] + [s[n]];
    }
  }

  /** An unexpired entry of m. */
  ghost predicate AliveIn(f: Features, m: Entries, d: string, now: Timeout.Tick) {
    d in m && !Dead(f, m[d], now)
  }

  /** Slot j holds the unexpired entry of d. */
  ghost predicate SeenAt(f: Features, b: Bucket, j: nat, now: Timeout.Tick, d: string)
    requires Shape(b)
  {
    InUse(b, j) && b.value[j].dom == d && !Dead(f, b.value[j], now)
  }

  lemma VisibleLast(f: Features, b: Bucket, n: nat, now: Timeout.Tick)
    requires Shape(b) && 0 < n <= b.pos
    ensures Visible(f, b, n, now) ==
              Visible(f, b, n - 1, now)
              + if InUse(b, n - 1) && !Dead(f, b.value[n - 1], now) then [b.value[n - 1]] else []
  {
    assert InUse(b, n - 1) <==> b.used[n - 1];
    hide Dead;
  }

  /** The unexpired entry of d is below slot n. */
  ghost predicate SeenBelow(f: Features, b: Bucket, n: nat, now: Timeout.Tick, d: string)
    requires Shape(b)
  {
    exists j :: 0 <= j < n && SeenAt(f, b, j, now, d)
  }

  lemma SeenNext(f: Features, b: Bucket, n: nat, now: Timeout.Tick, d: string)
    requires Shape(b)
    ensures SeenBelow(f, b, n + 1, now, d) <==> SeenBelow(f, b, n, now, d) || SeenAt(f, b, n, now, d)
    ensures !SeenBelow(f, b, 0, now, d)
  {
    hide SeenAt;
  }

  lemma SeenOnce(f: Features, b: Bucket, part: Entries, n: nat, now: Timeout.Tick, d: string)
    requires Holds(b, part) && SeenAt(f, b, n, now, d)
    ensures !SeenBelow(f, b, n, now, d)
  {
    hide Dead;
  }

  lemma SlotIn(b: Bucket, part: Entries, j: nat)
    requires Holds(b, part) && InUse(b, j)
    ensures b.value[j].dom in part && part[b.value[j].dom] == b.value[j]
  {
  }

  lemma {:induction false} VisibleMember(f: Features, b: Bucket, part: Entries, n: nat, now: Timeout.Tick)
    requires Holds(b, part) && n <= b.pos && n <= |b.used| && n <= |b.value|
    ensures forall x :: x in Visible(f, b, n, now) ==> AliveIn(f, part, x.dom, now) && part[x.dom] == x
  {
    if n > 0 {
      VisibleMember(f, b, part, n - 1, now);
      assert Shape(b);
      VisibleLast(f, b, n, now);
      hide Visible, Holds, Dead, Shape;
      if InUse(b, n - 1) && !Dead(f, b.value[n - 1], now) {
        SlotIn(b, part, n - 1);
      }
    }
  }

  lemma {:induction false} VisibleCount(f: Features, b: Bucket, part: Entries, n: nat, now: Timeout.Tick, d: string)
    requires Holds(b, part) && n <= b.pos && n <= |b.used| && n <= |b.value|
    ensures Count(Visible(f, b, n, now), d) == if SeenBelow(f, b, n, now, d) then 1 else 0
  {
    assert Shape(b);
    if n == 0 {
      SeenNext(f, b, 0, now, d);
    } else {
      VisibleCount(f, b, part, n - 1, now, d);
      VisibleLast(f, b, n, now);
      SeenNext(f, b, n - 1, now, d);
      hide Visible, Holds, Dead, Count, SeenBelow, Shape;
      assert Visible(f, b, n - 1, now) + [] == Visible(f, b, n - 1, now);
      if SeenAt(f, b, n - 1, now, d) {
        SeenOnce(f, b, part, n - 1, now, d);
      }
      if InUse(b, n - 1) {
        CountLast(Visible(f, b, n - 1, now), b.value[n - 1], d);
      }
    }
  }

  lemma CountLast(s: seq<Slot>, x: Slot, d: string)
    ensures Count(s + [x], d) == Count(s, d) + (if x.dom == d then 1 else 0)
  {
    assert (s + [x])[..|s|] == s;
  }

  /** A scan of bucket b finds each unexpired entry that hashes there once, and nothing else. */
  lemma FoundCount(f: Features, h: Hash, n: nat, hist: seq<Moment>, sc: Scan, b: nat, d: string)
    requires GoodScan(h, n, hist, sc) && b < n
    ensures Count(Found(f, sc, b), d) == if Key(h, d, n) == b && AliveIn(f, hist[sc.at].m, d, sc.now) then 1 else 0
    ensures forall x :: x in Found(f, sc, b) ==>
              AliveIn(f, hist[sc.at].m, x.dom, sc.now) && hist[sc.at].m[x.dom] == x
  {
    var m := hist[sc.at].m;
    var part := Part(h, n, m, b);
    HoldsRow(sc.rows, h, m, b);
    if sc.rows[b].Some? {
      var c := sc.rows[b].value;
      VisibleMember(f, c, part, c.pos, sc.now);
      VisibleCount(f, c, part, c.pos, sc.now, d);
      hide Visible, Represents;
      if d in part {
        assert HasDom(c, d);
        var i :| InUse(c, i) && c.value[i].dom == d;
        assert AliveIn(f, part, d, sc.now) ==> SeenAt(f, c, i, sc.now, d);
      }
    } else {
      assert RowHolds(sc.rows[b], part) && d !in part;
    }
  }

  lemma {:induction false} ListedCount(f: Features, h: Hash, n: nat, hist: seq<Moment>, log: seq<Scan>, hi: nat,
                                       d: string)
    requires n > 0 && GoodLog(h, n, hist, log) && hi <= |log| <= n
    ensures var k := Key(h, d, n);
            Count(Listed(f, log, 0, hi), d) ==
              if k < hi && AliveIn(f, hist[log[k].at].m, d, log[k].now) then 1 else 0
    ensures forall x :: x in Listed(f, log, 0, hi) && x.dom == d ==>
              var k := Key(h, d, n); k < hi && d in hist[log[k].at].m && hist[log[k].at].m[d] == x
  {
    hide GoodScan, InOrder, Found;
    assert forall k :: 0 <= k < |log| ==> GoodScan(h, n, hist, log[k]);
    assert forall k :: 0 <= k < |log| ==> log[k].at < |hist| by { ScansIn(h, n, hist, log); }
    if hi > 0 {
      ListedCount(f, h, n, hist, log, hi - 1, d);
      FoundCount(f, h, n, hist, log[hi - 1], hi - 1, d);
      CountConcat(Listed(f, log, 0, hi - 1), Found(f, log[hi - 1], hi - 1), d);
      CountPositive(Found(f, log[hi - 1], hi - 1), d);
    }
  }

  lemma ScansIn(h: Hash, n: nat, hist: seq<Moment>, log: seq<Scan>)
    requires GoodLog(h, n, hist, log)
    ensures forall k :: 0 <= k < |log| ==> log[k].at < |hist|
  {
    forall k | 0 <= k < |log| ensures log[k].at < |hist| {
      assert GoodScan(h, n, hist, log[k]);
    }
  }

  /** A finished dump lists d exactly once if it was an unexpired member of the dumped table when its bucket was
      scanned, with the entry it had there, and otherwise not at all; whatever was added, deleted, flushed, collected
      or moved to a wider table in between. */
  lemma ListedExactlyOnce(f: Features, h: Hash, n: nat, hist: seq<Moment>, log: seq<Scan>, d: string)
    requires n > 0 && GoodLog(h, n, hist, log) && |log| == n
    ensures Key(h, d, n) < n && log[Key(h, d, n)].at < |hist|
    ensures var sc := log[Key(h, d, n)];
            Count(Listed(f, log, 0, n), d) == if AliveIn(f, hist[sc.at].m, d, sc.now) then 1 else 0
    ensures forall x :: x in Listed(f, log, 0, n) && x.dom == d ==>
              d in hist[log[Key(h, d, n)].at].m && x == hist[log[Key(h, d, n)].at].m[d]
  {
    ScansIn(h, n, hist, log);
    ListedCount(f, h, n, hist, log, n, d);
  }

  /** Only a wider table parts the dump from the set's own table. */
  lemma PartedByWiden(f: Features, cap: nat, hist: seq<Moment>, evs: seq<Happening>, at: nat)
    requires History(f, cap, hist, evs) && LastOwn(hist, at, |evs|) && at < |evs|
    ensures evs[at].ev.Widen? && hist[at + 1].m == hist[at].m
  {
    assert Follows(f, cap, hist[at], evs[at], hist[at + 1]);
  }

  // ---------------------------------------------------------------- what does not depend on the scans

  /** The operation leaves d a member with its deadline, unless it has expired. */
  predicate Spares(f: Features, ev: Event, d: string) {
    match ev
    case AddElem(x, _, exist) => x != d || !exist || !f.timeout
    case DelElem(x) => x != d
    case FlushAll => false
    case _ => true
  }

  lemma SparedStep(f: Features, cap: nat, a: Moment, h: Happening, b: Moment, d: string)
    requires Follows(f, cap, a, h, b) && Spares(f, h.ev, d) && AliveIn(f, a.m, d, h.at)
    ensures d in b.m && (f.timeout ==> b.m[d].deadline == a.m[d].deadline)
  {
    hide RoomStep, Occupancy, Expired;
  }

  lemma {:induction false} Spared(f: Features, cap: nat, hist: seq<Moment>, evs: seq<Happening>, d: string, j: nat)
    requires History(f, cap, hist, evs) && j <= |evs| && d in hist[0].m
    requires forall i :: 0 <= i < j ==> Spares(f, evs[i].ev, d) && !Dead(f, hist[0].m[d], evs[i].at)
    ensures d in hist[j].m && (f.timeout ==> hist[j].m[d].deadline == hist[0].m[d].deadline)
  {
    if j > 0 {
      Spared(f, cap, hist, evs, d, j - 1);
      hide Follows;
      SparedStep(f, cap, hist[j - 1], evs[j - 1], hist[j], d);
    }
  }

  /** A member when the dump begins is listed exactly once if nothing that happens deletes it and it has not expired
      at any reading of the clock. */
  lemma MemberListedOnce(f: Features, h: Hash, cap: nat, n: nat, between: nat -> seq<Happening>,
                         clock: nat -> Timeout.Tick, scans: nat, hist: seq<Moment>, log: seq<Scan>, d: string)
    requires n > 0 && GoodLog(h, n, hist, log) && |log| == n && AllDated(between, clock, log)
    requires NumberedBelow(log, scans) && History(f, cap, hist, Past(between, scans)) && d in hist[0].m
    requires forall x :: x in Past(between, scans) ==> Spares(f, x.ev, d) && !Dead(f, hist[0].m[d], x.at)
    requires forall nr :: 0 <= nr < scans ==> !Dead(f, hist[0].m[d], clock(nr))
    ensures Count(Listed(f, log, 0, n), d) == 1
  {
    ListedExactlyOnce(f, h, n, hist, log, d);
    var sc := log[Key(h, d, n)];
    assert Dated(between, clock, sc);
    Spared(f, cap, hist, Past(between, scans), d, sc.at);
  }

  lemma StrangerStep(f: Features, cap: nat, a: Moment, h: Happening, b: Moment, d: string)
    requires Follows(f, cap, a, h, b) && !(h.ev.AddElem? && h.ev.d == d) && d !in a.m
    ensures d !in b.m
  {
    hide RoomStep, Occupancy, Expired;
  }

  lemma {:induction false} Stranger(f: Features, cap: nat, hist: seq<Moment>, evs: seq<Happening>, d: string, j: nat)
    requires History(f, cap, hist, evs) && j <= |evs| && d !in hist[0].m
    requires forall i :: 0 <= i < j ==> !(evs[i].ev.AddElem? && evs[i].ev.d == d)
    ensures d !in hist[j].m
  {
    if j > 0 {
      Stranger(f, cap, hist, evs, d, j - 1);
      hide Follows;
      StrangerStep(f, cap, hist[j - 1], evs[j - 1], hist[j], d);
    }
  }

  /** A name that is no member when the dump begins and is never added is not listed. */
  lemma StrangerNotListed(f: Features, h: Hash, cap: nat, n: nat, between: nat -> seq<Happening>, scans: nat,
                          hist: seq<Moment>, log: seq<Scan>, d: string)
    requires n > 0 && GoodLog(h, n, hist, log) && |log| == n
    requires History(f, cap, hist, Past(between, scans)) && d !in hist[0].m
    requires forall x :: x in Past(between, scans) ==> !(x.ev.AddElem? && x.ev.d == d)
    ensures Count(Listed(f, log, 0, n), d) == 0
  {
    ListedExactlyOnce(f, h, n, hist, log, d);
    Stranger(f, cap, hist, Past(between, scans), d, log[Key(h, d, n)].at);
  }
}
