/** The messages of a restore delivered to a set: the set is an executor of commands. */
module RestoreOnSet {
  import opened Options
  import opened Timeout
  import opened HashTable
  import opened HashSet
  import opened Sets
  import opened SetCommands
  import opened SessionWire
  import opened Session

  // ---------------------------------------------------------------- one message

  /** What the attributes of an element mean to the set; reading them is not modelled. */
  type Meaning = Element -> (string, Ext)

  function AdtOf(kind: Kind): Adt {
    if kind.DelCmd? then AdtDel else AdtAdd
  }

  function ItemOf(mean: Meaning, c: Command): SetCommands.Item {
    SetCommands.Item(mean(c.attrs).0, mean(c.attrs).1, c.lineno)
  }

  /** The set accepts the command, reading the clock given, and goes from m to m'. */
  ghost predicate Took(f: Features, cap: nat, mean: Meaning, c: Command, clock: nat -> Tick, m: Entries, m': Entries) {
    AppliedAt(f, cap, AdtOf(c.kind), ItemOf(mean, c), c.exist, clock, m, m')
  }

  /** The set refuses it, for a reason. */
  ghost predicate Refused(f: Features, cap: nat, mean: Meaning, c: Command, clock: nat -> Tick, m: Entries, m': Entries,
                          short: bool)
  {
    exists ret :: Rejected(f, cap, AdtOf(c.kind), ItemOf(mean, c), c.exist, clock, m, m', short, ret)
  }

  /** The set takes the first |states| - 1 of the commands, one after the other, each with its clock. */
  ghost predicate TookAll(f: Features, cap: nat, mean: Meaning, cs: seq<Command>, clocks: seq<nat -> Tick>,
                          states: seq<Entries>)
  {
    && |clocks| == |cs| && 0 < |states| <= |cs| + 1
    && forall k :: 0 <= k < |states| - 1 ==> Took(f, cap, mean, cs[k], clocks[k], states[k], states[k + 1])
  }

  /** How a set that held m0 does with the commands: it takes them all and holds m', or it takes those before the first
      one that it refuses, whose line it reports. */
  ghost predicate Delivered(f: Features, cap: nat, mean: Meaning, cs: seq<Command>, clocks: seq<nat -> Tick>,
                            m0: Entries, states: seq<Entries>, failed: bool, line: nat, m': Entries, short: bool)
  {
    && TookAll(f, cap, mean, cs, clocks, states) && states[0] == m0
    && (failed <==> |states| <= |cs|)
    && var k := |states| - 1;
       if failed then line == cs[k].lineno && Refused(f, cap, mean, cs[k], clocks[k], states[k], m', short)
       else m' == states[k]
  }

  function ClocksOf(b: Batch, clock: nat -> nat -> Tick): seq<nat -> Tick> {
    seq<nat -> Tick>(|b.items|, k requires 0 <= k < |b.items| => clock(k))
  }

  lemma TookBatch(f: Features, cap: nat, mean: Meaning, b: Batch, items: seq<SetCommands.Item>,
                  clock: nat -> nat -> Tick, states: seq<Entries>)
    requires |items| == |b.items|
    requires forall k :: 0 <= k < |items| ==> items[k] == ItemOf(mean, Unpack(b)[k])
    requires Applied(f, cap, AdtOf(b.kind), items, b.exist, clock, states)
    ensures TookAll(f, cap, mean, Unpack(b), ClocksOf(b, clock), states)
  {
    hide AppliedAt;
    forall k | 0 <= k < |states| - 1
      ensures Took(f, cap, mean, Unpack(b)[k], ClocksOf(b, clock)[k], states[k], states[k + 1])
    {
      assert AppliedAt(f, cap, AdtOf(b.kind), items[k], b.exist, clock(k), states[k], states[k + 1]);
    }
  }

  lemma RefusedIs(f: Features, cap: nat, mean: Meaning, c: Command, clock: nat -> Tick, m: Entries, m': Entries,
                  short: bool, ret: Ret)
    requires Rejected(f, cap, AdtOf(c.kind), ItemOf(mean, c), c.exist, clock, m, m', short, ret)
    ensures Refused(f, cap, mean, c, clock, m, m', short)
  {
    hide Rejected;
  }

  // ---------------------------------------------------------------- what taking and refusing a command means

  /** The entry carries the extensions given. */
  predicate Carries(f: Features, s: Slot, ext: Ext, now: Tick) {
    && (f.timeout ==> s.deadline == TimeoutSet(ext.timeout, now)) && (f.skbinfo ==> s.skb == ext.skb)
    && (f.counter && ext.bytes != ULLONG_MAX ==> s.bytes == ext.bytes)
    && (f.counter && ext.packets != ULLONG_MAX ==> s.packets == ext.packets)
  }

  /** Of the entries other than d none appears or changes, and only those go that had expired at one of the first n
      readings of the clock. */
  ghost predicate OthersStay(f: Features, d: string, m: Entries, m': Entries, clock: nat -> Tick, n: nat) {
    && (forall x :: x in m' && x != d ==> x in m && m'[x] == m[x])
    && (forall x :: x in m && x != d && x !in m' ==> exists j :: 0 <= j < n && Dead(f, m[x], clock(j)))
  }

  /** d is an unexpired member. */
  predicate Present(f: Features, m: Entries, d: string, now: Tick) {
    d in m && !Dead(f, m[d], now)
  }

  /** What the tries before the last and the last leave of the other entries. */
  lemma OthersVia(f: Features, d: string, m: Entries, mid: Entries, m': Entries, clock: nat -> Tick, n: nat)
    requires forall x :: x in mid ==> x in m && mid[x] == m[x]
    requires forall x :: x in m && x !in mid ==> exists j :: 0 <= j < n && Dead(f, m[x], clock(j))
    requires OthersKept(f, mid, m', d, clock(n))
    ensures OthersStay(f, d, m, m', clock, n + 1)
  {
    forall x | x in m && x != d && x !in m' ensures exists j :: 0 <= j < n + 1 && Dead(f, m[x], clock(j)) {
      if x in mid {
        assert Dead(f, m[x], clock(n));
      }
    }
  }

  lemma AddOn(f: Features, it: SetCommands.Item, exist: bool, now: Tick, mid: Entries, m': Entries)
    requires AcceptedOn(f, AdtAdd, it, exist, now, mid, m')
    ensures it.dom in m' && m'[it.dom].dom == it.dom && Carries(f, m'[it.dom], it.ext, now)
    ensures (!exist ==> !Present(f, mid, it.dom, now)) && OthersKept(f, mid, m', it.dom, now)
  {
    hide Expired, TimeoutSet;
  }

  /** After an add that is taken, at reading n, the name is a member with what was given; without -exist it was none, or
      had expired at that reading or an earlier one. */
  lemma AddTaken(f: Features, cap: nat, mean: Meaning, c: Command, clock: nat -> Tick, m: Entries, m': Entries)
    returns (n: nat)
    requires c.kind.AddCmd? && Took(f, cap, mean, c, clock, m, m')
    ensures var d := mean(c.attrs).0;
            && n <= MAX_HTABLE_BITS && d in m' && m'[d].dom == d && Carries(f, m'[d], mean(c.attrs).1, clock(n))
            && (!c.exist && d in m ==> exists j :: 0 <= j <= n && Dead(f, m[d], clock(j)))
            && OthersStay(f, d, m, m', clock, n + 1)
  {
    var it := ItemOf(mean, c);
    var found :| Tried(f, cap, AdtAdd, it.dom, m, clock, found)
                 && AcceptedOn(f, AdtAdd, it, c.exist, clock(|found| - 1), found[|found| - 1], m');
    n := |found| - 1;
    assert n <= MAX_HTABLE_BITS;
    var d, mid := it.dom, found[n];
    TriedPrunes(f, cap, AdtAdd, d, m, clock, found, n);
    hide Tried, AcceptedOn, Took, OthersKept, OthersStay, Carries, Dead;
    AddOn(f, it, c.exist, clock(n), mid, m');
    OthersVia(f, d, m, mid, m', clock, n);
    if !c.exist && d in m {
      assert d in mid ==> Dead(f, m[d], clock(n));
    }
  }

  /** After a delete that is taken, at the first reading, nothing but the name is gone; with -exist it need not have
      been a member. */
  lemma DelTaken(f: Features, cap: nat, mean: Meaning, c: Command, clock: nat -> Tick, m: Entries, m': Entries)
    requires c.kind.DelCmd? && Took(f, cap, mean, c, clock, m, m')
    ensures var d := mean(c.attrs).0;
            && !Present(f, m', d, clock(0)) && (!c.exist ==> Present(f, m, d, clock(0)))
            && m' == (if Present(f, m, d, clock(0)) then m - {d} else m)
  {
    hide AsksWider;
  }

  lemma RefusedAdd(f: Features, cap: nat, it: SetCommands.Item, exist: bool, now: Tick, mid: Entries, m': Entries,
                   short: bool, ret: Ret)
    requires RefusedOn(f, cap, AdtAdd, it, exist, now, mid, m', short, ret) && !Accepted(ret, exist)
    ensures Pruned(f, mid, m', now) && OthersKept(f, mid, m', it.dom, now)
    ensures if ret == ErrExist then !exist && Present(f, mid, it.dom, now) && Present(f, m', it.dom, now)
            else (exist || !Present(f, mid, it.dom, now)) && (short || Occupancy(f, cap, mid, now) >= cap)
  {
    hide Occupancy, Expired;
  }

  /** An add that is refused is one of a member without -exist, or one to a set, as the last try at reading n finds it,
      that is full, or memory has run short; nothing is added, and only expired entries go. */
  lemma AddRefused(f: Features, cap: nat, mean: Meaning, c: Command, clock: nat -> Tick, m: Entries, m': Entries,
                   short: bool) returns (n: nat, mid: Entries)
    requires c.kind.AddCmd? && Refused(f, cap, mean, c, clock, m, m', short)
    ensures var d := mean(c.attrs).0;
            && n <= MAX_HTABLE_BITS && OthersStay(f, d, m, m', clock, n + 1) && (d in m' ==> d in m && m'[d] == m[d])
            && (forall x :: x in mid ==> x in m && mid[x] == m[x])
            && ((!c.exist && Present(f, m, d, clock(n)) && Present(f, m', d, clock(n)))
                || ((c.exist || !Present(f, mid, d, clock(n))) && (short || Occupancy(f, cap, mid, clock(n)) >= cap)))
  {
    var it := ItemOf(mean, c);
    var ret :| Rejected(f, cap, AdtAdd, it, c.exist, clock, m, m', short, ret);
    var found :| Tried(f, cap, AdtAdd, it.dom, m, clock, found)
                 && RefusedOn(f, cap, AdtAdd, it, c.exist, clock(|found| - 1), found[|found| - 1], m', short, ret);
    n := |found| - 1;
    assert n <= MAX_HTABLE_BITS;
    mid := found[n];
    TriedPrunes(f, cap, AdtAdd, it.dom, m, clock, found, n);
    hide Tried, RefusedOn, Rejected, Refused, OthersKept, OthersStay, Dead, Occupancy;
    RefusedAdd(f, cap, it, c.exist, clock(n), mid, m', short, ret);
    OthersVia(f, it.dom, m, mid, m', clock, n);
  }

  /** A delete that is refused is one of a name that is no member, without -exist, and changes nothing. */
  lemma DelRefused(f: Features, cap: nat, mean: Meaning, c: Command, clock: nat -> Tick, m: Entries, m': Entries,
                   short: bool)
    requires c.kind.DelCmd? && Refused(f, cap, mean, c, clock, m, m', short)
    ensures !c.exist && !Present(f, m, mean(c.attrs).0, clock(0)) && m' == m
  {
    hide AsksWider, Occupancy, Expired;
  }

  lemma OccupancyAtMost(f: Features, cap: nat, m: Entries, mid: Entries, now: Tick)
    requires forall x :: x in mid ==> x in m
    ensures Occupancy(f, cap, mid, now) <= |m|
  {
    LiveCard(f, mid, now);
    CardSubset(mid.Keys, m.Keys);
  }

  /** What a set has done with the commands: each one taken has made its name a member with what was given, or no member
      any more; and the one refused, in a set with room and memory, is an add of what is there or a delete of what is
      not. */
  lemma DeliveredMeans(f: Features, cap: nat, mean: Meaning, cs: seq<Command>, clocks: seq<nat -> Tick>, m0: Entries,
                       states: seq<Entries>, failed: bool, line: nat, m': Entries, short: bool)
    requires Delivered(f, cap, mean, cs, clocks, m0, states, failed, line, m', short)
    ensures forall k :: 0 <= k < |states| - 1 && cs[k].kind.AddCmd? ==>
              var d := mean(cs[k].attrs).0;
              d in states[k + 1] && CarriesAtOne(f, states[k + 1][d], mean(cs[k].attrs).1, clocks[k])
    ensures forall k :: 0 <= k < |states| - 1 && cs[k].kind.DelCmd? ==>
              !Present(f, states[k + 1], mean(cs[k].attrs).0, clocks[k](0))
    ensures failed ==>
              var c, m, clock := cs[|states| - 1], states[|states| - 1], clocks[|states| - 1];
              && (c.kind.DelCmd? ==> !c.exist && !Present(f, m, mean(c.attrs).0, clock(0)) && m' == m)
              && (c.kind.AddCmd? && !short && |m| < cap ==> !c.exist && PresentAtOne(f, m', mean(c.attrs).0, clock))
  {
    hide Took, Refused, OthersStay, Carries, Present;
    forall k | 0 <= k < |states| - 1 && cs[k].kind.AddCmd?
      ensures var d := mean(cs[k].attrs).0;
              d in states[k + 1] && CarriesAtOne(f, states[k + 1][d], mean(cs[k].attrs).1, clocks[k])
    {
      var n := AddTaken(f, cap, mean, cs[k], clocks[k], states[k], states[k + 1]);
    }
    forall k | 0 <= k < |states| - 1 && cs[k].kind.DelCmd?
      ensures !Present(f, states[k + 1], mean(cs[k].attrs).0, clocks[k](0))
    {
      DelTaken(f, cap, mean, cs[k], clocks[k], states[k], states[k + 1]);
    }
    if failed {
      var c, m, clock := cs[|states| - 1], states[|states| - 1], clocks[|states| - 1];
      if c.kind.DelCmd? {
        DelRefused(f, cap, mean, c, clock, m, m', short);
      } else if c.kind.AddCmd? {
        var n, mid := AddRefused(f, cap, mean, c, clock, m, m', short);
        OccupancyAtMost(f, cap, m, mid, clock(n));
      }
    }
  }

  ghost predicate CarriesAtOne(f: Features, s: Slot, ext: Ext, clock: nat -> Tick) {
    exists n :: 0 <= n <= MAX_HTABLE_BITS && Carries(f, s, ext, clock(n))
  }

  ghost predicate PresentAtOne(f: Features, m: Entries, d: string, clock: nat -> Tick) {
    exists n :: 0 <= n <= MAX_HTABLE_BITS && Present(f, m, d, clock(n))
  }

  // ---------------------------------------------------------------- delivery

  /** One message: the commands before the first one that the set refuses take effect, and its line is reported.
      clock(k) is read by the tries of command k. */
  method Deliver(dset: DomainSet, b: Batch, mean: Meaning, clock: nat -> nat -> Tick)
    returns (failed: bool, line: nat, ghost states: seq<Entries>)
    requires dset.Valid() && (b.kind.AddCmd? || b.kind.DelCmd?)
    modifies dset, dset.table, dset.table.bucket, dset.table.chain
    ensures dset.Valid()
    ensures dset.table == old(dset.table) || (fresh(dset.table) && fresh(dset.table.bucket))
    ensures fresh(dset.table.chain - old(dset.table.chain)) && states != []
    ensures Delivered(dset.feat, dset.maxelem, mean, Unpack(b), ClocksOf(b, clock), old(dset.stored), states, failed,
                      line, dset.stored, dset.Short())
  {
    hide Applied, AppliedAt, Rejected, Took, Refused, DomainSet.Core;
    var items := seq(|b.items|, k requires 0 <= k < |b.items| =>
                       SetCommands.Item(mean(b.items[k].attrs).0, mean(b.items[k].attrs).1, b.items[k].lineno));
    var ret, done;
    ret, line, done, states := DomainSetAd(dset, AdtOf(b.kind), items, b.exist, clock);
    TookBatch(dset.feat, dset.maxelem, mean, b, items, clock, states);
    failed := ret != Success;
    if failed {
      RefusedIs(dset.feat, dset.maxelem, mean, Unpack(b)[done], clock(done), states[done], dset.stored, dset.Short(),
                ret);
    }
  }

  // ---------------------------------------------------------------- a stream of messages

  function UnpackAll(bs: seq<Batch>): seq<Command> {
    if bs == [] then [] else UnpackAll(bs[..|bs| - 1]) + Unpack(bs[|bs| - 1])
  }

  /** The clocks of all the commands; clock(i) is that of message i. */
  function Clocks(bs: seq<Batch>, clock: nat -> nat -> nat -> Tick): (r: seq<nat -> Tick>)
    ensures |r| == |UnpackAll(bs)|
  {
    if bs == [] then [] else Clocks(bs[..|bs| - 1], clock) + ClocksOf(bs[|bs| - 1], clock(|bs| - 1))
  }

  lemma UnpackNext(bs: seq<Batch>, clock: nat -> nat -> nat -> Tick, i: nat)
    requires i < |bs|
    ensures UnpackAll(bs[..i + 1]) == UnpackAll(bs[..i]) + Unpack(bs[i])
    ensures Clocks(bs[..i + 1], clock) == Clocks(bs[..i], clock) + ClocksOf(bs[i], clock(i))
  {
    assert bs[..i + 1][..i] == bs[..i];
  }

  lemma {:induction false} UnpackPrefix(bs: seq<Batch>, clock: nat -> nat -> nat -> Tick, i: nat)
    requires i <= |bs|
    ensures UnpackAll(bs[..i]) <= UnpackAll(bs) && Clocks(bs[..i], clock) <= Clocks(bs, clock)
    decreases |bs| - i
  {
    if i == |bs| {
      assert bs[..i] == bs;
    } else {
      UnpackNext(bs, clock, i);
      UnpackPrefix(bs, clock, i + 1);
    }
  }

  /** Two stretches of accepted commands in a row. */
  lemma TookBoth(f: Features, cap: nat, mean: Meaning, a: seq<Command>, b: seq<Command>, ca: seq<nat -> Tick>,
                 cb: seq<nat -> Tick>, sa: seq<Entries>, sb: seq<Entries>)
    requires TookAll(f, cap, mean, a, ca, sa) && |sa| == |a| + 1
    requires TookAll(f, cap, mean, b, cb, sb) && sb[0] == sa[|a|]
    ensures TookAll(f, cap, mean, a + b, ca + cb, sa + sb[1..])
  {
    hide Took;
    var states := sa + sb[1..];
    forall k | 0 <= k < |states| - 1
      ensures Took(f, cap, mean, (a + b)[k], (ca + cb)[k], states[k], states[k + 1])
    {
      if k >= |a| {
        assert Took(f, cap, mean, b[k - |a|], cb[k - |a|], sb[k - |a|], sb[k - |a| + 1]);
      }
    }
  }

  lemma TookMore(f: Features, cap: nat, mean: Meaning, a: seq<Command>, b: seq<Command>, ca: seq<nat -> Tick>,
                 cb: seq<nat -> Tick>, states: seq<Entries>)
    requires TookAll(f, cap, mean, a, ca, states) && a <= b && ca <= cb && |cb| == |b|
    ensures TookAll(f, cap, mean, b, cb, states)
  {
    hide Took;
    assert forall k :: 0 <= k < |a| ==> b[k] == a[k] && cb[k] == ca[k];
  }

  /** Message i on top of all those before it. */
  lemma DeliveredNext(f: Features, cap: nat, mean: Meaning, bs: seq<Batch>, i: nat, clock: nat -> nat -> nat -> Tick,
                      m0: Entries, states: seq<Entries>, line0: nat, m: Entries, short0: bool, more: seq<Entries>,
                      failed: bool, line: nat, m': Entries, short: bool)
    requires i < |bs|
    requires Delivered(f, cap, mean, UnpackAll(bs[..i]), Clocks(bs[..i], clock), m0, states, false, line0, m, short0)
    requires Delivered(f, cap, mean, Unpack(bs[i]), ClocksOf(bs[i], clock(i)), m, more, failed, line, m', short)
    ensures var n := if failed then |bs| else i + 1;
            Delivered(f, cap, mean, UnpackAll(bs[..n]), Clocks(bs[..n], clock), m0, states + more[1..], failed, line,
                      m', short)
  {
    hide Took, Refused, Unpack, UnpackAll, Clocks, ClocksOf;
    var before, cs, clocks := UnpackAll(bs[..i]), Unpack(bs[i]), ClocksOf(bs[i], clock(i));
    UnpackNext(bs, clock, i);
    TookBoth(f, cap, mean, before, cs, Clocks(bs[..i], clock), clocks, states, more);
    if failed {
      UnpackPrefix(bs, clock, i + 1);
      assert bs[..|bs|] == bs;
      TookMore(f, cap, mean, before + cs, UnpackAll(bs), Clocks(bs[..i], clock) + clocks, Clocks(bs, clock),
               states + more[1..]);
    }
  }

  lemma DeliveredNone(f: Features, cap: nat, mean: Meaning, clock: nat -> nat -> nat -> Tick, m: Entries, short: bool)
    ensures Delivered(f, cap, mean, UnpackAll([]), Clocks([], clock), m, [m], false, 0, m, short)
  {
  }

  /** The messages of a restore, one after the other up to the first that fails. clock(i)(k) is read by the tries of
      command k of message i. */
  method DeliverAll(dset: DomainSet, bs: seq<Batch>, mean: Meaning, clock: nat -> nat -> nat -> Tick)
    returns (failed: bool, line: nat, ghost states: seq<Entries>)
    requires dset.Valid() && forall k :: 0 <= k < |bs| ==> bs[k].kind.AddCmd? || bs[k].kind.DelCmd?
    modifies dset, dset.table, dset.table.bucket, dset.table.chain
    ensures dset.Valid()
    ensures Delivered(dset.feat, dset.maxelem, mean, UnpackAll(bs), Clocks(bs, clock), old(dset.stored), states, failed,
                      line, dset.stored, dset.Short())
  {
    hide Delivered, UnpackAll, Clocks, Unpack, ClocksOf, DomainSet.Core;
    failed, line, states := false, 0, [dset.stored];
    DeliveredNone(dset.feat, dset.maxelem, mean, clock, dset.stored, dset.Short());
    var i := 0;
    assert bs[..0] == [] && bs[..|bs|] == bs;
    while i < |bs|
      invariant i <= |bs| && dset.Valid() && !failed
      invariant dset.table == old(dset.table) || (fresh(dset.table) && fresh(dset.table.bucket))
      invariant fresh(dset.table.chain - old(dset.table.chain))
      invariant Delivered(dset.feat, dset.maxelem, mean, UnpackAll(bs[..i]), Clocks(bs[..i], clock), old(dset.stored),
                          states, false, line, dset.stored, dset.Short())
    {
      ghost var m, short, line0, more := dset.stored, dset.Short(), line, states;
      failed, line, more := Deliver(dset, bs[i], mean, clock(i));
      DeliveredNext(dset.feat, dset.maxelem, mean, bs, i, clock, old(dset.stored), states, line0, m, short, more,
                    failed, line, dset.stored, dset.Short());
      states := states + more[1..];
      i := i + 1;
      if failed {
        return;
      }
    }
  }

  lemma {:induction false} UnpackKinds(bs: seq<Batch>)
    requires forall k :: 0 <= k < |bs| ==> bs[k].kind.AddCmd? || bs[k].kind.DelCmd?
    ensures forall k :: 0 <= k < |UnpackAll(bs)| ==> UnpackAll(bs)[k].kind.AddCmd? || UnpackAll(bs)[k].kind.DelCmd?
    decreases |bs|
  {
    if bs != [] {
      UnpackKinds(bs[..|bs| - 1]);
    }
  }

  // ---------------------------------------------------------------- the set as the kernel of a restore

  /** The contents of a set, and the commands it will take with the contents that each leaves. */
  datatype Tape = Tape(m: Entries, left: seq<(Command, Entries)>)

  /** An executor that does what the set did with the commands that the set was given, and fails where it failed. */
  ghost function Replay(k: Tape, c: Command): Outcome<Tape> {
    if k.left == [] || k.left[0].0 != c then Session.Failed(k) else Session.Done(Tape(k.left[0].1, k.left[1..]))
  }

  ghost function TapeOf(cs: seq<Command>, states: seq<Entries>): Tape
    requires 0 < |states| <= |cs| + 1
  {
    Tape(states[0], seq(|states| - 1, k requires 0 <= k < |states| - 1 => (cs[k], states[k + 1])))
  }

  lemma {:induction false} ReplayAll(cs: seq<Command>, states: seq<Entries>)
    requires 0 < |states| <= |cs| + 1
    ensures Exec(Replay, TapeOf(cs, states), cs) == (Tape(states[|states| - 1], []), |states| - 1)
    decreases |cs|
  {
    if |states| > 1 {
      ReplayAll(cs[1..], states[1..]);
      assert TapeOf(cs, states).left[1..] == TapeOf(cs[1..], states[1..]).left;
    }
  }

  /** The commands of a stream that are sent before it ends or a line does not parse. */
  function Executed(bufsize: nat, lines: seq<Option<Line>>, env: bool): seq<Command>
    requires LinesOk(Good(lines))
  {
    EndCount(bufsize, Good(lines), Nothing, env);
    var all := Sent(bufsize, Good(lines), Nothing, env);
    if |Good(lines)| == |lines| then all
    else all[..|all| - Count(Before(bufsize, Good(lines), |Good(lines)|, Nothing, env).0)]
  }

  lemma {:induction false} SentNumbers(bufsize: nat, lines: seq<Line>, o: Collecting, env: bool, k: nat)
    requires LinesOk(lines) && k < |Sent(bufsize, lines, o, env)|
    requires var c := Sent(bufsize, lines, o, env)[k]; c.kind.AddCmd? || c.kind.DelCmd?
    ensures k < |LineNumbers(lines)| && Sent(bufsize, lines, o, env)[k].lineno == LineNumbers(lines)[k]
    decreases |lines|
  {
    assert lines != [] && LineOk(lines[0]) && LinesOk(lines[1..]);
    hide *;
    var s := Next(bufsize, lines[0], o, env);
    SentCount(bufsize, lines, o, env);
    SentUnfold(bufsize, lines, o, env);
    AddedNumber(bufsize, lines[0], o, env);
    if !lines[0].Run? {
      SentNumbers(bufsize, lines[1..], s.0, s.1, k);
    } else if k > 0 {
      SentNumbers(bufsize, lines[1..], s.0, s.1, k - 1);
    }
  }

  lemma AddedNumber(bufsize: nat, l: Line, o: Collecting, env: bool)
    requires LineOk(l)
    ensures |Added(bufsize, l, o, env)| == |NumberOf(l)| == if l.Run? then 1 else 0
    ensures l.Run? ==>
              var c := Added(bufsize, l, o, env)[0];
              c.kind.AddCmd? || c.kind.DelCmd? ==> c.lineno == NumberOf(l)[0]
  {
    hide Flag, CommandOk;
  }

  /** A restore whose kernel is the set, by the messages it sends: if this is how a set does with messages bs, then the
      restore of a stream whose commands these are ends as the set does, with the line of the very command that the
      set refuses, and the kernel holds what the set held then. */
  lemma RestoreAsDelivered(sess: DsetSession<Tape>, r: Ended, lines: seq<Option<Line>>, env: bool, bs: seq<Batch>,
                           f: Features, cap: nat, mean: Meaning, clocks: seq<nat -> Tick>, m0: Entries,
                           states: seq<Entries>, failed: bool, line: nat, m': Entries, short: bool)
    requires forall k :: 0 <= k < |bs| ==> bs[k].kind.AddCmd? || bs[k].kind.DelCmd?
    requires Delivered(f, cap, mean, UnpackAll(bs), clocks, m0, states, failed, line, m', short)
    requires LinesOk(Good(lines)) && UnpackAll(bs) == Executed(sess.bufsize, lines, env)
    requires sess.kern == Replay && sess.start == TapeOf(UnpackAll(bs), states)
    requires sess.EndsAs(r, lines, Sent(sess.bufsize, Good(lines), Nothing, env), env)
    ensures r == if failed then FailedAt(line) else if |Good(lines)| < |lines| then Unparsed else Finished
    ensures sess.kernel.m == states[|states| - 1] && (!failed ==> sess.kernel.m == m')
  {
    DeliveredSize(f, cap, mean, UnpackAll(bs), clocks, m0, states, failed, line, m', short);
    hide *;
    RestoreEnds(sess, r, lines, env, bs, states, failed, line);
  }

  lemma RestoreEnds(sess: DsetSession<Tape>, r: Ended, lines: seq<Option<Line>>, env: bool, bs: seq<Batch>,
                    states: seq<Entries>, failed: bool, line: nat)
    requires forall k :: 0 <= k < |bs| ==> bs[k].kind.AddCmd? || bs[k].kind.DelCmd?
    requires 0 < |states| <= |UnpackAll(bs)| + 1 && (failed <==> |states| <= |UnpackAll(bs)|)
    requires failed ==> line == UnpackAll(bs)[|states| - 1].lineno
    requires LinesOk(Good(lines)) && UnpackAll(bs) == Executed(sess.bufsize, lines, env)
    requires sess.kern == Replay && sess.start == TapeOf(UnpackAll(bs), states)
    requires sess.EndsAs(r, lines, Sent(sess.bufsize, Good(lines), Nothing, env), env)
    ensures r == if failed then FailedAt(line) else if |Good(lines)| < |lines| then Unparsed else Finished
    ensures sess.kernel.m == states[|states| - 1]
  {
    hide Sent, Before, Good, LinesOk, LineNumbers, UnpackAll, TapeOf, Exec, Replay, Executed, Count, StoppedAt, Lost,
         FailsBefore;
    var out, all := UnpackAll(bs), Sent(sess.bufsize, Good(lines), Nothing, env);
    UnpackKinds(bs);
    ExecutedIs(sess.bufsize, lines, env);
    TapeRuns(out, all, states);
    if failed {
      SentNumbers(sess.bufsize, Good(lines), Nothing, env, |states| - 1);
    }
    var lost := Count(Before(sess.bufsize, Good(lines), |Good(lines)|, Nothing, env).0);
    EndDecided(Replay, sess.start, all, LineNumbers(Good(lines)), lost, |Good(lines)| == |lines|, sess.kernel, r,
               |states| - 1, Tape(states[|states| - 1], []));
  }

  /** Running the commands that are sent decides how a restore ends. */
  lemma EndDecided<K>(kern: Executor<K>, start: K, all: seq<Command>, numbers: seq<nat>, lost: nat, parsed: bool,
                      kernel: K, r: Ended, n: nat, end: K)
    requires lost <= |all|
    requires var out := all[..|all| - (if parsed then 0 else lost)];
             && n <= |out| && Exec(kern, start, out) == (end, n)
             && if n < |out| then Exec(kern, start, all) == (end, n) else Exec(kern, start, all).1 >= |out|
    requires match r
             case Finished => parsed && Exec(kern, start, all) == (kernel, |all|)
             case FailedAt(l) =>
               StoppedAt(kern, start, all, numbers, kernel, l) && (!parsed ==> FailsBefore(kern, start, all, lost))
             case Unparsed => !parsed && Lost(kern, start, all, kernel, lost)
    ensures kernel == end
    ensures if n < |all| - (if parsed then 0 else lost) then n < |numbers| && r == FailedAt(numbers[n])
            else r == if parsed then Finished else Unparsed
  {
    hide Exec;
    assert all[..|all|] == all;
  }

  lemma DeliveredSize(f: Features, cap: nat, mean: Meaning, cs: seq<Command>, clocks: seq<nat -> Tick>, m0: Entries,
                      states: seq<Entries>, failed: bool, line: nat, m': Entries, short: bool)
    requires Delivered(f, cap, mean, cs, clocks, m0, states, failed, line, m', short)
    ensures 0 < |states| <= |cs| + 1 && (failed <==> |states| <= |cs|)
    ensures if failed then line == cs[|states| - 1].lineno else m' == states[|states| - 1]
  {
  }

  lemma ExecutedIs(bufsize: nat, lines: seq<Option<Line>>, env: bool)
    requires LinesOk(Good(lines))
    ensures var all := Sent(bufsize, Good(lines), Nothing, env);
            var lost := Count(Before(bufsize, Good(lines), |Good(lines)|, Nothing, env).0);
            && lost <= |all| && Executed(bufsize, lines, env) <= all
            && Executed(bufsize, lines, env) == all[..|all| - (if |Good(lines)| < |lines| then lost else 0)]
  {
    EndCount(bufsize, Good(lines), Nothing, env);
    hide Sent, Before, Good, LinesOk;
  }

  /** The tape of the commands out run on all the commands of a stream. */
  lemma TapeRuns(out: seq<Command>, all: seq<Command>, states: seq<Entries>)
    requires out <= all && 0 < |states| <= |out| + 1
    ensures var end := Tape(states[|states| - 1], []);
            var run := Exec(Replay, TapeOf(out, states), all);
            && Exec(Replay, TapeOf(out, states), out) == (end, |states| - 1)
            && if |states| <= |out| then run == (end, |states| - 1) else run.1 >= |out|
  {
    hide Exec, TapeOf, Replay;
    ReplayAll(out, states);
    ExecConcat(Replay, TapeOf(out, states), out, all[|out|..]);
    assert all == out + all[|out|..];
  }
}
