/** Add and delete commands as userspace issues them: the add-resize-add loop and the batch. */
module SetCommands {
  import opened Options
  import opened Timeout
  import opened HashTable
  import opened HashSet

  datatype Adt = AdtAdd | AdtDel

  /** One element of a batch with its line number. */
  datatype Item = Item(dom: string, ext: Ext, lineno: nat)

  /** Is the command a success for its sender? */
  predicate Accepted(ret: Ret, exist: bool) {
    ret == Success || (ret == ErrExist && exist)
  }

  /** What a command does to the stored entries, whichever table holds them. */
  ghost predicate AdtEffect(f: Features, adt: Adt, m: Entries, m': Entries, d: string, ext: Ext, exist: bool,
                            now: Tick, ret: Ret, base: Slot)
  {
    match adt
    case AdtAdd => AddEffect(f, m, m', d, ext, exist, now, ret, base)
    case AdtDel =>
      && ret == (if d in m && !Dead(f, m[d], now) then Success else ErrExist)
      && m' == if ret == Success then m - {d} else m
  }

  /** A command is refused for want of space only by a full set, and for want of memory only if that ran short. */
  ghost predicate Reason(f: Features, maxelem: nat, adt: Adt, m: Entries, now: Tick, short: bool, ret: Ret) {
    && (ret == ErrHashFull ==> adt == AdtAdd && Occupancy(f, maxelem, m, now) >= maxelem)
    && (ret == ErrNoMem ==> adt == AdtAdd && short)
  }

  /** An add of d asks for a wider table: its bucket is full of unexpired members, d is none of them, and the set has
      room. */
  ghost predicate AsksWider(f: Features, maxelem: nat, m: Entries, d: string, now: Tick) {
    && (d in m ==> Dead(f, m[d], now))
    && Occupancy(f, maxelem, m, now) < maxelem && AHASH_MAX_SIZE <= |Live(f, m, now)|
  }

  /** What each try of a command finds, the first m: a delete is tried once, and an add again at the next reading of the
      clock while it asks for a wider table. Between tries only expired entries go. */
  ghost predicate Tried(f: Features, maxelem: nat, adt: Adt, d: string, m: Entries, clock: nat -> Tick,
                        found: seq<Entries>)
  {
    && 0 < |found| <= MAX_HTABLE_BITS + 1 && found[0] == m && (adt == AdtDel ==> |found| == 1)
    && forall j :: 0 <= j < |found| - 1 ==>
         AsksWider(f, maxelem, found[j], d, clock(j)) && Pruned(f, found[j], found[j + 1], clock(j))
  }

  lemma TriedNext(f: Features, maxelem: nat, d: string, m: Entries, clock: nat -> Tick, found: seq<Entries>,
                  m': Entries)
    requires Tried(f, maxelem, AdtAdd, d, m, clock, found) && |found| <= MAX_HTABLE_BITS
    requires AsksWider(f, maxelem, found[|found| - 1], d, clock(|found| - 1))
    requires Pruned(f, found[|found| - 1], m', clock(|found| - 1))
    ensures Tried(f, maxelem, AdtAdd, d, m, clock, found + [m'])
  {
    hide AsksWider, Pruned;
  }

  /** Only entries that had expired at a reading of the clock are gone by the last try. */
  lemma {:induction false} TriedPrunes(f: Features, maxelem: nat, adt: Adt, d: string, m: Entries, clock: nat -> Tick,
                                       found: seq<Entries>, n: nat)
    requires Tried(f, maxelem, adt, d, m, clock, found) && n < |found|
    ensures forall x :: x in found[n] ==> x in m && found[n][x] == m[x]
    ensures forall x :: x in m && x !in found[n] ==> exists j :: 0 <= j < n && Dead(f, m[x], clock(j))
    decreases n
  {
    hide AsksWider, Dead;
    if n > 0 {
      TriedPrunes(f, maxelem, adt, d, m, clock, found, n - 1);
      forall x | x in m && x !in found[n] ensures exists j :: 0 <= j < n && Dead(f, m[x], clock(j)) {
        if x in found[n - 1] {
          assert Dead(f, m[x], clock(n - 1));
        }
      }
    }
  }

  /** One try of a command. */
  method TryAd(dset: DomainSet, adt: Adt, d: string, ext: Ext, exist: bool, now: Tick)
    returns (ret: Ret, ghost base: Slot)
    requires dset.Valid()
    modifies dset`elements, dset`extSize, dset`stored, dset`starved
    modifies dset.table`rows, dset.table`chain, dset.table.bucket, dset.table.chain
    ensures dset.Valid() && (old(dset.starved) ==> dset.starved)
    ensures fresh(dset.table.chain - old(dset.table.chain))
    ensures AdtEffect(dset.feat, adt, old(dset.stored), dset.stored, d, ext, exist, now, ret, base)
    ensures Reason(dset.feat, dset.maxelem, adt, old(dset.stored), now, dset.Short(), ret)
    ensures ret == ErrAgain ==> adt == AdtAdd && Pruned(dset.feat, old(dset.stored), dset.stored, now)
    ensures ret == ErrAgain ==> AsksWider(dset.feat, dset.maxelem, old(dset.stored), d, now)
    ensures ret == ErrAgain ==>
              AdtEffect(dset.feat, adt, old(dset.stored), dset.stored, d, ext, exist, now, ErrNoMem, base)
  {
    hide AddEffect, Answered, Pruned, Occupancy, Live, Tidy, DomainSet.Inserted, DomainSet.Removed;
    base := BLANK;
    ghost var slot;
    if adt == AdtAdd {
      ghost var mid;
      ret, mid, slot := dset.Add(d, ext, exist, now);
      base := SlotAt(BucketAt(mid[Key(dset.hash, d, |mid|)]), slot);
      AgainPrunes(dset.feat, old(dset.stored), dset.stored, d, ext, exist, now, ret, base);
    } else {
      ret, slot := dset.Del(d, now);
    }
  }

  /** One element: run it, and while it asks for a wider table, resize and run it again, each time with the clock as it
      is then. found is what each try found. */
  method CallAd(dset: DomainSet, adt: Adt, d: string, ext: Ext, exist: bool, clock: nat -> Tick)
    returns (ret: Ret, ghost base: Slot, ghost found: seq<Entries>)
    requires dset.Valid()
    modifies dset, dset.table, dset.table.bucket, dset.table.chain
    ensures dset.Valid()
    ensures dset.table == old(dset.table) || (fresh(dset.table) && fresh(dset.table.bucket))
    ensures fresh(dset.table.chain - old(dset.table.chain))
    ensures ret != ErrAgain && (old(dset.Short()) ==> dset.Short())
    ensures Tried(dset.feat, dset.maxelem, adt, d, old(dset.stored), clock, found)
    ensures var n := |found| - 1;
            && AdtEffect(dset.feat, adt, found[n], dset.stored, d, ext, exist, clock(n), ret, base)
            && Reason(dset.feat, dset.maxelem, adt, found[n], clock(n), dset.Short(), ret)
  {
    hide AdtEffect, Pruned, AsksWider, Occupancy, Consistent, Tidy;
    found := [dset.stored];
    var i := 0;
    while true
      invariant dset.Valid() && i <= dset.table.bits <= MAX_HTABLE_BITS && |found| == i + 1
      invariant found[i] == dset.stored && Tried(dset.feat, dset.maxelem, adt, d, old(dset.stored), clock, found)
      invariant dset.table == old(dset.table) || (fresh(dset.table) && fresh(dset.table.bucket))
      invariant fresh(dset.table.chain - old(dset.table.chain)) && (old(dset.Short()) ==> dset.Short())
      decreases MAX_HTABLE_BITS - dset.table.bits
    {
      ret, base := TryAd(dset, adt, d, ext, exist, clock(i));
      if ret != ErrAgain {
        return;
      }
      ret := dset.Resize();
      if ret != Success {
        return;
      }
      TriedNext(dset.feat, dset.maxelem, d, old(dset.stored), clock, found, dset.stored);
      found := found + [dset.stored];
      i := i + 1;
    }
  }

  lemma AgainPrunes(f: Features, m: Entries, m': Entries, d: string, ext: Ext, exist: bool, now: Tick, ret: Ret,
                    base: Slot)
    requires AddEffect(f, m, m', d, ext, exist, now, ret, base)
    ensures ret != Success ==> Pruned(f, m, m', now)
    ensures ret == ErrAgain ==> AddEffect(f, m, m', d, ext, exist, now, ErrNoMem, base)
  {
  }

  /** A run of commands: state k+1 is state k after item k. clock(k) is read by the tries of item k. */
  ghost predicate Applied(f: Features, maxelem: nat, adt: Adt, items: seq<Item>, exist: bool,
                          clock: nat -> nat -> Tick, states: seq<Entries>)
  {
    && 0 < |states| <= |items| + 1
    && forall k :: 0 <= k < |states| - 1 ==>
         AppliedAt(f, maxelem, adt, items[k], exist, clock(k), states[k], states[k + 1])
  }

  /** The command takes effect on what its last try finds. */
  ghost predicate AppliedAt(f: Features, maxelem: nat, adt: Adt, it: Item, exist: bool, clock: nat -> Tick, m: Entries,
                            m': Entries)
  {
    exists found: seq<Entries> ::
      && Tried(f, maxelem, adt, it.dom, m, clock, found)
      && var n := |found| - 1; AcceptedOn(f, adt, it, exist, clock(n), found[n], m')
  }

  /** The last try, on mid, is accepted and leaves m'. */
  ghost predicate AcceptedOn(f: Features, adt: Adt, it: Item, exist: bool, now: Tick, mid: Entries, m': Entries) {
    exists ret, base :: Accepted(ret, exist) && AdtEffect(f, adt, mid, m', it.dom, it.ext, exist, now, ret, base)
  }

  /** A failing command leaves every unexpired entry in place and adds nothing, and it fails for a reason. */
  ghost predicate Rejected(f: Features, maxelem: nat, adt: Adt, it: Item, exist: bool, clock: nat -> Tick, m: Entries,
                           m': Entries, short: bool, ret: Ret)
  {
    !Accepted(ret, exist)
    && exists found: seq<Entries> ::
         && Tried(f, maxelem, adt, it.dom, m, clock, found)
         && var n := |found| - 1; RefusedOn(f, maxelem, adt, it, exist, clock(n), found[n], m', short, ret)
  }

  /** The last try, on mid, is refused and leaves m'. */
  ghost predicate RefusedOn(f: Features, maxelem: nat, adt: Adt, it: Item, exist: bool, now: Tick, mid: Entries,
                            m': Entries, short: bool, ret: Ret)
  {
    && Pruned(f, mid, m', now) && ret != ErrAgain && (adt == AdtDel ==> m' == mid)
    && (ret == ErrExist <==> ((adt == AdtAdd) == (it.dom in mid && !Dead(f, mid[it.dom], now))) && !exist)
    && Reason(f, maxelem, adt, mid, now, short, ret)
  }

  /** A batch: the commands before the first failing one take effect, that one does not, the rest are not run,
      and the reported line is its own. */
  method DomainSetAd(dset: DomainSet, adt: Adt, items: seq<Item>, exist: bool, clock: nat -> nat -> Tick)
    returns (ret: Ret, errline: nat, done: nat, ghost states: seq<Entries>)
    requires dset.Valid()
    modifies dset, dset.table, dset.table.bucket, dset.table.chain
    ensures dset.Valid()
    ensures dset.table == old(dset.table) || (fresh(dset.table) && fresh(dset.table.bucket))
    ensures fresh(dset.table.chain - old(dset.table.chain))
    ensures |states| == done + 1 && states[0] == old(dset.stored)
    ensures Applied(dset.feat, dset.maxelem, adt, items, exist, clock, states)
    ensures ret == Success <==> done == |items|
    ensures ret == Success ==> dset.stored == states[done]
    ensures ret != Success ==>
              && errline == items[done].lineno
              && Rejected(dset.feat, dset.maxelem, adt, items[done], exist, clock(done), states[done], dset.stored,
                          dset.Short(), ret)
  {
    hide AdtEffect, Rejected, Applied, AppliedAt, Tried, Reason, DomainSet.Core;
    ret, errline, done := Success, 0, 0;
    states := [dset.stored];
    AppliedNone(dset.feat, dset.maxelem, adt, items, exist, clock, dset.stored);
    while done < |items|
      invariant dset.Valid() && ret == Success && done <= |items| && |states| == done + 1
      invariant dset.table == old(dset.table) || (fresh(dset.table) && fresh(dset.table.bucket))
      invariant fresh(dset.table.chain - old(dset.table.chain))
      invariant states[0] == old(dset.stored) && states[done] == dset.stored
      invariant Applied(dset.feat, dset.maxelem, adt, items, exist, clock, states)
    {
      ghost var base, found;
      var it := items[done];
      errline := it.lineno;
      ret, base, found := CallAd(dset, adt, it.dom, it.ext, exist, clock(done));
      if !Accepted(ret, exist) {
        RejectedBy(dset.feat, dset.maxelem, adt, it, exist, clock(done), states[done], found, dset.stored,
                   dset.Short(), ret, base);
        return;
      }
      AppliedAtBy(dset.feat, dset.maxelem, adt, it, exist, clock(done), states[done], found, dset.stored, ret, base);
      ret := Success;
      AppliedBy(dset.feat, dset.maxelem, adt, items, exist, clock, states, dset.stored);
      states := states + [dset.stored];
      done := done + 1;
    }
  }

  lemma AppliedNone(f: Features, maxelem: nat, adt: Adt, items: seq<Item>, exist: bool, clock: nat -> nat -> Tick,
                    m: Entries)
    ensures Applied(f, maxelem, adt, items, exist, clock, [m])
  {
  }

  lemma AppliedAtBy(f: Features, maxelem: nat, adt: Adt, it: Item, exist: bool, clock: nat -> Tick, m: Entries,
                    found: seq<Entries>, m': Entries, ret: Ret, base: Slot)
    requires Tried(f, maxelem, adt, it.dom, m, clock, found) && Accepted(ret, exist)
    requires var n := |found| - 1; AdtEffect(f, adt, found[n], m', it.dom, it.ext, exist, clock(n), ret, base)
    ensures AppliedAt(f, maxelem, adt, it, exist, clock, m, m')
  {
    hide AdtEffect;
    assert AcceptedOn(f, adt, it, exist, clock(|found| - 1), found[|found| - 1], m');
  }

  lemma AppliedBy(f: Features, maxelem: nat, adt: Adt, items: seq<Item>, exist: bool, clock: nat -> nat -> Tick,
                  states: seq<Entries>, m': Entries)
    requires Applied(f, maxelem, adt, items, exist, clock, states) && |states| <= |items|
    requires var k := |states| - 1; AppliedAt(f, maxelem, adt, items[k], exist, clock(k), states[k], m')
    ensures Applied(f, maxelem, adt, items, exist, clock, states + [m'])
  {
    hide AppliedAt;
  }

  lemma RejectedBy(f: Features, maxelem: nat, adt: Adt, it: Item, exist: bool, clock: nat -> Tick, m: Entries,
                   found: seq<Entries>, m': Entries, short: bool, ret: Ret, base: Slot)
    requires Tried(f, maxelem, adt, it.dom, m, clock, found) && !Accepted(ret, exist)
    requires var n := |found| - 1;
             && Reason(f, maxelem, adt, found[n], clock(n), short, ret) && ret != ErrAgain
             && AdtEffect(f, adt, found[n], m', it.dom, it.ext, exist, clock(n), ret, base)
    ensures Rejected(f, maxelem, adt, it, exist, clock, m, m', short, ret)
  {
    hide Reason;
    assert RefusedOn(f, maxelem, adt, it, exist, clock(|found| - 1), found[|found| - 1], m', short, ret);
  }
}
