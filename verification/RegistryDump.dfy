/** What a dump of all sets lists while commands, references and other dumps come between its steps. */
module RegistryDump {
  import opened Options
  import opened RegistryModel

  /** A set listed to its end: the index it was found at, and which set it was. */
  datatype Listed = Listed(index: nat, uid: nat)

  /** The sets dump id lists to their end over a run, in order. */
  ghost function Log(s: State, acts: seq<Action>, id: nat): seq<Listed>
    requires RunOk(s, acts)
    decreases |acts|
  {
    if acts == [] then []
    else (if acts[0] == DumpList(id, Finished) then [Listed(s.dumps[id].index, s.dumps[id].uid)] else [])
         + Log(Apply(s, acts[0]), acts[1..], id)
  }

  ghost function CountIndex(log: seq<Listed>, i: nat): nat {
    if log == [] then 0 else (if log[0].index == i then 1 else 0) + CountIndex(log[1..], i)
  }

  ghost function CountUid(log: seq<Listed>, u: nat): nat {
    if log == [] then 0 else (if log[0].uid == u then 1 else 0) + CountUid(log[1..], u)
  }

  /** Not the end of dump id, and not an error of it. */
  predicate GoesOn(a: Action, id: nat) {
    && a != DumpDone(id)
    && (a.DumpList? && a.id == id ==> a.outcome.More? || a.outcome.Finished?)
  }

  /** There is a set at index i in every state of the run. */
  ghost predicate Occupied(s: State, acts: seq<Action>, i: nat)
    requires RunOk(s, acts)
    decreases |acts|
  {
    RecAt(s.slots, i).Some? && (acts != [] ==> Occupied(Apply(s, acts[0]), acts[1..], i))
  }

  /** Set u is at index i in every state of the run. */
  ghost predicate Stays(s: State, acts: seq<Action>, i: nat, u: nat)
    requires RunOk(s, acts)
    decreases |acts|
  {
    && RecAt(s.slots, i).Some? && s.slots[i].value.uid == u
    && (acts != [] ==> Stays(Apply(s, acts[0]), acts[1..], i, u))
  }

  /** Dump id, of all sets, has not yet got past index i unless it looks that far. */
  predicate Reaches(s: State, id: nat, i: nat) {
    && id in s.dumps && !s.dumps[id].kind.DumpOne?
    && (s.dumps[id].kind.DumpAll? && (s.dumps[id].phase.Scanning? || s.dumps[id].phase.Listing?) ==>
          i < s.dumps[id].phase.max)
  }

  /** Index i is still to come. */
  function Due(s: State, id: nat, i: nat): nat
    requires id in s.dumps
  {
    if s.dumps[id].kind.DumpAll? && s.dumps[id].index <= i then 1 else 0
  }

  /** The dump has been through the whole list. */
  predicate Through(s: State, id: nat) {
    id in s.dumps && (s.dumps[id].kind.DumpLast? || s.dumps[id].index >= |s.slots|)
  }

  /** Every step brings index i nearer, and only listing it makes it done. */
  lemma StepDue(s: State, a: Action, id: nat, i: nat)
    requires Inv(s) && Enabled(s, a) && Reaches(s, id, i) && GoesOn(a, id) && RecAt(s.slots, i).Some?
    ensures Reaches(Apply(s, a), id, i)
    ensures Due(s, id, i) ==
            Due(Apply(s, a), id, i) + (if a == DumpList(id, Finished) && s.dumps[id].index == i then 1 else 0)
  {
    hide SlotInv, Create, Destroy, Rename, Swap, FreshUid, Distinct;
    assert DumpInv(s, s.dumps[id]);
  }

  lemma {:induction false} IndexDue(s: State, acts: seq<Action>, id: nat, i: nat)
    requires Inv(s) && RunOk(s, acts) && Reaches(s, id, i) && Occupied(s, acts, i)
    requires (forall k :: 0 <= k < |acts| ==> GoesOn(acts[k], id)) && Through(After(s, acts), id)
    ensures CountIndex(Log(s, acts, id), i) == Due(s, id, i)
    decreases |acts|
  {
    if acts != [] {
      StepDue(s, acts[0], id, i);
      StepInv(s, acts[0]);
      hide Inv, Apply, Enabled, Reaches, Due, GoesOn;
      IndexDue(Apply(s, acts[0]), acts[1..], id, i);
      LogStep(s, acts, id);
    }
  }

  lemma LogStep(s: State, acts: seq<Action>, id: nat)
    requires RunOk(s, acts) && acts != []
    ensures var rest := Log(Apply(s, acts[0]), acts[1..], id);
            if acts[0] == DumpList(id, Finished) then
              var e := Listed(s.dumps[id].index, s.dumps[id].uid);
              && Log(s, acts, id) == [e] + rest
              && (forall i :: CountIndex(Log(s, acts, id), i) == CountIndex(rest, i) + (if e.index == i then 1 else 0))
              && (forall u :: CountUid(Log(s, acts, id), u) == CountUid(rest, u) + (if e.uid == u then 1 else 0))
            else Log(s, acts, id) == rest
  {
    var rest := Log(Apply(s, acts[0]), acts[1..], id);
    hide Apply, Enabled;
    if acts[0] == DumpList(id, Finished) {
      var e := Listed(s.dumps[id].index, s.dumps[id].uid);
      assert ([e] + rest)[1..] == rest;
    } else {
      assert [] + rest == rest;
    }
  }

  lemma {:induction false} SetDue(s: State, acts: seq<Action>, id: nat, i: nat, u: nat)
    requires Inv(s) && RunOk(s, acts) && Reaches(s, id, i) && Stays(s, acts, i, u)
    requires (forall k :: 0 <= k < |acts| ==> GoesOn(acts[k], id)) && Through(After(s, acts), id)
    ensures CountUid(Log(s, acts, id), u) == Due(s, id, i)
    decreases |acts|
  {
    if acts != [] {
      if acts[0] == DumpList(id, Finished) {
        FinishedIs(s, id, i);
      }
      StepDue(s, acts[0], id, i);
      StepInv(s, acts[0]);
      hide Inv, Apply, Enabled, Reaches, Due, GoesOn;
      SetDue(Apply(s, acts[0]), acts[1..], id, i, u);
      LogStep(s, acts, id);
    }
  }

  /** The set a dump finishes is the one in the slot. */
  lemma FinishedIs(s: State, id: nat, i: nat)
    requires Inv(s) && Enabled(s, DumpList(id, Finished)) && RecAt(s.slots, i).Some?
    ensures s.dumps[id].index == i <==> s.dumps[id].uid == s.slots[i].value.uid
  {
    hide SlotInv;
    assert DumpInv(s, s.dumps[id]);
  }

  /** A dump of all sets that gets through without an error lists every index that has a set throughout exactly once,
      whatever creates, destroys, renames, swaps, references and other dumps come between; and every set that stays in
      its place throughout exactly once. */
  lemma DumpListsAll(n: nat, before: seq<Action>, id: nat, acts: seq<Action>, i: nat)
    requires RunOk(Start(n), before) && Enabled(After(Start(n), before), DumpOpen(id, None))
    requires var s := Apply(After(Start(n), before), DumpOpen(id, None));
             && RunOk(s, acts) && (forall k :: 0 <= k < |acts| ==> GoesOn(acts[k], id))
             && Through(After(s, acts), id)
    ensures var s := Apply(After(Start(n), before), DumpOpen(id, None));
            && (Occupied(s, acts, i) ==> CountIndex(Log(s, acts, id), i) == 1)
            && (forall u :: Stays(s, acts, i, u) ==> CountUid(Log(s, acts, id), u) == 1)
  {
    hide Inv;
    StartInv(n);
    RunInv(Start(n), before);
    var s0 := After(Start(n), before);
    StepInv(s0, DumpOpen(id, None));
    var s := Apply(s0, DumpOpen(id, None));
    assert s.dumps[id] == Dump(DumpAll, 0, Idle, 0);
    hide *;
    Opened(s, id, i);
    if Occupied(s, acts, i) {
      IndexDue(s, acts, id, i);
    }
    forall u | Stays(s, acts, i, u) ensures CountUid(Log(s, acts, id), u) == 1 {
      SetDue(s, acts, id, i, u);
    }
  }

  lemma Opened(s: State, id: nat, i: nat)
    requires id in s.dumps && s.dumps[id] == Dump(DumpAll, 0, Idle, 0)
    ensures Reaches(s, id, i) && Due(s, id, i) == 1
  {
  }

  ghost predicate Ascending(log: seq<Listed>, from: nat) {
    log == [] || (from <= log[0].index && Ascending(log[1..], log[0].index + 1))
  }

  lemma {:induction false} AscendingFrom(log: seq<Listed>, lo: nat, from: nat)
    requires Ascending(log, from) && lo <= from
    ensures Ascending(log, lo)
  {
  }

  /** In any run, with errors or without, a dump lists sets in the order of their indices, none of them twice. */
  lemma {:induction false} ListedInOrder(s: State, acts: seq<Action>, id: nat)
    requires Inv(s) && RunOk(s, acts) && id in s.dumps && !s.dumps[id].kind.DumpOne?
    requires forall k :: 0 <= k < |acts| ==> acts[k] != DumpDone(id)
    ensures if s.dumps[id].kind.DumpAll? then Ascending(Log(s, acts, id), s.dumps[id].index) else Log(s, acts, id) == []
    decreases |acts|
  {
    if acts != [] {
      var s' := Apply(s, acts[0]);
      StepCursor(s, acts[0], id);
      StepInv(s, acts[0]);
      hide Inv, Apply, Enabled;
      ListedInOrder(s', acts[1..], id);
      LogStep(s, acts, id);
      var rest := Log(s', acts[1..], id);
      if s.dumps[id].kind.DumpAll? && s'.dumps[id].kind.DumpAll? {
        AscendingFrom(rest, s.dumps[id].index, s'.dumps[id].index);
        if acts[0] == DumpList(id, Finished) {
          assert ([Listed(s.dumps[id].index, s.dumps[id].uid)] + rest)[1..] == rest;
        }
      }
    }
  }

  lemma StepCursor(s: State, a: Action, id: nat)
    requires Inv(s) && Enabled(s, a) && id in s.dumps && !s.dumps[id].kind.DumpOne? && a != DumpDone(id)
    ensures var s' := Apply(s, a);
            && id in s'.dumps && !s'.dumps[id].kind.DumpOne?
            && (s.dumps[id].kind.DumpLast? ==> s'.dumps[id].kind.DumpLast? && a != DumpList(id, Finished))
            && (s'.dumps[id].kind.DumpAll? ==> s.dumps[id].index <= s'.dumps[id].index)
            && (a == DumpList(id, Finished) ==>
                  s'.dumps[id].kind.DumpAll? && s'.dumps[id].index == s.dumps[id].index + 1)
  {
    hide SlotInv, Create, Destroy, Rename, Swap, FreshUid, Distinct;
    assert DumpInv(s, s.dumps[id]);
  }

  // ---------------------------------------------------------------- a dump of one set

  /** The list of sets never reaches the invalid id, and never shrinks. */
  lemma StepSize(s: State, a: Action)
    requires |s.slots| < INVALID_ID && Enabled(s, a)
    ensures |s.slots| <= |Apply(s, a).slots| < INVALID_ID
  {
  }

  /** Dump id is one of index i, which it is at or has done with. */
  predicate OneAt(s: State, id: nat, i: nat) {
    && id in s.dumps && s.dumps[id].kind.DumpOne?
    && if s.dumps[id].index == INVALID_ID then s.dumps[id].phase.Idle?
       else
         && s.dumps[id].index == i < |s.slots|
         && (s.dumps[id].phase.Scanning? || s.dumps[id].phase.Listing? ==> s.dumps[id].phase.max == i + 1)
  }

  lemma StepOne(s: State, a: Action, id: nat, i: nat)
    requires Inv(s) && Enabled(s, a) && |s.slots| < INVALID_ID && OneAt(s, id, i) && a != DumpDone(id)
    ensures OneAt(Apply(s, a), id, i)
    ensures s.dumps[id].index == INVALID_ID ==>
              Apply(s, a).dumps[id].index == INVALID_ID && (a.DumpList? ==> a.id != id)
    ensures s.dumps[id].index == i != INVALID_ID ==>
              (Apply(s, a).dumps[id].index == INVALID_ID <==>
                 a == DumpList(id, Finished) || a == DumpList(id, FailedPast))
  {
    StepSize(s, a);
    hide SlotInv, Create, Destroy, Rename, Swap, FreshUid, Distinct;
  }

  /** Whatever comes between, a dump of one set lists nothing but its index, and once; and it has listed it when it gets
      through without an error. */
  lemma {:induction false} OneLog(s: State, acts: seq<Action>, id: nat, i: nat)
    requires Inv(s) && RunOk(s, acts) && |s.slots| < INVALID_ID && OneAt(s, id, i)
    requires forall k :: 0 <= k < |acts| ==> acts[k] != DumpDone(id)
    ensures var log := Log(s, acts, id);
            && (s.dumps[id].index == INVALID_ID ==> log == [])
            && |log| <= 1 && (forall k :: 0 <= k < |log| ==> log[k].index == i)
            && (s.dumps[id].index == i != INVALID_ID && Through(After(s, acts), id)
                && (forall k :: 0 <= k < |acts| ==> GoesOn(acts[k], id)) ==>
                  |log| == 1)
            && (forall u :: Stays(s, acts, i, u) && |log| == 1 ==> log[0].uid == u)
    decreases |acts|
  {
    if acts != [] {
      var s' := Apply(s, acts[0]);
      StepOne(s, acts[0], id, i);
      StepInv(s, acts[0]);
      StepSize(s, acts[0]);
      if acts[0] == DumpList(id, Finished) && RecAt(s.slots, i).Some? {
        FinishedIs(s, id, i);
      }
      hide Inv, Apply, Enabled, Through;
      OneLog(s', acts[1..], id, i);
      LogStep(s, acts, id);
    }
  }

  /** A dump of a named set lists the set of that name and no other: everything it lists is at the index where the name
      was found, and it is listed at most once. If the dump gets through without an error it is listed exactly once, and
      if the set has stayed in its place that is the set. At most 65534 sets fit into the list at first. */
  lemma DumpListsOne(n: nat, before: seq<Action>, id: nat, name: string, acts: seq<Action>)
    requires n < INVALID_ID && RunOk(Start(n), before)
    requires Enabled(After(Start(n), before), DumpOpen(id, Some(name)))
    requires var s0 := After(Start(n), before);
             var s := Apply(s0, DumpOpen(id, Some(name)));
             && (exists j :: 0 <= j < |s0.slots| && s0.slots[j].Some? && s0.slots[j].value.name == name)
             && RunOk(s, acts) && (forall k :: 0 <= k < |acts| ==> acts[k] != DumpDone(id))
    ensures var s0 := After(Start(n), before);
            var s := Apply(s0, DumpOpen(id, Some(name)));
            var log := Log(s, acts, id);
            |log| <= 1 && forall i :: 0 <= i < |s0.slots| && s0.slots[i].Some? && s0.slots[i].value.name == name ==>
              && (forall k :: 0 <= k < |log| ==> log[k].index == i)
              && ((forall k :: 0 <= k < |acts| ==> GoesOn(acts[k], id)) && Through(After(s, acts), id) ==> |log| == 1)
              && (Stays(s, acts, i, s0.slots[i].value.uid) && |log| == 1 ==> log == [Listed(i, s0.slots[i].value.uid)])
  {
    hide Inv;
    StartInv(n);
    RunInv(Start(n), before);
    RunSize(Start(n), before);
    var s0 := After(Start(n), before);
    StepInv(s0, DumpOpen(id, Some(name)));
    var s := Apply(s0, DumpOpen(id, Some(name)));
    var i := OpenedOne(s0, id, name);
    hide Apply, Enabled, Log, Through, GoesOn, RunOk;
    OneLog(s, acts, id, i);
  }

  lemma {:induction false} RunSize(s: State, acts: seq<Action>)
    requires |s.slots| < INVALID_ID && RunOk(s, acts)
    ensures |After(s, acts).slots| < INVALID_ID
    decreases |acts|
  {
    if acts != [] {
      StepSize(s, acts[0]);
      hide Apply, Enabled;
      RunSize(Apply(s, acts[0]), acts[1..]);
    }
  }

  lemma OpenedOne(s0: State, id: nat, name: string) returns (i: nat)
    requires Inv(s0) && Enabled(s0, DumpOpen(id, Some(name))) && |s0.slots| < INVALID_ID
    requires exists j :: 0 <= j < |s0.slots| && s0.slots[j].Some? && s0.slots[j].value.name == name
    ensures var s := Apply(s0, DumpOpen(id, Some(name)));
            && s.slots == s0.slots && OneAt(s, id, i) && s.dumps[id].index == i < |s0.slots|
    ensures s0.slots[i].Some? && s0.slots[i].value.name == name
    ensures forall j :: 0 <= j < |s0.slots| && s0.slots[j].Some? && s0.slots[j].value.name == name ==> j == i
  {
    i := FindId(s0.slots, name, 0);
  }

  /** While the set is there and no destroy-all is under way, every look of the dump finds it. */
  lemma LookFinds(s: State, id: nat, i: nat)
    requires Inv(s) && OneAt(s, id, i) && Enabled(s, DumpLook(id)) && RecAt(s.slots, i).Some? && !s.destroying
    ensures var d := Apply(s, DumpLook(id)).dumps[id];
            d.phase.Listing? && d.index == i && d.uid == s.slots[i].value.uid
  {
  }
}
