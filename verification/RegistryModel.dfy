/** The set registry as a step system: serialized commands, references by index, and dumps that run in between. */
module RegistryModel {
  import opened Options
  import opened Sets

  const INVALID_ID: nat := 65535
  const SET_INC: nat := 64

  datatype SetType = SetType(name: string, family: nat, features: nat)

  /** A set object: uid is its identity, refs the references by index, netlink the dumps stopped on it. */
  datatype SetRec = SetRec(uid: nat, name: string, typ: SetType, refs: nat, netlink: nat)

  type Slots = seq<Option<SetRec>>

  datatype Kind = DumpAll | DumpOne | DumpLast

  /** Between messages a dump is idle, or paused inside a set; in a message it scans for a set or lists one. */
  datatype Phase = Idle | Paused | Scanning(max: nat, resumed: bool) | Listing(max: nat)

  /** A dump cursor; uid records which set it holds while it is pinned. */
  datatype Dump = Dump(kind: Kind, index: nat, phase: Phase, uid: nat)

  /** gets: references taken by index and not yet put. */
  datatype State = State(slots: Slots, destroying: bool, dumps: map<nat, Dump>, gets: map<nat, nat>)

  datatype Code = Ok | NoEnt | Exists | Busy | MaxSets | Referenced | ExistName2 | TypeMismatch | Invalid

  // ---------------------------------------------------------------- lookups

  function RecAt(slots: Slots, i: nat): Option<SetRec> {
    if i < |slots| then slots[i] else None
  }

  /** The slot of a name: the first match, or the number of slots. */
  function FindId(slots: Slots, name: string, i: nat): (k: nat)
    requires i <= |slots|
    ensures i <= k <= |slots|
    ensures k < |slots| ==> slots[k].Some? && slots[k].value.name == name
    ensures forall j :: i <= j < k ==> slots[j].None? || slots[j].value.name != name
    decreases |slots| - i
  {
    if i == |slots| || (slots[i].Some? && slots[i].value.name == name) then i else FindId(slots, name, i + 1)
  }

  function FreeId(slots: Slots, i: nat): (k: nat)
    requires i <= |slots|
    ensures i <= k <= |slots|
    ensures k < |slots| ==> slots[k].None?
    ensures forall j :: i <= j < k ==> slots[j].Some?
    decreases |slots| - i
  {
    if i == |slots| || slots[i].None? then i else FreeId(slots, i + 1)
  }

  predicate Busy_(r: SetRec) {
    r.refs > 0 || r.netlink > 0
  }

  function GetsAt(gets: map<nat, nat>, i: nat): nat {
    if i in gets then gets[i] else 0
  }

  // ---------------------------------------------------------------- commands

  /** Would the larger list still have ids below the invalid one? 16-bit arithmetic. */
  predicate MayGrow(n: nat) {
    var m := (n + SET_INC) % 65536;
    !(m < n || m == INVALID_ID)
  }

  function Grown(slots: Slots, r: SetRec): Slots {
    slots + [Some(r)] + seq(SET_INC - 1, _ => None)
  }

  /** same: the existing set of that name has the same creation parameters; mem: the larger list can be had. */
  function Create(slots: Slots, uid: nat, name: string, typ: SetType, exist: bool, same: bool, mem: bool)
    : (Slots, Code)
  {
    var i := FindId(slots, name, 0);
    var r := SetRec(uid, name, typ, 0, 0);
    if i < |slots| then
      (slots, if exist && slots[i].value.typ == typ && same then Ok else Exists)
    else
      var k := FreeId(slots, 0);
      if k < |slots| then (slots[k := Some(r)], Ok)
      else if MayGrow(|slots|) && mem then (Grown(slots, r), Ok)
      else (slots, MaxSets)
  }

  function Destroy(slots: Slots, name: string): (Slots, Code) {
    var i := FindId(slots, name, 0);
    if i == |slots| then (slots, NoEnt)
    else if Busy_(slots[i].value) then (slots, Busy)
    else (slots[i := None], Ok)
  }

  function Rename(slots: Slots, name: string, name2: string): (Slots, Code) {
    var i := FindId(slots, name, 0);
    if i == |slots| then (slots, NoEnt)
    else if Busy_(slots[i].value) then (slots, Referenced)
    else if FindId(slots, name2, 0) < |slots| then (slots, ExistName2)
    else (slots[i := Some(slots[i].value.(name := name2))], Ok)
  }

  /** The objects change places; names and references stay with the index. */
  function Swapped(slots: Slots, i: nat, j: nat): Slots
    requires i < |slots| && j < |slots| && slots[i].Some? && slots[j].Some?
  {
    var a, b := slots[i].value, slots[j].value;
    slots[i := Some(b.(name := a.name, refs := a.refs))][j := Some(a.(name := b.name, refs := b.refs))]
  }

  function Swap(slots: Slots, name: string, name2: string): (Slots, Code) {
    var i := FindId(slots, name, 0);
    var j := FindId(slots, name2, 0);
    if i == |slots| then (slots, NoEnt)
    else if j == |slots| then (slots, ExistName2)
    else
      var a, b := slots[i].value, slots[j].value;
      if !(a.typ.features == b.typ.features && a.typ.family == b.typ.family) then (slots, TypeMismatch)
      else if a.netlink > 0 || b.netlink > 0 then (slots, Busy)
      else (Swapped(slots, i, j), Ok)
  }

  function AddRefs(slots: Slots, i: nat, delta: int): Slots
    requires i < |slots| && slots[i].Some? && slots[i].value.refs + delta >= 0
  {
    slots[i := Some(slots[i].value.(refs := slots[i].value.refs + delta))]
  }

  function AddNetlink(slots: Slots, i: nat, delta: int): Slots
    requires i < |slots| && slots[i].Some? && slots[i].value.netlink + delta >= 0
  {
    slots[i := Some(slots[i].value.(netlink := slots[i].value.netlink + delta))]
  }

  // ---------------------------------------------------------------- dumps

  predicate Pinned(d: Dump) {
    d.phase.Paused? || d.phase.Listing? || (d.phase.Scanning? && d.phase.resumed)
  }

  /** What listing a set ends in: more to come, finished, an error that leaves the cursor on the set, or an error that
      moves it past (a message without room for the set's name or header, or a first bucket that does not fit). */
  datatype Outcome = More | Finished | Failed | FailedPast

  /** One look at the slot under the cursor, with the reference lock held: skip it, stop, or take the set. */
  function Look(slots: Slots, destroying: bool, d: Dump): (Dump, bool)
    requires d.phase.Scanning?
  {
    if d.index >= d.phase.max then
      if d.kind.DumpAll? then (d.(kind := DumpLast, index := 0), false) else (d.(phase := Idle), false)
    else if RecAt(slots, d.index).None? || destroying then
      if d.kind.DumpOne? || destroying then (d.(phase := Idle), false) else (d.(index := d.index + 1), false)
    else if d.kind.DumpLast? then (d.(index := d.index + 1), false)
    else (d.(phase := Listing(d.phase.max), uid := RecAt(slots, d.index).value.uid), !d.phase.resumed)
  }

  datatype Action =
    | DoCreate(uid: nat, name: string, typ: SetType, exist: bool, same: bool, mem: bool)
    | DoDestroy(name: string)
    | DestroyAllBegin
    | DestroyAllSlot(i: nat)
    | DestroyAllEnd
    | DoRename(name: string, name2: string)
    | DoSwap(name: string, name2: string)
    | Get(i: nat)
    | PutRef(i: nat)
    | DumpOpen(id: nat, target: Option<string>)
    | DumpMessage(id: nat)
    | DumpLook(id: nat)
    | DumpList(id: nat, outcome: Outcome)
    | DumpDone(id: nat)

  ghost predicate FreshUid(slots: Slots, uid: nat) {
    forall i :: 0 <= i < |slots| && slots[i].Some? ==> slots[i].value.uid != uid
  }

  /** Commands and references by index run under one mutex, which destroy-all holds throughout; dumps do not. */
  ghost predicate Enabled(s: State, a: Action) {
    match a
    case DoCreate(uid, _, _, _, _, _) => !s.destroying && FreshUid(s.slots, uid)
    case DoDestroy(_) => !s.destroying
    case DestroyAllBegin => !s.destroying
    case DestroyAllSlot(_) => s.destroying
    case DestroyAllEnd => s.destroying && forall i :: 0 <= i < |s.slots| ==> s.slots[i].None?
    case DoRename(_, _) => !s.destroying
    case DoSwap(_, _) => !s.destroying
    case Get(_) => !s.destroying
    case PutRef(i) => !s.destroying && GetsAt(s.gets, i) > 0
    case DumpOpen(id, _) => id !in s.dumps
    case DumpMessage(id) => id in s.dumps && (s.dumps[id].phase.Idle? || s.dumps[id].phase.Paused?)
    case DumpLook(id) => id in s.dumps && s.dumps[id].phase.Scanning?
    case DumpList(id, _) => id in s.dumps && s.dumps[id].phase.Listing?
    case DumpDone(id) => id in s.dumps && (s.dumps[id].phase.Idle? || s.dumps[id].phase.Paused?)
  }

  /** Release the set under the cursor. The subtraction is what the kernel asserts to be possible. */
  function Unpin(slots: Slots, i: nat): Slots {
    if RecAt(slots, i).Some? && slots[i].value.netlink > 0 then AddNetlink(slots, i, -1) else slots
  }

  function Apply(s: State, a: Action): State
    requires Enabled(s, a)
  {
    match a
    case DoCreate(uid, name, typ, exist, same, mem) => s.(slots := Create(s.slots, uid, name, typ, exist, same, mem).0)
    case DoDestroy(name) => s.(slots := Destroy(s.slots, name).0)
    case DestroyAllBegin =>
      if exists i :: 0 <= i < |s.slots| && s.slots[i].Some? && Busy_(s.slots[i].value) then s
      else s.(destroying := true)
    case DestroyAllSlot(i) => if i < |s.slots| then s.(slots := s.slots[i := None]) else s
    case DestroyAllEnd => s.(destroying := false)
    case DoRename(name, name2) => s.(slots := Rename(s.slots, name, name2).0)
    case DoSwap(name, name2) => s.(slots := Swap(s.slots, name, name2).0)
    case Get(i) =>
      if RecAt(s.slots, i).Some?
      then s.(slots := AddRefs(s.slots, i, 1), gets := s.gets[i := GetsAt(s.gets, i) + 1]) else s
    case PutRef(i) =>
      if RecAt(s.slots, i).Some? && s.slots[i].value.refs > 0
      then s.(slots := AddRefs(s.slots, i, -1), gets := s.gets[i := GetsAt(s.gets, i) - 1]) else s
    case DumpOpen(id, target) =>
      if target.None? then s.(dumps := s.dumps[id := Dump(DumpAll, 0, Idle, 0)])
      else
        var i := FindId(s.slots, target.value, 0);
        if i == |s.slots| then s else s.(dumps := s.dumps[id := Dump(DumpOne, i, Idle, 0)])
    case DumpMessage(id) =>
      var d := s.dumps[id];
      var max := if d.kind.DumpOne? then d.index + 1 else |s.slots|;
      if d.index >= |s.slots| then s else s.(dumps := s.dumps[id := d.(phase := Scanning(max, d.phase.Paused?))])
    case DumpLook(id) =>
      var (d, take) := Look(s.slots, s.destroying, s.dumps[id]);
      s.(dumps := s.dumps[id := d],
         slots := if take && RecAt(s.slots, d.index).Some? then AddNetlink(s.slots, d.index, 1) else s.slots)
    case DumpList(id, outcome) =>
      var d := s.dumps[id];
      (match outcome
       case More => s.(dumps := s.dumps[id := d.(phase := Paused)])
       case Failed => s.(slots := Unpin(s.slots, d.index), dumps := s.dumps[id := d.(phase := Idle)])
       case _ =>
         s.(slots := Unpin(s.slots, d.index),
            dumps := s.dumps[id := d.(phase := Idle, index := if d.kind.DumpOne? then INVALID_ID else d.index + 1)]))
    case DumpDone(id) =>
      s.(slots := if s.dumps[id].phase.Paused? then Unpin(s.slots, s.dumps[id].index) else s.slots,
         dumps := s.dumps - {id})
  }

  // ---------------------------------------------------------------- invariant

  ghost function PinsAt(dumps: map<nat, Dump>, i: nat): set<nat> {
    set d | d in dumps && Pinned(dumps[d]) && dumps[d].index == i
  }

  /** How many dumps are stopped in slot i. */
  ghost function PinCount(dumps: map<nat, Dump>, i: nat): nat {
    |PinsAt(dumps, i)|
  }

  ghost predicate SlotInv(s: State, i: nat) {
    match RecAt(s.slots, i)
    case Some(r) => r.refs == GetsAt(s.gets, i) && r.netlink == PinCount(s.dumps, i)
    case None => GetsAt(s.gets, i) == 0 && PinCount(s.dumps, i) == 0
  }

  /** A pinned dump's slot holds the very set it was pinned on. */
  ghost predicate DumpInv(s: State, d: Dump) {
    Pinned(d) ==>
      && RecAt(s.slots, d.index).Some? && RecAt(s.slots, d.index).value.uid == d.uid
      && !s.destroying && !d.kind.DumpLast?
      && (d.phase.Scanning? || d.phase.Listing? ==> d.index < d.phase.max)
  }

  ghost predicate Distinct(slots: Slots) {
    && (forall i, j :: 0 <= i < j < |slots| && slots[i].Some? && slots[j].Some? ==>
        slots[i].value.name != slots[j].value.name)
    && (forall i, j :: 0 <= i < j < |slots| && slots[i].Some? && slots[j].Some? ==>
        slots[i].value.uid != slots[j].value.uid)
  }

  ghost predicate Inv(s: State) {
    && Distinct(s.slots)
    && (forall i: nat :: SlotInv(s, i))
    && (forall id :: id in s.dumps ==> DumpInv(s, s.dumps[id]))
    && (s.destroying ==> forall i: nat :: GetsAt(s.gets, i) == 0)
  }

  lemma PinPut(dumps: map<nat, Dump>, id: nat, d: Dump, i: nat)
    ensures PinCount(dumps[id := d], i) ==
            PinCount(dumps, i) - (if id in dumps && Pinned(dumps[id]) && dumps[id].index == i then 1 else 0)
                               + (if Pinned(d) && d.index == i then 1 else 0)
  {
    PinsPut(dumps, id, d, i);
    hide PinsAt;
    CardWithout(PinsAt(dumps, i), id);
    CardWithout(PinsAt(dumps[id := d], i), id);
  }

  lemma PinsPut(dumps: map<nat, Dump>, id: nat, d: Dump, i: nat)
    ensures PinsAt(dumps[id := d], i) - {id} == PinsAt(dumps, i) - {id}
    ensures id in PinsAt(dumps[id := d], i) <==> Pinned(d) && d.index == i
    ensures id in PinsAt(dumps, i) <==> id in dumps && Pinned(dumps[id]) && dumps[id].index == i
  {
  }

  lemma PinRemove(dumps: map<nat, Dump>, id: nat, i: nat)
    ensures PinCount(dumps - {id}, i) ==
            PinCount(dumps, i) - (if id in dumps && Pinned(dumps[id]) && dumps[id].index == i then 1 else 0)
  {
    assert PinsAt(dumps - {id}, i) == PinsAt(dumps, i) - {id};
    CardWithout(PinsAt(dumps, i), id);
  }

  lemma PinPositive(dumps: map<nat, Dump>, id: nat)
    requires id in dumps && Pinned(dumps[id])
    ensures PinCount(dumps, dumps[id].index) >= 1
  {
    assert id in PinsAt(dumps, dumps[id].index);
  }

  lemma NonePinned(dumps: map<nat, Dump>, i: nat)
    requires PinCount(dumps, i) == 0
    ensures forall id :: id in dumps && Pinned(dumps[id]) ==> dumps[id].index != i
  {
    assert PinsAt(dumps, i) == {};
    assert forall id :: id in dumps && Pinned(dumps[id]) && dumps[id].index == i ==> id in PinsAt(dumps, i);
  }

  // ---------------------------------------------------------------- every step keeps it

  /** A slot that is neither referenced nor dumped may change freely. */
  lemma QuietSlotChange(s: State, s': State, i: nat)
    requires Inv(s) && i < |s.slots| == |s'.slots| && s'.slots == s.slots[i := s'.slots[i]] &&
             s' == s.(slots := s'.slots)
    requires s.slots[i].Some? ==> !Busy_(s.slots[i].value)
    requires s'.slots[i].Some? ==> !Busy_(s'.slots[i].value)
    requires Distinct(s'.slots)
    ensures Inv(s')
  {
    hide PinCount, Distinct;
    assert SlotInv(s, i);
    NonePinned(s.dumps, i);
    forall k: nat ensures SlotInv(s', k) { assert SlotInv(s, k); }
    forall id | id in s'.dumps ensures DumpInv(s', s'.dumps[id]) { assert DumpInv(s, s.dumps[id]); }
  }

  lemma CreateInv(s: State, a: Action)
    requires Inv(s) && Enabled(s, a) && a.DoCreate?
    ensures Inv(Apply(s, a))
  {
    var s' := Apply(s, a);
    var i := FindId(s.slots, a.name, 0);
    var k := FreeId(s.slots, 0);
    if i < |s.slots| {
    } else if k < |s.slots| {
      assert s'.slots == s.slots[k := s'.slots[k]];
      QuietSlotChange(s, s', k);
    } else {
      hide PinCount;
      assert forall j :: 0 <= j < |s.slots| ==> s'.slots[j] == s.slots[j];
      assert forall j :: |s.slots| < j < |s'.slots| ==> s'.slots[j].None?;
      forall j: nat ensures SlotInv(s', j) { assert SlotInv(s, j); }
      forall id | id in s'.dumps ensures DumpInv(s', s'.dumps[id]) { assert DumpInv(s, s.dumps[id]); }
    }
  }

  lemma DestroyRenameInv(s: State, a: Action)
    requires Inv(s) && Enabled(s, a) && (a.DoDestroy? || a.DoRename?)
    ensures Inv(Apply(s, a))
  {
    var s' := Apply(s, a);
    var i := FindId(s.slots, a.name, 0);
    if s'.slots != s.slots {
      assert s'.slots == s.slots[i := s'.slots[i]];
      QuietSlotChange(s, s', i);
    }
  }

  lemma DestroyAllInv(s: State, a: Action)
    requires Inv(s) && Enabled(s, a) && (a.DestroyAllBegin? || a.DestroyAllSlot? || a.DestroyAllEnd?)
    ensures Inv(Apply(s, a))
  {
    hide PinCount;
    var s' := Apply(s, a);
    if a.DestroyAllSlot? && a.i < |s.slots| {
      assert SlotInv(s, a.i);
      forall id | id in s.dumps ensures !Pinned(s.dumps[id]) { assert DumpInv(s, s.dumps[id]); }
      NonePinnedCount(s.dumps, a.i);
      assert s'.slots == s.slots[a.i := s'.slots[a.i]];
      QuietSlotChange(s, s', a.i);
    } else if a.DestroyAllBegin? && s'.destroying {
      forall k: nat ensures SlotInv(s', k) && GetsAt(s'.gets, k) == 0 { assert SlotInv(s, k); }
      forall id | id in s.dumps ensures !Pinned(s.dumps[id]) {
        if Pinned(s.dumps[id]) { PinnedIsBusy(s, id); }
      }
    } else {
      forall k: nat ensures SlotInv(s', k) { assert SlotInv(s, k); }
      forall id | id in s'.dumps ensures DumpInv(s', s'.dumps[id]) { assert DumpInv(s, s.dumps[id]); }
    }
  }

  /** A pinned dump makes its set busy: destroy, rename and swap refuse it. */
  lemma PinnedIsBusy(s: State, id: nat)
    requires Inv(s) && id in s.dumps && Pinned(s.dumps[id])
    ensures s.dumps[id].index < |s.slots| && s.slots[s.dumps[id].index].Some?
    ensures s.slots[s.dumps[id].index].value.netlink > 0
    ensures s.slots[s.dumps[id].index].value.uid == s.dumps[id].uid && !s.destroying
  {
    assert DumpInv(s, s.dumps[id]);
    PinPositive(s.dumps, id);
    assert SlotInv(s, s.dumps[id].index);
  }

  lemma NonePinnedCount(dumps: map<nat, Dump>, i: nat)
    requires forall id :: id in dumps ==> !Pinned(dumps[id])
    ensures PinCount(dumps, i) == 0
  {
    assert PinsAt(dumps, i) == {};
  }

  lemma SwapInv(s: State, a: Action)
    requires Inv(s) && Enabled(s, a) && a.DoSwap?
    ensures Inv(Apply(s, a))
  {
    var s' := Apply(s, a);
    SwapDistinct(s, a);
    forall k: nat ensures SlotInv(s', k) { SwapSlotInv(s, a, k); }
    forall id | id in s'.dumps ensures DumpInv(s', s'.dumps[id]) { SwapDumpInv(s, a, id); }
    hide SlotInv, DumpInv, Distinct, GetsAt, FindId;
  }

  lemma SwapDistinct(s: State, a: Action)
    requires Distinct(s.slots) && Enabled(s, a) && a.DoSwap?
    ensures Distinct(Apply(s, a).slots)
  {
    var i, j := FindId(s.slots, a.name, 0), FindId(s.slots, a.name2, 0);
    if i < |s.slots| && j < |s.slots| {
      SwappedDistinct(s.slots, i, j);
    }
    hide Distinct, Swapped, FindId;
  }

  lemma SwappedDistinct(slots: Slots, i: nat, j: nat)
    requires Distinct(slots) && i < |slots| && j < |slots| && slots[i].Some? && slots[j].Some?
    ensures Distinct(Swapped(slots, i, j))
  {
    var slots' := Swapped(slots, i, j);
    assert forall k :: 0 <= k < |slots| ==> (slots'[k].Some? <==> slots[k].Some?);
    assert forall k :: 0 <= k < |slots| && slots[k].Some? ==> slots'[k].value.name == slots[k].value.name;
    forall k, l | 0 <= k < l < |slots| && slots[k].Some? && slots[l].Some?
      ensures slots'[k].value.uid != slots'[l].value.uid
    {
      assert slots[if k == i then j else if k == j then i else k].value.uid == slots'[k].value.uid;
      assert slots[if l == i then j else if l == j then i else l].value.uid == slots'[l].value.uid;
    }
  }

  lemma SwapDumpInv(s: State, a: Action, id: nat)
    requires Inv(s) && Enabled(s, a) && a.DoSwap? && id in Apply(s, a).dumps
    ensures DumpInv(Apply(s, a), Apply(s, a).dumps[id])
  {
    assert DumpInv(s, s.dumps[id]);
    if Apply(s, a).slots != s.slots {
      SwapNotPinned(s, a);
      hide Inv, FindId;
    }
  }

  lemma SwapNotPinned(s: State, a: Action)
    requires Inv(s) && Enabled(s, a) && a.DoSwap? && Apply(s, a).slots != s.slots
    ensures forall id :: id in s.dumps && Pinned(s.dumps[id]) ==>
              s.dumps[id].index != FindId(s.slots, a.name, 0) && s.dumps[id].index != FindId(s.slots, a.name2, 0)
  {
    hide PinCount;
    assert SlotInv(s, FindId(s.slots, a.name, 0)) && SlotInv(s, FindId(s.slots, a.name2, 0));
    NonePinned(s.dumps, FindId(s.slots, a.name, 0));
    NonePinned(s.dumps, FindId(s.slots, a.name2, 0));
  }

  lemma SwapSlotInv(s: State, a: Action, k: nat)
    requires Inv(s) && Enabled(s, a) && a.DoSwap?
    ensures SlotInv(Apply(s, a), k)
  {
    hide PinCount;
    assert SlotInv(s, FindId(s.slots, a.name, 0)) && SlotInv(s, FindId(s.slots, a.name2, 0)) && SlotInv(s, k);
  }

  lemma RefInv(s: State, a: Action)
    requires Inv(s) && Enabled(s, a) && (a.Get? || a.PutRef?)
    ensures Inv(Apply(s, a))
  {
    hide PinCount;
    var s' := Apply(s, a);
    assert SlotInv(s, a.i);
    forall k: nat ensures SlotInv(s', k) { assert SlotInv(s, k); }
    forall id | id in s'.dumps ensures DumpInv(s', s'.dumps[id]) { assert DumpInv(s, s.dumps[id]); }
  }

  lemma DumpOpenInv(s: State, a: Action)
    requires Inv(s) && Enabled(s, a) && (a.DumpOpen? || a.DumpMessage?)
    ensures Inv(Apply(s, a))
  {
    hide PinCount;
    var s' := Apply(s, a);
    if s' != s {
      if a.DumpMessage? { assert DumpInv(s, s.dumps[a.id]); }
      forall k: nat ensures SlotInv(s', k) {
        PinPut(s.dumps, a.id, s'.dumps[a.id], k);
        assert SlotInv(s, k);
      }
      forall id | id in s'.dumps ensures DumpInv(s', s'.dumps[id]) { assert id in s.dumps ==> DumpInv(s, s.dumps[id]); }
    }
  }

  lemma DumpLookInv(s: State, a: Action)
    requires Inv(s) && Enabled(s, a) && a.DumpLook?
    ensures Inv(Apply(s, a))
  {
    hide PinCount;
    var s' := Apply(s, a);
    assert DumpInv(s, s.dumps[a.id]);
    forall k: nat ensures SlotInv(s', k) {
      PinPut(s.dumps, a.id, s'.dumps[a.id], k);
      assert SlotInv(s, k);
    }
    forall id | id in s'.dumps ensures DumpInv(s', s'.dumps[id]) { assert DumpInv(s, s.dumps[id]); }
  }

  lemma DumpListInv(s: State, a: Action)
    requires Inv(s) && Enabled(s, a) && a.DumpList?
    ensures Inv(Apply(s, a))
  {
    PinnedIsBusy(s, a.id);
    hide PinCount;
    var s' := Apply(s, a);
    assert DumpInv(s, s.dumps[a.id]);
    forall k: nat ensures SlotInv(s', k) {
      PinPut(s.dumps, a.id, s'.dumps[a.id], k);
      assert SlotInv(s, k);
    }
    forall id | id in s'.dumps ensures DumpInv(s', s'.dumps[id]) { assert DumpInv(s, s.dumps[id]); }
  }

  lemma DumpDoneInv(s: State, a: Action)
    requires Inv(s) && Enabled(s, a) && a.DumpDone?
    ensures Inv(Apply(s, a))
  {
    if Pinned(s.dumps[a.id]) { PinnedIsBusy(s, a.id); }
    hide PinCount;
    var s' := Apply(s, a);
    forall k: nat ensures SlotInv(s', k) {
      PinRemove(s.dumps, a.id, k);
      assert SlotInv(s, k);
    }
    forall id | id in s'.dumps ensures DumpInv(s', s'.dumps[id]) { assert DumpInv(s, s.dumps[id]); }
  }

  lemma StepInv(s: State, a: Action)
    requires Inv(s) && Enabled(s, a)
    ensures Inv(Apply(s, a))
  {
    match a
    case DoCreate(_, _, _, _, _, _) => CreateInv(s, a);
    case DoDestroy(_) => DestroyRenameInv(s, a);
    case DoRename(_, _) => DestroyRenameInv(s, a);
    case DoSwap(_, _) => SwapInv(s, a);
    case Get(_) => RefInv(s, a);
    case PutRef(_) => RefInv(s, a);
    case DumpOpen(_, _) => DumpOpenInv(s, a);
    case DumpMessage(_) => DumpOpenInv(s, a);
    case DumpLook(_) => DumpLookInv(s, a);
    case DumpList(_, _) => DumpListInv(s, a);
    case DumpDone(_) => DumpDoneInv(s, a);
    case _ => DestroyAllInv(s, a);
  }

  /** Commands are possible exactly while no destroy-all is under way, and a reference that is held can be put then. */
  lemma CommandsPossible(s: State, name: string, name2: string, typ: SetType, exist: bool, same: bool, mem: bool,
                         uid: nat, i: nat)
    requires FreshUid(s.slots, uid)
    ensures Enabled(s, DoCreate(uid, name, typ, exist, same, mem)) <==> !s.destroying
    ensures Enabled(s, DoDestroy(name)) <==> !s.destroying
    ensures Enabled(s, DoRename(name, name2)) <==> !s.destroying
    ensures Enabled(s, DoSwap(name, name2)) <==> !s.destroying
    ensures Enabled(s, DestroyAllBegin) <==> !s.destroying
    ensures Enabled(s, DestroyAllSlot(i)) <==> s.destroying
    ensures Enabled(s, Get(i)) <==> !s.destroying
    ensures Enabled(s, PutRef(i)) <==> !s.destroying && GetsAt(s.gets, i) >= 1
  {
    hide FreshUid;
  }

  /** A dump never gets stuck: it has one kind of next step in every phase. */
  lemma NeverStuck(s: State, id: nat, outcome: Outcome, target: Option<string>)
    ensures Enabled(s, DumpOpen(id, target)) <==> id !in s.dumps
    ensures id in s.dumps ==>
              && (Enabled(s, DumpMessage(id)) || Enabled(s, DumpLook(id)) || Enabled(s, DumpList(id, outcome)))
              && !(Enabled(s, DumpMessage(id)) && Enabled(s, DumpLook(id)))
              && !(Enabled(s, DumpLook(id)) && Enabled(s, DumpList(id, outcome)))
              && !(Enabled(s, DumpMessage(id)) && Enabled(s, DumpList(id, outcome)))
              && (Enabled(s, DumpDone(id)) <==> Enabled(s, DumpMessage(id)))
  {
  }

  // ---------------------------------------------------------------- over whole runs

  ghost predicate RunOk(s: State, acts: seq<Action>)
    decreases |acts|
  {
    acts == [] || (Enabled(s, acts[0]) && RunOk(Apply(s, acts[0]), acts[1..]))
  }

  ghost function After(s: State, acts: seq<Action>): State
    requires RunOk(s, acts)
    decreases |acts|
  {
    if acts == [] then s else After(Apply(s, acts[0]), acts[1..])
  }

  lemma {:induction false} RunOne(s: State, acts: seq<Action>, a: Action)
    requires RunOk(s, acts) && Enabled(After(s, acts), a)
    ensures RunOk(s, acts + [a]) && After(s, acts + [a]) == Apply(After(s, acts), a)
    decreases |acts|
  {
    if acts == [] {
      assert [a][1..] == [];
    } else {
      hide Enabled, Apply;
      assert (acts + [a])[1..] == acts[1..] + [a];
      RunOne(Apply(s, acts[0]), acts[1..], a);
    }
  }

  ghost function Start(n: nat): State {
    State(seq(n, _ => None), false, map[], map[])
  }

  lemma StartInv(n: nat)
    ensures Inv(Start(n))
  {
    forall i: nat ensures PinCount(map[], i) == 0 { assert PinsAt(map[], i) == {}; }
  }

  lemma {:induction false} RunInv(s: State, acts: seq<Action>)
    requires Inv(s) && RunOk(s, acts)
    ensures Inv(After(s, acts))
    decreases |acts|
  {
    if acts != [] {
      StepInv(s, acts[0]);
      RunInv(Apply(s, acts[0]), acts[1..]);
    }
  }

  /** In every reachable state names and identities are unique, the references of a set are the outstanding gets on
      its index, its dump count is the number of dumps stopped on it, and a stopped dump finds its own set. */
  lemma ReachableConsistent(n: nat, acts: seq<Action>)
    requires RunOk(Start(n), acts)
    ensures var s := After(Start(n), acts);
            && Distinct(s.slots)
            && (forall i :: 0 <= i < |s.slots| && s.slots[i].Some? ==>
                  s.slots[i].value.refs == GetsAt(s.gets, i) && s.slots[i].value.netlink == PinCount(s.dumps, i))
            && (forall id :: id in s.dumps && Pinned(s.dumps[id]) ==>
                  && RecAt(s.slots, s.dumps[id].index).Some?
                  && s.slots[s.dumps[id].index].value.uid == s.dumps[id].uid)
  {
    StartInv(n);
    RunInv(Start(n), acts);
    var s := After(Start(n), acts);
    forall i | 0 <= i < |s.slots| && s.slots[i].Some?
      ensures s.slots[i].value.refs == GetsAt(s.gets, i) && s.slots[i].value.netlink == PinCount(s.dumps, i)
    {
      assert SlotInv(s, i);
    }
    forall id | id in s.dumps && Pinned(s.dumps[id])
      ensures RecAt(s.slots, s.dumps[id].index).Some? && s.slots[s.dumps[id].index].value.uid == s.dumps[id].uid
    {
      assert DumpInv(s, s.dumps[id]);
    }
  }

  /** A put by a holder of a reference always finds a set with a positive count, and a dump that lets go of a set
      always finds a positive dump count: neither kernel assertion can fail. */
  lemma AssertionsHold(n: nat, acts: seq<Action>, a: Action)
    requires RunOk(Start(n), acts) && Enabled(After(Start(n), acts), a)
    ensures var s := After(Start(n), acts);
            && (a.PutRef? ==> RecAt(s.slots, a.i).Some? && s.slots[a.i].value.refs > 0)
            && ((a.DumpList? || a.DumpDone?) && Pinned(s.dumps[a.id]) ==>
                  RecAt(s.slots, s.dumps[a.id].index).Some? && s.slots[s.dumps[a.id].index].value.netlink > 0)
  {
    StartInv(n);
    RunInv(Start(n), acts);
    var s := After(Start(n), acts);
    if a.PutRef? {
      assert SlotInv(s, a.i);
    } else if (a.DumpList? || a.DumpDone?) && Pinned(s.dumps[a.id]) {
      PinnedIsBusy(s, a.id);
    }
  }

  /** A resumed dump goes on with its set at its first look: the branches for a missing slot are never taken. */
  lemma ResumesOnSameSet(n: nat, acts: seq<Action>, id: nat)
    requires RunOk(Start(n), acts)
    requires var s := After(Start(n), acts);
             id in s.dumps && s.dumps[id].phase.Scanning? && s.dumps[id].phase.resumed
    ensures var s := After(Start(n), acts);
            var d := s.dumps[id];
            var s' := Apply(s, DumpLook(id));
            && s'.dumps[id] == d.(phase := Listing(d.phase.max))
            && s'.slots == s.slots && s.slots[d.index].value.uid == d.uid
  {
    StartInv(n);
    RunInv(Start(n), acts);
    PinnedIsBusy(After(Start(n), acts), id);
    assert DumpInv(After(Start(n), acts), After(Start(n), acts).dumps[id]);
  }

  /** No step takes a referenced or dumped set out of its slot, and no step but a swap moves a set. */
  lemma BusySetsStay(s: State, a: Action, i: nat)
    requires Inv(s) && Enabled(s, a) && i < |s.slots| && s.slots[i].Some?
    requires Busy_(s.slots[i].value)
    ensures var s' := Apply(s, a);
            && i < |s'.slots| && s'.slots[i].Some? && s'.slots[i].value.name == s.slots[i].value.name
            && (s'.slots[i].value.uid == s.slots[i].value.uid || (a.DoSwap? && s.slots[i].value.netlink == 0))
  {
    if s.destroying {
      DestroyingIsQuiet(s, i);
    }
  }

  lemma DestroyingIsQuiet(s: State, i: nat)
    requires Inv(s) && s.destroying && i < |s.slots| && s.slots[i].Some?
    ensures !Busy_(s.slots[i].value)
  {
    assert SlotInv(s, i);
    assert forall id :: id in s.dumps ==> DumpInv(s, s.dumps[id]);
    NonePinnedCount(s.dumps, i);
  }

  // ---------------------------------------------------------------- swap

  /** What a reference by index or a lookup by name sees: at each index the name, the references and the type class. */
  ghost predicate SameNaming(a: Slots, b: Slots) {
    && |a| == |b|
    && forall i :: 0 <= i < |a| ==>
         (a[i].Some? <==> b[i].Some?)
         && (a[i].Some? ==> a[i].value.name == b[i].value.name && a[i].value.refs == b[i].value.refs)
  }

  // ---------------------------------------------------------------- what the commands answer, by names

  /** Slot i holds the set of that name. */
  predicate NamedAt(slots: Slots, i: nat, name: string) {
    RecAt(slots, i).Some? && slots[i].value.name == name
  }

  predicate Taken(slots: Slots, name: string) {
    exists i :: 0 <= i < |slots| && NamedAt(slots, i, name)
  }

  lemma FindsName(slots: Slots, name: string)
    ensures FindId(slots, name, 0) < |slots| <==> Taken(slots, name)
    ensures forall i: nat :: Distinct(slots) && NamedAt(slots, i, name) ==> FindId(slots, name, 0) == i
  {
    var k := FindId(slots, name, 0);
    if k < |slots| {
      assert NamedAt(slots, k, name);
    }
  }

  /** The list can be extended exactly while it stays below the invalid id. */
  lemma MayGrowIff(n: nat)
    requires n < INVALID_ID
    ensures MayGrow(n) <==> n + SET_INC < INVALID_ID
  {
  }

  /** A new name gets the first free slot, or the first of an extended list; an existing one is refused unless the
      creator takes the same set as success. */
  lemma CreateAnswers(slots: Slots, uid: nat, name: string, typ: SetType, exist: bool, same: bool, mem: bool)
    requires |slots| < INVALID_ID
    ensures var r := Create(slots, uid, name, typ, exist, same, mem);
            var full := forall j :: 0 <= j < |slots| ==> slots[j].Some?;
            && (r.1 == Ok || r.1 == Exists || r.1 == MaxSets)
            && (r.1 == MaxSets <==>
                  !Taken(slots, name) && full && !(|slots| + SET_INC < INVALID_ID && mem))
            && (r.1 != Ok || Taken(slots, name) ==> r.0 == slots)
            && (r.1 == Ok && !Taken(slots, name) ==>
                  && (|r.0| == if full then |slots| + SET_INC else |slots|)
                  && exists k :: 0 <= k < |r.0| && NewAt(slots, r.0, k, SetRec(uid, name, typ, 0, 0)))
    ensures forall i: nat :: Distinct(slots) && NamedAt(slots, i, name) ==>
              (Create(slots, uid, name, typ, exist, same, mem).1 == Ok <==> exist && slots[i].value.typ == typ && same)
  {
    FindsName(slots, name);
    MayGrowIff(|slots|);
    var r := Create(slots, uid, name, typ, exist, same, mem);
    if r.1 == Ok && !Taken(slots, name) {
      assert NewAt(slots, r.0, FreeId(slots, 0), SetRec(uid, name, typ, 0, 0));
    }
  }

  /** The record goes into slot k, the first that was free, and the others stay. */
  ghost predicate NewAt(slots: Slots, slots': Slots, k: nat, r: SetRec) {
    && RecAt(slots', k) == Some(r) && RecAt(slots, k).None?
    && (forall j :: 0 <= j < k ==> RecAt(slots, j).Some?)
    && (forall j: nat :: j != k ==> RecAt(slots', j) == RecAt(slots, j))
  }

  /** A set is destroyed exactly when it is there and neither referenced nor being dumped. */
  lemma DestroyAnswers(slots: Slots, name: string, i: nat)
    requires Distinct(slots)
    ensures !Taken(slots, name) ==> Destroy(slots, name) == (slots, NoEnt)
    ensures NamedAt(slots, i, name) ==>
              var idle := slots[i].value.refs == 0 && slots[i].value.netlink == 0;
              var (slots', code) := Destroy(slots, name);
              && code == (if idle then Ok else Busy)
              && (idle ==> !Taken(slots', name))
              && forall j: nat :: RecAt(slots', j) == if j == i && idle then None else RecAt(slots, j)
  {
    FindsName(slots, name);
    var (slots', code) := Destroy(slots, name);
    assert forall j :: 0 <= j < |slots'| && NamedAt(slots', j, name) ==> NamedAt(slots, j, name);
  }

  /** A set is renamed exactly when it is there, neither referenced nor being dumped, and the new name is free. */
  lemma RenameAnswers(slots: Slots, name: string, name2: string, i: nat)
    requires Distinct(slots)
    ensures !Taken(slots, name) ==> Rename(slots, name, name2) == (slots, NoEnt)
    ensures NamedAt(slots, i, name) ==>
              var r := slots[i].value;
              var (slots', code) := Rename(slots, name, name2);
              && (code == Ok <==> r.refs == 0 && r.netlink == 0 && !Taken(slots, name2))
              && (code == Referenced <==> r.refs > 0 || r.netlink > 0)
              && (code == Ok || code == Referenced || code == ExistName2)
              && forall j: nat ::
                   RecAt(slots', j) == if j == i && code == Ok then Some(r.(name := name2)) else RecAt(slots, j)
  {
    FindsName(slots, name);
    FindsName(slots, name2);
  }

  /** Two sets are swapped exactly when both are there, of the same features and family, and none is being dumped;
      references by index do not matter. */
  lemma SwapAnswers(slots: Slots, name: string, name2: string, i: nat, j: nat)
    requires Distinct(slots)
    ensures Swap(slots, name, name2).1 != Ok ==> Swap(slots, name, name2).0 == slots
    ensures !Taken(slots, name) ==> Swap(slots, name, name2).1 == NoEnt
    ensures Taken(slots, name) && !Taken(slots, name2) ==> Swap(slots, name, name2).1 == ExistName2
    ensures NamedAt(slots, i, name) && NamedAt(slots, j, name2) ==>
              var a, b, code := slots[i].value, slots[j].value, Swap(slots, name, name2).1;
              var alike := a.typ.features == b.typ.features && a.typ.family == b.typ.family;
              && (code == Ok <==> alike && a.netlink == 0 && b.netlink == 0)
              && (code == TypeMismatch <==> !alike) && (code == Ok || code == TypeMismatch || code == Busy)
  {
    FindsName(slots, name);
    FindsName(slots, name2);
  }

  /** A swap exchanges the two objects behind the names and nothing else. */
  lemma SwapExchanges(slots: Slots, name: string, name2: string)
    requires Distinct(slots) && Swap(slots, name, name2).1 == Ok
    ensures var i := FindId(slots, name, 0);
            var j := FindId(slots, name2, 0);
            var slots' := Swap(slots, name, name2).0;
            && SameNaming(slots, slots')
            && slots'[i].value.uid == slots[j].value.uid && slots'[j].value.uid == slots[i].value.uid
            && FindId(slots', name, 0) == i && FindId(slots', name2, 0) == j
            && forall k :: 0 <= k < |slots| && k != i && k != j ==> slots'[k] == slots[k]
  {
    var i := FindId(slots, name, 0);
    var j := FindId(slots, name2, 0);
    var slots' := Swap(slots, name, name2).0;
    FindSame(slots, slots', name, 0);
    FindSame(slots, slots', name2, 0);
  }

  lemma {:induction false} FindSame(a: Slots, b: Slots, name: string, i: nat)
    requires SameNaming(a, b) && i <= |a|
    ensures FindId(a, name, i) == FindId(b, name, i)
    decreases |a| - i
  {
    if i < |a| {
      FindSame(a, b, name, i + 1);
    }
  }

  /** Swapping twice restores every slot. */
  lemma SwapTwice(slots: Slots, name: string, name2: string)
    requires Distinct(slots) && Swap(slots, name, name2).1 == Ok
    ensures Swap(Swap(slots, name, name2).0, name, name2) == (slots, Ok)
  {
    SwapExchanges(slots, name, name2);
    var slots' := Swap(slots, name, name2).0;
    var slots'' := Swap(slots', name, name2).0;
    assert forall k :: 0 <= k < |slots| ==> slots''[k] == slots[k];
    assert slots'' == slots;
  }
}
