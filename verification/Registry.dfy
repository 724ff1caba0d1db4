/** The registry object: set objects in a growing array, commands as scans over it. Each method is one step of the
    registry model. */
module Registry {
  import opened Options
  import opened RegistryModel

  class DSet {
    const uid: nat
    const typ: SetType
    var name: string
    var refs: nat
    var netlink: nat

    ghost function V(): SetRec
      reads this
    {
      SetRec(uid, name, typ, refs, netlink)
    }

    constructor (uid: nat, name: string, typ: SetType)
      ensures V() == SetRec(uid, name, typ, 0, 0)
    {
      this.uid, this.name, this.typ := uid, name, typ;
      refs, netlink := 0, 0;
    }
  }

  class SetNet {
    var list: array<DSet?>
    var isDestroyed: bool
    var dumps: map<nat, Dump>
    ghost var slots: Slots
    ghost var gets: map<nat, nat>
    ghost var objs: set<DSet>

    ghost predicate Valid()
      reads this, list, objs
    {
      && |slots| == list.Length
      && (forall i :: 0 <= i < list.Length ==>
            if list[i] == null then slots[i].None? else list[i] in objs && slots[i] == Some(list[i].V()))
      && (forall i, j :: 0 <= i < j < list.Length && list[i] != null ==> list[i] != list[j])
    }

    ghost function St(): State
      reads this
    {
      State(slots, isDestroyed, dumps, gets)
    }

    constructor (n: nat)
      ensures Valid() && fresh(list) && objs == {} && St() == Start(n)
    {
      list := new DSet?[n](_ => null);
      isDestroyed := false;
      dumps := map[];
      slots := seq(n, _ => None);
      gets := map[];
      objs := {};
    }

    method FindSetAndId(name: string) returns (set_: DSet?, id: nat)
      requires Valid()
      ensures id == FindId(slots, name, 0)
      ensures if id == |slots| then set_ == null else set_ != null && set_ == list[id]
    {
      id := 0;
      while id < list.Length
        invariant id <= list.Length && FindId(slots, name, 0) == FindId(slots, name, id)
      {
        if list[id] != null && list[id].name == name {
          return list[id], id;
        }
        id := id + 1;
      }
      set_ := null;
    }

    /** One pass for both a name clash and the first free slot. */
    method FindFreeId(name: string) returns (clash: DSet?, index: nat)
      requires Valid()
      ensures if FindId(slots, name, 0) < |slots| then clash != null && clash == list[FindId(slots, name, 0)]
              else clash == null && index == FreeId(slots, 0)
    {
      index := list.Length;
      for i := 0 to list.Length
        invariant index <= list.Length && FindId(slots, name, 0) == FindId(slots, name, i)
        invariant FreeId(slots, 0) == (if index == list.Length then FreeId(slots, i) else index)
      {
        if list[i] == null {
          if index == list.Length {
            index := i;
          }
        } else if list[i].name == name {
          return list[i], index;
        }
      }
      clash := null;
    }

    /** Replace the list by a copy with room for more sets. */
    method GrowList(i: nat)
      requires Valid() && i == list.Length + SET_INC
      modifies this`list, this`slots
      ensures Valid() && fresh(list) && slots == old(slots) + seq(SET_INC, _ => None)
    {
      var tmp := list;
      var bigger := new DSet?[i];
      forall k | 0 <= k < i {
        bigger[k] := if k < tmp.Length then tmp[k] else null;
      }
      list := bigger;
      slots := slots + seq(SET_INC, _ => None);
    }

    method PutNew(index: nat, set_: DSet)
      requires Valid() && index < list.Length && set_ !in objs
      modifies this`slots, this`objs, list
      ensures Valid() && objs == old(objs) + {set_} && slots == old(slots)[index := Some(set_.V())]
    {
      list[index] := set_;
      objs := objs + {set_};
      slots := slots[index := Some(set_.V())];
    }

    method Insert(uid: nat, name: string, typ: SetType, exist: bool, same: bool, mem: bool) returns (code: Code)
      requires Valid()
      modifies this`list, this`slots, this`objs, list
      ensures Valid() && fresh(objs - old(objs)) && (list == old(list) || fresh(list))
      ensures (slots, code) == Create(old(slots), uid, name, typ, exist, same, mem)
    {
      var set_ := new DSet(uid, name, typ);
      var clash, index := FindFreeId(name);
      if clash != null {
        return if exist && clash.typ == typ && same then Ok else Exists;
      }
      if index == list.Length {
        var i := (list.Length + SET_INC) % 65536;
        if i < list.Length || i == INVALID_ID {
          return MaxSets;
        }
        if !mem {
          return MaxSets;
        }
        GrowList(i);
        GrownAs(old(slots), set_.V());
      }
      PutNew(index, set_);
      code := Ok;
    }

    method CreateSet(uid: nat, name: string, typ: SetType, exist: bool, same: bool, mem: bool) returns (code: Code)
      requires Valid() && Enabled(St(), DoCreate(uid, name, typ, exist, same, mem))
      modifies this`list, this`slots, this`objs, list
      ensures Valid() && fresh(objs - old(objs)) && (list == old(list) || fresh(list))
      ensures St() == Apply(old(St()), DoCreate(uid, name, typ, exist, same, mem))
      ensures code == Create(old(slots), uid, name, typ, exist, same, mem).1
    {
      code := Insert(uid, name, typ, exist, same, mem);
    }

    lemma GrownAs(slots: Slots, r: SetRec)
      ensures (slots + seq(SET_INC, _ => None))[|slots| := Some(r)] == Grown(slots, r)
    {
    }

    method DestroySet(name: string) returns (code: Code)
      requires Valid() && Enabled(St(), DoDestroy(name))
      modifies this`slots, list
      ensures Valid() && St() == Apply(old(St()), DoDestroy(name)) && code == Destroy(old(slots), name).1
    {
      var s, i := FindSetAndId(name);
      if s == null {
        return NoEnt;
      }
      if s.refs > 0 || s.netlink > 0 {
        return Busy;
      }
      list[i] := null;
      slots := slots[i := None];
      code := Ok;
    }

    /** The first phase of destroying all sets: check, and raise the flag dumps look at. */
    method DestroyAllCheck() returns (code: Code)
      requires Valid() && Enabled(St(), RegistryModel.DestroyAllBegin)
      modifies this`isDestroyed
      ensures Valid() && St() == Apply(old(St()), RegistryModel.DestroyAllBegin)
      ensures code == Ok <==> isDestroyed
    {
      for i := 0 to list.Length
        invariant forall k :: 0 <= k < i && slots[k].Some? ==> !Busy_(slots[k].value)
      {
        var s := list[i];
        if s != null && (s.refs > 0 || s.netlink > 0) {
          assert slots[i].Some? && Busy_(slots[i].value);
          return Busy;
        }
      }
      isDestroyed := true;
      code := Ok;
    }

    method DestroyAllNext(i: nat)
      requires Valid() && Enabled(St(), RegistryModel.DestroyAllSlot(i))
      modifies this`slots, list
      ensures Valid() && St() == Apply(old(St()), RegistryModel.DestroyAllSlot(i))
    {
      if i < list.Length {
        if list[i] != null {
          list[i] := null;
        }
        slots := slots[i := None];
      }
    }

    /** Destroy all sets: nothing happens unless none is busy, and then nothing is left. acts are the steps taken. */
    method DestroyAll() returns (code: Code, ghost acts: seq<Action>)
      requires Valid() && !isDestroyed
      modifies this`isDestroyed, this`slots, list
      ensures Valid() && !isDestroyed && |slots| == |old(slots)|
      ensures code == Ok <==> forall i :: 0 <= i < |slots| && old(slots)[i].Some? ==> !Busy_(old(slots)[i].value)
      ensures if code == Ok then forall i :: 0 <= i < |slots| ==> slots[i].None? else slots == old(slots)
      ensures RunOk(old(St()), acts) && After(old(St()), acts) == St()
    {
      ghost var s0 := St();
      acts := [];
      RunOne(s0, acts, RegistryModel.DestroyAllBegin);
      acts := [RegistryModel.DestroyAllBegin];
      code := DestroyAllCheck();
      if code != Ok {
        return;
      }
      hide RunOk, After;
      for i := 0 to list.Length
        invariant Valid() && list == old(list) && |slots| == |s0.slots| && isDestroyed
        invariant RunOk(s0, acts) && After(s0, acts) == St()
        invariant forall k :: 0 <= k < i ==> slots[k].None?
      {
        RunOne(s0, acts, RegistryModel.DestroyAllSlot(i));
        DestroyAllNext(i);
        acts := acts + [RegistryModel.DestroyAllSlot(i)];
      }
      RunOne(s0, acts, RegistryModel.DestroyAllEnd);
      isDestroyed := false;
      acts := acts + [RegistryModel.DestroyAllEnd];
    }

    method RenameSet(name: string, name2: string) returns (code: Code)
      requires Valid() && Enabled(St(), DoRename(name, name2))
      modifies this`slots, objs
      ensures Valid() && St() == Apply(old(St()), DoRename(name, name2)) && code == Rename(old(slots), name, name2).1
    {
      var set_, i := FindSetAndId(name);
      if set_ == null {
        return NoEnt;
      }
      if set_.refs != 0 || set_.netlink != 0 {
        return Referenced;
      }
      var s, j := FindSetAndId(name2);
      if s != null {
        return ExistName2;
      }
      set_.name := name2;
      slots := slots[i := Some(set_.V())];
      code := Ok;
    }

    method Exchange(fromId: nat, toId: nat)
      requires Valid() && fromId < list.Length && toId < list.Length && list[fromId] != null && list[toId] != null
      modifies this`slots, list, objs
      ensures Valid() && slots == Swapped(old(slots), fromId, toId)
    {
      var from, to := list[fromId], list[toId];
      var fromName := from.name;
      from.name := to.name;
      to.name := fromName;
      var fromRefs := from.refs;
      from.refs := to.refs;
      to.refs := fromRefs;
      list[fromId] := to;
      list[toId] := from;
      slots := slots[fromId := Some(to.V())][toId := Some(from.V())];
    }

    method SwapSets(name: string, name2: string) returns (code: Code)
      requires Valid() && Enabled(St(), DoSwap(name, name2))
      modifies this`slots, list, objs
      ensures Valid() && St() == Apply(old(St()), DoSwap(name, name2)) && code == Swap(old(slots), name, name2).1
    {
      hide Swapped;
      var from, fromId := FindSetAndId(name);
      if from == null {
        return NoEnt;
      }
      var to, toId := FindSetAndId(name2);
      if to == null {
        return ExistName2;
      }
      if !(from.typ.features == to.typ.features && from.typ.family == to.typ.family) {
        return TypeMismatch;
      }
      if from.netlink > 0 || to.netlink > 0 {
        return Busy;
      }
      Exchange(fromId, toId);
      code := Ok;
    }

    method GetByIndex(index: nat) returns (id: nat)
      requires Valid() && Enabled(St(), Get(index))
      modifies this`slots, this`gets, objs
      ensures Valid() && St() == Apply(old(St()), Get(index))
      ensures id == if RecAt(old(slots), index).Some? then index else INVALID_ID
    {
      if index >= list.Length || list[index] == null {
        return INVALID_ID;
      }
      list[index].refs := list[index].refs + 1;
      slots := slots[index := Some(list[index].V())];
      gets := gets[index := GetsAt(gets, index) + 1];
      id := index;
    }

    /** The subtraction is guarded in the kernel by an assertion; the model's invariant discharges it. */
    method PutByIndex(index: nat)
      requires Valid() && Inv(St()) && Enabled(St(), PutRef(index))
      modifies this`slots, this`gets, objs
      ensures Valid() && St() == Apply(old(St()), PutRef(index))
    {
      assert SlotInv(St(), index);
      list[index].refs := list[index].refs - 1;
      slots := slots[index := Some(list[index].V())];
      gets := gets[index := GetsAt(gets, index) - 1];
    }

    /** A dump begins with the set it is for, or with all of them. */
    method DumpOpenStep(id: nat, target: Option<string>) returns (code: Code)
      requires Valid() && Enabled(St(), DumpOpen(id, target))
      modifies this`dumps
      ensures Valid() && St() == Apply(old(St()), DumpOpen(id, target))
      ensures code == if target.Some? && FindId(slots, target.value, 0) == |slots| then NoEnt else Ok
    {
      if target.None? {
        dumps := dumps[id := Dump(DumpAll, 0, Idle, 0)];
        return Ok;
      }
      var set_, index := FindSetAndId(target.value);
      if set_ == null {
        return NoEnt;
      }
      dumps := dumps[id := Dump(DumpOne, index, Idle, 0)];
      code := Ok;
    }

    /** The reader asks for the next message; a cursor beyond the list ends the dump. */
    method DumpMessageStep(id: nat)
      requires Valid() && Enabled(St(), DumpMessage(id))
      modifies this`dumps
      ensures Valid() && St() == Apply(old(St()), DumpMessage(id))
    {
      var d := dumps[id];
      if d.index >= list.Length {
        return;
      }
      var max := if d.kind.DumpOne? then d.index + 1 else list.Length;
      dumps := dumps[id := d.(phase := Scanning(max, d.phase.Paused?))];
    }

    /** A dump looks at the slot under its cursor and takes a count on the set it finds. */
    method DumpLookStep(id: nat)
      requires Valid() && Enabled(St(), DumpLook(id))
      modifies this`slots, this`dumps, objs
      ensures Valid() && St() == Apply(old(St()), DumpLook(id))
    {
      var d := dumps[id];
      var max := d.phase.max;
      if d.index >= max {
        dumps := dumps[id := if d.kind.DumpAll? then d.(kind := DumpLast, index := 0) else d.(phase := Idle)];
        return;
      }
      var s := if d.index < list.Length then list[d.index] else null;
      if s == null || isDestroyed {
        if d.kind.DumpOne? || isDestroyed {
          dumps := dumps[id := d.(phase := Idle)];
        } else {
          dumps := dumps[id := d.(index := d.index + 1)];
        }
        return;
      }
      if d.kind.DumpLast? {
        dumps := dumps[id := d.(index := d.index + 1)];
        return;
      }
      if !d.phase.resumed {
        s.netlink := s.netlink + 1;
        slots := slots[d.index := Some(s.V())];
      }
      dumps := dumps[id := d.(phase := Listing(max), uid := s.uid)];
    }

    /** The end of a listing message: pause inside the set, or let go of it. */
    method DumpListEnd(id: nat, outcome: Outcome)
      requires Valid() && Inv(St()) && Enabled(St(), DumpList(id, outcome))
      modifies this`slots, this`dumps, objs
      ensures Valid() && St() == Apply(old(St()), DumpList(id, outcome))
    {
      PinnedIsBusy(St(), id);
      var d := dumps[id];
      if outcome == More {
        dumps := dumps[id := d.(phase := Paused)];
        return;
      }
      var index := d.index;
      if outcome != Failed {
        d := d.(index := if d.kind.DumpOne? then INVALID_ID else d.index + 1);
      }
      Release(index);
      dumps := dumps[id := d.(phase := Idle)];
    }

    method Release(index: nat)
      requires Valid() && index < list.Length && list[index] != null && list[index].netlink > 0
      modifies this`slots, objs
      ensures Valid() && slots == Unpin(old(slots), index)
    {
      list[index].netlink := list[index].netlink - 1;
      slots := slots[index := Some(list[index].V())];
    }

    /** The dump is over, finished or cancelled by its reader. */
    method DumpDoneStep(id: nat)
      requires Valid() && Inv(St()) && Enabled(St(), DumpDone(id))
      modifies this`slots, this`dumps, objs
      ensures Valid() && St() == Apply(old(St()), DumpDone(id))
    {
      if dumps[id].phase.Paused? {
        PinnedIsBusy(St(), id);
        Release(dumps[id].index);
      }
      dumps := dumps - {id};
    }
  }
}
