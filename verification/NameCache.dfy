/** The userspace list of set names and types, and how it follows the kernel. */
module NameCache {
  import opened Options
  import opened RegistryModel

  datatype Entry = Entry(name: string, typ: SetType)

  // ---------------------------------------------------------------- the list as a sequence

  /** The first entry of a name, or the number of entries. */
  function Index(c: seq<Entry>, name: string, i: nat): (k: nat)
    requires i <= |c|
    ensures i <= k <= |c|
    ensures k < |c| ==> c[k].name == name
    ensures forall j :: i <= j < k ==> c[j].name != name
    decreases |c| - i
  {
    if i == |c| || c[i].name == name then i else Index(c, name, i + 1)
  }

  lemma IndexIs(c: seq<Entry>, name: string, k: nat)
    requires k <= |c| && (forall j :: 0 <= j < k ==> c[j].name != name) && (k < |c| ==> c[k].name == name)
    ensures Index(c, name, 0) == k
  {
  }

  /** The name is not among the first n entries. */
  ghost predicate Absent(c: seq<Entry>, name: string, n: nat) {
    n <= |c| && forall m :: 0 <= m < n ==> c[m].name != name
  }

  lemma AbsentNone(c: seq<Entry>, name: string)
    ensures Absent(c, name, 0)
  {
  }

  lemma AbsentNext(c: seq<Entry>, name: string, n: nat)
    requires Absent(c, name, n) && n < |c| && c[n].name != name
    ensures Absent(c, name, n + 1)
  {
  }

  lemma FirstAt(c: seq<Entry>, name: string, k: nat)
    requires Absent(c, name, k) && (k < |c| ==> c[k].name == name)
    ensures Index(c, name, 0) == k
  {
    IndexIs(c, name, k);
  }

  /** The name of the last entry is never looked at. */
  function Added(c: seq<Entry>, e: Entry): (seq<Entry>, bool) {
    if Index(c, e.name, 0) + 1 < |c| then (c, false) else (c + [e], true)
  }

  lemma AddedIs(c: seq<Entry>, e: Entry, k: nat)
    requires k < |c| && Absent(c, e.name, k) && (c[k].name == e.name || k + 1 == |c|)
    ensures Added(c, e) == if k + 1 < |c| then (c, false) else (c + [e], true)
  {
    FirstAt(c, e.name, if c[k].name == e.name then k else k + 1);
  }

  function Deleted(c: seq<Entry>, name: string): (seq<Entry>, bool) {
    var i := Index(c, name, 0);
    if i == |c| then (c, false) else (c[..i] + c[i + 1..], true)
  }

  function Renamed(c: seq<Entry>, from: string, to: string): (seq<Entry>, bool) {
    var i := Index(c, from, 0);
    if i == |c| then (c, false) else (c[i := c[i].(name := to)], true)
  }

  function NamesSwapped(c: seq<Entry>, from: string, to: string): (seq<Entry>, bool) {
    var i, j := Index(c, from, 0), Index(c, to, 0);
    if i == |c| || j == |c| then (c, false)
    else (c[i := c[i].(name := to)][j := c[j].(name := from)], true)
  }

  predicate Listed(c: seq<Entry>, name: string, n: nat) {
    exists i :: 0 <= i < n && i < |c| && c[i].name == name
  }

  /** The answers: an add succeeds unless the name is listed before the last entry, and the others exactly when every
      name they need is listed; nothing changes where they fail, and by how much the list grows or shrinks otherwise. */
  lemma CacheAnswers(c: seq<Entry>, e: Entry, from: string, to: string)
    ensures Added(c, e).1 <==> |c| == 0 || !Listed(c, e.name, |c| - 1)
    ensures Deleted(c, from).1 <==> Listed(c, from, |c|)
    ensures Renamed(c, from, to).1 <==> Listed(c, from, |c|)
    ensures NamesSwapped(c, from, to).1 <==> Listed(c, from, |c|) && Listed(c, to, |c|)
    ensures Added(c, e).0 == if Added(c, e).1 then c + [e] else c
    ensures |Deleted(c, from).0| == |c| - (if Deleted(c, from).1 then 1 else 0)
    ensures |Renamed(c, from, to).0| == |c| == |NamesSwapped(c, from, to).0|
    ensures !Deleted(c, from).1 ==> Deleted(c, from).0 == c
    ensures !Renamed(c, from, to).1 ==> Renamed(c, from, to).0 == c
    ensures !NamesSwapped(c, from, to).1 ==> NamesSwapped(c, from, to).0 == c
  {
    var i, j, k := Index(c, from, 0), Index(c, to, 0), Index(c, e.name, 0);
    assert i < |c| ==> Listed(c, from, |c|);
    assert j < |c| ==> Listed(c, to, |c|);
    assert k + 1 < |c| ==> c[k].name == e.name;
  }

  // ---------------------------------------------------------------- the linked list

  class Node {
    var name: string
    const typ: SetType
    var next: Node?

    constructor (name: string, typ: SetType)
      ensures this.name == name && this.typ == typ && next == null
    {
      this.name, this.typ, next := name, typ, null;
    }
  }

  function Following(s: seq<Node>, i: int): Node? {
    if 0 <= i && i + 1 < |s| then s[i + 1] else null
  }

  /** A list without its k-th node: the node before it is followed by the one behind it. */
  lemma Spliced(s: seq<Node>, k: nat)
    requires k < |s| && forall i, j :: 0 <= i < j < |s| ==> s[i] != s[j]
    ensures var r := s[..k] + s[k + 1..];
            && (forall i, j :: 0 <= i < j < |r| ==> r[i] != r[j])
            && (forall i :: 0 <= i < |r| ==> r[i] == s[if i < k then i else i + 1])
            && (forall i :: 0 <= i < |r| ==> Following(r, i) == Following(s, if i < k - 1 then i else i + 1))
            && (r == [] || r[0] == s[if k == 0 then 1 else 0])
  {
  }

  lemma EntriesSpliced(c: seq<Entry>, d: seq<Entry>, k: nat)
    requires k < |c| == |d| + 1 && forall i :: 0 <= i < |d| ==> d[i] == c[if i < k then i else i + 1]
    ensures d == c[..k] + c[k + 1..]
  {
  }

  class Cache {
    var setlist: Node?
    ghost var nodes: seq<Node>

    ghost predicate Valid()
      reads this, nodes
    {
      && setlist == (if nodes == [] then null else nodes[0])
      && (forall i, j :: 0 <= i < j < |nodes| ==> nodes[i] != nodes[j])
      && forall i :: 0 <= i < |nodes| ==> nodes[i].next == Following(nodes, i)
    }

    ghost function Entries(): (c: seq<Entry>)
      reads this, nodes
      ensures |c| == |nodes|
    {
      seq(|nodes|, i requires 0 <= i < |nodes| reads this, nodes => Entry(nodes[i].name, nodes[i].typ))
    }

    constructor ()
      ensures Valid() && Entries() == []
    {
      setlist, nodes := null, [];
    }

    /** Append an entry unless its name is found. The search stops before the last entry. */
    method Add(name: string, typ: SetType) returns (ok: bool)
      requires Valid()
      modifies this, nodes
      ensures Valid() && (Entries(), ok) == Added(old(Entries()), Entry(name, typ))
    {
      ghost var c := Entries();
      var n := new Node(name, typ);
      if setlist == null {
        setlist, nodes := n, [n];
        assert Entries() == c + [Entry(name, typ)];
        return true;
      }
      var s := setlist;
      ghost var k := 0;
      hide Added, Index;
      while s.next != null
        invariant k < |nodes| && s == nodes[k] && Absent(c, name, k)
        decreases |nodes| - k
        modifies {}
      {
        assert s.name == c[k].name;
        if name == s.name {
          AddedIs(c, Entry(name, typ), k);
          return false;
        }
        s := s.next;
        k := k + 1;
      }
      AddedIs(c, Entry(name, typ), k);
      Append(s, n);
      ok := true;
    }

    method Append(s: Node, n: Node)
      requires Valid() && nodes != [] && s == nodes[|nodes| - 1] && n !in nodes && n.next == null
      modifies s`next, this`nodes
      ensures Valid() && nodes == old(nodes) + [n] && Entries() == old(Entries()) + [Entry(n.name, n.typ)]
    {
      s.next := n;
      nodes := nodes + [n];
    }

    /** Free every node. */
    method DelAll()
      requires Valid()
      modifies this
      ensures Valid() && Entries() == []
    {
      var s := setlist;
      ghost var k := 0;
      while s != null
        invariant k <= |nodes| && s == (if k < |nodes| then nodes[k] else null)
        decreases |nodes| - k
        modifies {}
      {
        s := s.next;
        k := k + 1;
      }
      setlist, nodes := null, [];
    }

    /** Take out the first entry of a name, or without a name everything. */
    method Del(name: Option<string>) returns (ok: bool)
      requires Valid()
      modifies this, nodes
      ensures Valid()
      ensures (Entries(), ok) == if name.None? then ([], true) else Deleted(old(Entries()), name.value)
    {
      if name.None? {
        DelAll();
        return true;
      }
      ok := DelName(name.value);
    }

    method DelName(name: string) returns (ok: bool)
      requires Valid()
      modifies this, nodes
      ensures Valid() && (Entries(), ok) == Deleted(old(Entries()), name)
    {
      ghost var c := Entries();
      var s, prev := setlist, null;
      ghost var k := 0;
      while s != null
        invariant k <= |nodes| && s == (if k < |nodes| then nodes[k] else null)
        invariant prev == (if k > 0 then nodes[k - 1] else null)
        invariant forall j :: 0 <= j < k ==> c[j].name != name
        decreases |nodes| - k
        modifies {}
      {
        assert s.name == c[k].name;
        if s.name == name {
          break;
        }
        prev := s;
        s := s.next;
        k := k + 1;
      }
      IndexIs(c, name, k);
      ok := s != null;
      if ok {
        TakeOut(prev, s, k);
      }
    }

    /** The entries once node k is out of the list, given what they were. */
    lemma OutOf(c: seq<Entry>, before: seq<Node>, k: nat)
      requires k < |before| == |c| && nodes == before[..k] + before[k + 1..]
      requires forall i :: 0 <= i < |c| ==> c[i] == Entry(before[i].name, before[i].typ)
      ensures Entries() == c[..k] + c[k + 1..]
    {
      hide Valid, Following;
      ghost var d := Entries();
      forall i | 0 <= i < |d| ensures d[i] == c[if i < k then i else i + 1] {
        assert nodes[i] == before[if i < k then i else i + 1];
      }
      EntriesSpliced(c, d, k);
    }

    lemma EntriesAt()
      ensures forall i :: 0 <= i < |nodes| ==> Entries()[i] == Entry(nodes[i].name, nodes[i].typ)
    {
    }

    method TakeOut(prev: Node?, s: Node, ghost k: nat)
      requires Valid() && k < |nodes| && s == nodes[k] && prev == (if k > 0 then nodes[k - 1] else null)
      modifies this, nodes
      ensures Valid() && Entries() == old(Entries()[..k] + Entries()[k + 1..])
    {
      ghost var c, before := Entries(), nodes;
      EntriesAt();
      hide Following, Entries;
      Unlink(prev, s, k);
      hide Valid;
      forall i | 0 <= i < |c| ensures c[i] == Entry(before[i].name, before[i].typ) {
        assert before[i] in before;
      }
      OutOf(c, before, k);
    }

    method Unlink(prev: Node?, s: Node, ghost k: nat)
      requires Valid() && k < |nodes| && s == nodes[k] && prev == (if k > 0 then nodes[k - 1] else null)
      modifies this, nodes
      ensures Valid() && nodes == old(nodes[..k] + nodes[k + 1..])
      ensures forall n :: n in old(nodes) ==> n.name == old(n.name)
    {
      Spliced(nodes, k);
      hide Following;
      ghost var rest := nodes[..k] + nodes[k + 1..];
      assert s.next == Following(nodes, k);
      if prev == null {
        setlist := s.next;
      } else {
        prev.next := s.next;
      }
      nodes := rest;
    }

    method Rename(from: string, to: string) returns (ok: bool)
      requires Valid()
      modifies nodes
      ensures Valid() && (Entries(), ok) == Renamed(old(Entries()), from, to)
    {
      ghost var c := Entries();
      var s := setlist;
      ghost var k := 0;
      while s != null
        invariant k <= |nodes| && s == (if k < |nodes| then nodes[k] else null)
        invariant forall j :: 0 <= j < k ==> c[j].name != from
        decreases |nodes| - k
        modifies {}
      {
        assert s.name == c[k].name;
        if s.name == from {
          break;
        }
        s := s.next;
        k := k + 1;
      }
      IndexIs(c, from, k);
      ok := s != null;
      if ok {
        SetName(s, to, k);
      }
    }

    method SetName(s: Node, name: string, ghost k: nat)
      requires Valid() && k < |nodes| && s == nodes[k]
      modifies s`name
      ensures Valid() && Entries() == old(Entries())[k := old(Entries())[k].(name := name)]
    {
      s.name := name;
    }

    method SetNames(a: Node, b: Node, from: string, to: string, ghost i: nat, ghost j: nat)
      requires Valid() && i < |nodes| && a == nodes[i] && j < |nodes| && b == nodes[j]
      modifies nodes
      ensures Valid()
      ensures Entries() == old(var c := Entries(); c[i := c[i].(name := to)][j := c[j].(name := from)])
    {
      SetName(a, to, i);
      SetName(b, from, j);
      assert a != b ==> i != j;
    }

    /** One pass for both names. */
    method FindTwo(from: string, to: string) returns (a: Node?, b: Node?)
      requires Valid()
      ensures var i := Index(Entries(), from, 0); a == if i < |nodes| then nodes[i] else null
      ensures var j := Index(Entries(), to, 0); b == if j < |nodes| then nodes[j] else null
    {
      hide Index, Absent;
      ghost var c := Entries();
      var s := setlist;
      a, b := null, null;
      ghost var k, i, j := 0, 0, 0;
      AbsentNone(c, from);
      AbsentNone(c, to);
      while s != null && (a == null || b == null)
        invariant k <= |nodes| && s == (if k < |nodes| then nodes[k] else null)
        invariant i <= |nodes| && (if a == null then i == k else i < k && a == nodes[i] && c[i].name == from)
        invariant j <= |nodes| && (if b == null then j == k else j < k && b == nodes[j] && c[j].name == to)
        invariant Absent(c, from, i) && Absent(c, to, j)
        decreases |nodes| - k
        modifies {}
      {
        assert s.name == c[k].name;
        if a == null {
          if s.name == from {
            a := s;
          } else {
            AbsentNext(c, from, i);
            i := i + 1;
          }
        }
        if b == null {
          if s.name == to {
            b := s;
          } else {
            AbsentNext(c, to, j);
            j := j + 1;
          }
        }
        s := s.next;
        k := k + 1;
      }
      FirstAt(c, from, i);
      FirstAt(c, to, j);
    }

    method Swap(from: string, to: string) returns (ok: bool)
      requires Valid()
      modifies nodes
      ensures Valid() && (Entries(), ok) == NamesSwapped(old(Entries()), from, to)
    {
      ghost var c := Entries();
      var a, b := FindTwo(from, to);
      ok := a != null && b != null;
      hide Index;
      if ok {
        SetNames(a, b, from, to, Index(c, from, 0), Index(c, to, 0));
      }
    }
  }

  // ---------------------------------------------------------------- following the kernel

  /** The type of the set of a name, as the cache and as the kernel has it. */
  function CachedType(c: seq<Entry>, name: string): Option<SetType> {
    var i := Index(c, name, 0);
    if i < |c| then Some(c[i].typ) else None
  }

  function KernelType(slots: Slots, name: string): Option<SetType> {
    var i := FindId(slots, name, 0);
    if i < |slots| then Some(slots[i].value.typ) else None
  }

  ghost predicate UniqueNames(c: seq<Entry>) {
    forall i, j :: 0 <= i < j < |c| ==> c[i].name != c[j].name
  }

  /** The cache has every set of the kernel once, with its type, and nothing else. */
  ghost predicate Mirrors(c: seq<Entry>, slots: Slots) {
    UniqueNames(c) && forall name :: CachedType(c, name) == KernelType(slots, name)
  }

  /** The type found for a name is t exactly when an entry says so (both ways round for the kernel's slots). */
  lemma CachedIs(c: seq<Entry>, k: nat)
    requires UniqueNames(c) && k < |c|
    ensures Index(c, c[k].name, 0) == k && CachedType(c, c[k].name) == Some(c[k].typ)
  {
  }

  lemma KernelIs(slots: Slots, k: nat)
    requires Distinct(slots) && k < |slots| && slots[k].Some?
    ensures FindId(slots, slots[k].value.name, 0) == k &&
              KernelType(slots, slots[k].value.name) == Some(slots[k].value.typ)
  {
  }

  lemma CacheAddEffect(c: seq<Entry>, e: Entry, x: string)
    requires UniqueNames(c) && Index(c, e.name, 0) == |c|
    ensures UniqueNames(c + [e]) && CachedType(c + [e], x) == if x == e.name then Some(e.typ) else CachedType(c, x)
  {
    var c' := c + [e];
    var i := Index(c, x, 0);
    if x == e.name {
      CachedIs(c', |c|);
    } else if i < |c| {
      CachedIs(c', i);
    } else {
      assert Index(c', x, 0) == |c'|;
    }
  }

  lemma CacheDelEffect(c: seq<Entry>, name: string, x: string)
    requires UniqueNames(c)
    ensures UniqueNames(Deleted(c, name).0)
    ensures CachedType(Deleted(c, name).0, x) == if x == name then None else CachedType(c, x)
  {
    var k := Index(c, name, 0);
    var c' := Deleted(c, name).0;
    if k < |c| {
      Shifted(c, k);
      hide UniqueNames;
      var i := Index(c, x, 0);
      if x != name && i < |c| {
        CachedIs(c', if i < k then i else i - 1);
      } else {
        GoneFrom(c, k, x);
        IndexIs(c', x, |c'|);
      }
    }
  }

  /** A list of unique names without its k-th entry. */
  lemma Shifted(c: seq<Entry>, k: nat)
    requires UniqueNames(c) && k < |c|
    ensures var c' := c[..k] + c[k + 1..];
            && UniqueNames(c') && |c'| == |c| - 1
            && forall m :: 0 <= m < |c'| ==> c'[m] == c[if m < k then m else m + 1]
  {
  }

  lemma GoneFrom(c: seq<Entry>, k: nat, x: string)
    requires UniqueNames(c) && k < |c| && (x == c[k].name || Index(c, x, 0) == |c|)
    ensures var c' := c[..k] + c[k + 1..]; forall m :: 0 <= m < |c'| ==> c'[m].name != x
  {
    Shifted(c, k);
  }

  lemma CacheRenameEffect(c: seq<Entry>, from: string, to: string, x: string)
    requires UniqueNames(c) && Index(c, from, 0) < |c| && Index(c, to, 0) == |c|
    ensures UniqueNames(Renamed(c, from, to).0)
    ensures CachedType(Renamed(c, from, to).0, x) ==
              if x == to then CachedType(c, from) else if x == from then None else CachedType(c, x)
  {
    var k := Index(c, from, 0);
    var c' := Renamed(c, from, to).0;
    assert forall m :: 0 <= m < |c| && m != k ==> c'[m] == c[m] && c[m].name != from;
    var i := Index(c, x, 0);
    if x == to {
      CachedIs(c', k);
    } else if x != from && i < |c| {
      CachedIs(c', i);
    } else {
      assert Index(c', x, 0) == |c'|;
    }
  }

  lemma CacheSwapNames(c: seq<Entry>, from: string, to: string)
    requires UniqueNames(c) && Index(c, from, 0) < |c| && Index(c, to, 0) < |c|
    ensures var i, j := Index(c, from, 0), Index(c, to, 0);
            var c' := NamesSwapped(c, from, to).0;
            && UniqueNames(c') && |c'| == |c| && c'[i] == Entry(to, c[i].typ) && c'[j] == Entry(from, c[j].typ)
            && forall m :: 0 <= m < |c| && m != i && m != j ==> c'[m] == c[m] && c[m].name != from && c[m].name != to
  {
    hide Index;
  }

  lemma CacheSwapEffect(c: seq<Entry>, from: string, to: string, x: string)
    requires UniqueNames(c) && Index(c, from, 0) < |c| && Index(c, to, 0) < |c|
    ensures UniqueNames(NamesSwapped(c, from, to).0)
    ensures CachedType(NamesSwapped(c, from, to).0, x) ==
              if x == to then CachedType(c, from) else if x == from then CachedType(c, to) else CachedType(c, x)
  {
    CacheSwapNames(c, from, to);
    hide NamesSwapped, UniqueNames;
    var c' := NamesSwapped(c, from, to).0;
    var k := Index(c, x, 0);
    if x == to {
      CachedIs(c', Index(c, from, 0));
    } else if x == from {
      CachedIs(c', Index(c, to, 0));
    } else if k < |c| {
      CachedIs(c', k);
    } else {
      assert Index(c', x, 0) == |c'|;
    }
  }

  // what the kernel's commands do to the types of names

  lemma KernelCreateEffect(slots: Slots, uid: nat, name: string, typ: SetType, exist: bool, same: bool, mem: bool,
                           x: string)
    requires var r := Create(slots, uid, name, typ, exist, same, mem); r.1 == Ok && Distinct(slots) && Distinct(r.0)
    ensures KernelType(Create(slots, uid, name, typ, exist, same, mem).0, x) ==
              if x == name then Some(typ) else KernelType(slots, x)
  {
    var slots' := Create(slots, uid, name, typ, exist, same, mem).0;
    if FindId(slots, name, 0) == |slots| {
      var f := FreeId(slots, 0);
      assert slots'[f] == Some(SetRec(uid, name, typ, 0, 0));
      assert forall k: nat :: k != f && k < |slots'| && slots'[k].Some? ==> k < |slots| && slots[k] == slots'[k];
      var i := FindId(slots, x, 0);
      if x == name {
        KernelIs(slots', f);
      } else if i < |slots| {
        KernelIs(slots', i);
      } else {
        assert FindId(slots', x, 0) == |slots'|;
      }
    }
  }

  lemma KernelDestroyEffect(slots: Slots, name: string, x: string)
    requires var r := Destroy(slots, name); r.1 == Ok && Distinct(slots) && Distinct(r.0)
    ensures FindId(slots, name, 0) < |slots|
    ensures KernelType(Destroy(slots, name).0, x) == if x == name then None else KernelType(slots, x)
  {
    var slots' := Destroy(slots, name).0;
    var i := FindId(slots, x, 0);
    if x != name && i < |slots| {
      KernelIs(slots', i);
    } else {
      assert FindId(slots', x, 0) == |slots'|;
    }
  }

  lemma KernelRenameEffect(slots: Slots, name: string, name2: string, x: string)
    requires var r := Rename(slots, name, name2); r.1 == Ok && Distinct(slots) && Distinct(r.0)
    ensures KernelType(slots, name).Some? && KernelType(slots, name2).None?
    ensures KernelType(Rename(slots, name, name2).0, x) ==
              if x == name2 then KernelType(slots, name) else if x == name then None else KernelType(slots, x)
  {
    var slots' := Rename(slots, name, name2).0;
    var k, i := FindId(slots, name, 0), FindId(slots, x, 0);
    if x == name2 {
      KernelIs(slots', k);
    } else if x != name && i < |slots| {
      KernelIs(slots', i);
    } else {
      assert FindId(slots', x, 0) == |slots'|;
    }
  }

  lemma KernelSwapEffect(slots: Slots, name: string, name2: string, x: string)
    requires var r := Swap(slots, name, name2); r.1 == Ok && Distinct(slots) && Distinct(r.0)
    ensures KernelType(slots, name).Some? && KernelType(slots, name2).Some?
    ensures KernelType(Swap(slots, name, name2).0, x) ==
              if x == name2 then KernelType(slots, name)
              else if x == name then KernelType(slots, name2) else KernelType(slots, x)
  {
    var slots' := Swap(slots, name, name2).0;
    var a, b, i := FindId(slots, name, 0), FindId(slots, name2, 0), FindId(slots, x, 0);
    if x == name2 {
      KernelIs(slots', b);
    } else if x == name {
      KernelIs(slots', a);
    } else if i < |slots| {
      KernelIs(slots', i);
    } else {
      assert FindId(slots', x, 0) == |slots'|;
    }
  }

  // ---------------------------------------------------------------- acknowledged commands

  /** A successful create keeps the cache a mirror exactly when the set did not exist already as the last entry:
      with -exist, that entry is then doubled. */
  lemma CreateMirrorsIff(c: seq<Entry>, slots: Slots, uid: nat, name: string, typ: SetType, exist: bool, same: bool,
                         mem: bool)
    requires Mirrors(c, slots) && Distinct(slots)
    requires var r := Create(slots, uid, name, typ, exist, same, mem); r.1 == Ok && Distinct(r.0)
    ensures Mirrors(Added(c, Entry(name, typ)).0, Create(slots, uid, name, typ, exist, same, mem).0) <==>
            c == [] || c[|c| - 1].name != name
  {
    var e := Entry(name, typ);
    var slots' := Create(slots, uid, name, typ, exist, same, mem).0;
    var i := Index(c, name, 0);
    assert CachedType(c, name) == KernelType(slots, name);
    if i == |c| {
      forall x ensures CachedType(c + [e], x) == KernelType(slots', x) {
        CacheAddEffect(c, e, x);
        KernelCreateEffect(slots, uid, name, typ, exist, same, mem, x);
      }
      CacheAddEffect(c, e, name);
    } else if i + 1 == |c| {
      assert (c + [e])[i].name == (c + [e])[|c|].name;
    } else {
      assert slots' == slots && Added(c, e).0 == c;
    }
  }

  /** The doubled entry outlives the set: after it is destroyed the cache still has it. */
  lemma DoubledEntryStays(c: seq<Entry>, slots: Slots, name: string, typ: SetType)
    requires Mirrors(c, slots) && Distinct(slots) && c != [] && c[|c| - 1] == Entry(name, typ)
    requires var r := Destroy(slots, name); r.1 == Ok && Distinct(r.0)
    ensures Create(slots, 0, name, typ, true, true, true) == (slots, Ok)
    ensures KernelType(Destroy(slots, name).0, name) == None
    ensures CachedType(Deleted(Added(c, Entry(name, typ)).0, name).0, name) == Some(typ)
  {
    var n := |c| - 1;
    CachedIs(c, n);
    assert CachedType(c, name) == KernelType(slots, name);
    KernelDestroyEffect(slots, name, name);
    var c' := c + [Entry(name, typ)];
    assert Added(c, Entry(name, typ)).0 == c';
    IndexIs(c', name, n);
    var c'' := c'[..n] + c'[n + 1..];
    assert Deleted(c', name).0 == c'' && c''[n] == Entry(name, typ);
    IndexIs(c'', name, n);
  }

  lemma DestroyMirrors(c: seq<Entry>, slots: Slots, name: string)
    requires Mirrors(c, slots) && Distinct(slots)
    requires var r := Destroy(slots, name); r.1 == Ok && Distinct(r.0)
    ensures Mirrors(Deleted(c, name).0, Destroy(slots, name).0)
  {
    forall x ensures CachedType(Deleted(c, name).0, x) == KernelType(Destroy(slots, name).0, x) {
      CacheDelEffect(c, name, x);
      KernelDestroyEffect(slots, name, x);
    }
    CacheDelEffect(c, name, name);
  }

  lemma RenameMirrors(c: seq<Entry>, slots: Slots, name: string, name2: string)
    requires Mirrors(c, slots) && Distinct(slots)
    requires var r := Rename(slots, name, name2); r.1 == Ok && Distinct(r.0)
    ensures Mirrors(Renamed(c, name, name2).0, Rename(slots, name, name2).0)
  {
    KernelRenameEffect(slots, name, name2, name);
    assert CachedType(c, name) == KernelType(slots, name) && CachedType(c, name2) == KernelType(slots, name2);
    forall x ensures CachedType(Renamed(c, name, name2).0, x) == KernelType(Rename(slots, name, name2).0, x) {
      CacheRenameEffect(c, name, name2, x);
      KernelRenameEffect(slots, name, name2, x);
    }
    CacheRenameEffect(c, name, name2, name);
  }

  lemma SwapMirrors(c: seq<Entry>, slots: Slots, name: string, name2: string)
    requires Mirrors(c, slots) && Distinct(slots)
    requires var r := Swap(slots, name, name2); r.1 == Ok && Distinct(r.0)
    ensures Mirrors(NamesSwapped(c, name, name2).0, Swap(slots, name, name2).0)
  {
    KernelSwapEffect(slots, name, name2, name);
    assert CachedType(c, name) == KernelType(slots, name) && CachedType(c, name2) == KernelType(slots, name2);
    forall x ensures CachedType(NamesSwapped(c, name, name2).0, x) == KernelType(Swap(slots, name, name2).0, x) {
      CacheSwapEffect(c, name, name2, x);
      KernelSwapEffect(slots, name, name2, x);
    }
    CacheSwapEffect(c, name, name2, name);
  }

  /** What the client does with the kernel's answer to its command; other steps do not concern it. */
  function Follow(c: seq<Entry>, slots: Slots, a: Action): seq<Entry> {
    match a
    case DoCreate(uid, name, typ, exist, same, mem) =>
      if Create(slots, uid, name, typ, exist, same, mem).1 == Ok then Added(c, Entry(name, typ)).0 else c
    case DoDestroy(name) => if Destroy(slots, name).1 == Ok then Deleted(c, name).0 else c
    case DestroyAllEnd => []
    case DoRename(name, name2) => if Rename(slots, name, name2).1 == Ok then Renamed(c, name, name2).0 else c
    case DoSwap(name, name2) => if Swap(slots, name, name2).1 == Ok then NamesSwapped(c, name, name2).0 else c
    case _ => c
  }

  /** Commands of one client without -exist, among references and dumps of anyone. */
  predicate OneClient(a: Action) {
    a.DoCreate? ==> !a.exist
  }

  /** All sets are being destroyed and the client has no answer yet, or the cache mirrors the kernel. */
  ghost predicate InStep(c: seq<Entry>, s: State) {
    s.destroying || Mirrors(c, s.slots)
  }

  ghost predicate SameTypes(a: Slots, b: Slots) {
    && |a| == |b|
    && forall k :: 0 <= k < |a| ==> SameType(a[k], b[k])
  }

  predicate SameType(a: Option<SetRec>, b: Option<SetRec>) {
    (a.Some? <==> b.Some?) && (a.Some? ==> a.value.name == b.value.name && a.value.typ == b.value.typ)
  }

  lemma {:induction false} SameFind(a: Slots, b: Slots, name: string, i: nat)
    requires SameTypes(a, b) && i <= |a|
    ensures FindId(a, name, i) == FindId(b, name, i)
    decreases |a| - i
  {
    if i < |a| {
      assert SameType(a[i], b[i]);
      SameFind(a, b, name, i + 1);
    }
  }

  lemma SameTypesMirror(c: seq<Entry>, a: Slots, b: Slots)
    requires SameTypes(a, b) && Mirrors(c, a)
    ensures Mirrors(c, b)
  {
    forall name ensures CachedType(c, name) == KernelType(b, name) {
      SameFind(a, b, name, 0);
      var i := FindId(a, name, 0);
      assert i < |a| ==> SameType(a[i], b[i]);
      assert CachedType(c, name) == KernelType(a, name);
    }
  }

  /** References and dumps change no name and no type. */
  lemma QuietMirrors(c: seq<Entry>, s: State, a: Action)
    requires Enabled(s, a) && !s.destroying && Mirrors(c, s.slots)
    requires !a.DoCreate? && !a.DoDestroy? && !a.DoRename? && !a.DoSwap?
    ensures Mirrors(c, Apply(s, a).slots)
  {
    hide Mirrors, FindId;
    assert SameTypes(s.slots, Apply(s, a).slots);
    SameTypesMirror(c, s.slots, Apply(s, a).slots);
  }

  lemma EmptyMirrors(slots: Slots)
    requires forall i :: 0 <= i < |slots| ==> slots[i].None?
    ensures Mirrors([], slots)
  {
    forall name ensures KernelType(slots, name) == None {
      assert FindId(slots, name, 0) == |slots|;
    }
  }

  lemma NewCreateMirrors(c: seq<Entry>, slots: Slots, uid: nat, name: string, typ: SetType, same: bool, mem: bool)
    requires Mirrors(c, slots) && Distinct(slots)
    requires var r := Create(slots, uid, name, typ, false, same, mem); r.1 == Ok && Distinct(r.0)
    ensures Mirrors(Added(c, Entry(name, typ)).0, Create(slots, uid, name, typ, false, same, mem).0)
  {
    assert CachedType(c, name) == KernelType(slots, name) == None;
    assert Index(c, name, 0) == |c|;
    CreateMirrorsIff(c, slots, uid, name, typ, false, same, mem);
  }

  /** A refused command changes nothing in the kernel. */
  lemma RefusedUnchanged(s: State, a: Action)
    requires Enabled(s, a)
    ensures a.DoCreate? && Create(s.slots, a.uid, a.name, a.typ, a.exist, a.same, a.mem).1 != Ok ==>
              Apply(s, a).slots == s.slots
    ensures a.DoDestroy? && Destroy(s.slots, a.name).1 != Ok ==> Apply(s, a).slots == s.slots
    ensures a.DoRename? && Rename(s.slots, a.name, a.name2).1 != Ok ==> Apply(s, a).slots == s.slots
    ensures a.DoSwap? && Swap(s.slots, a.name, a.name2).1 != Ok ==> Apply(s, a).slots == s.slots
  {
  }

  lemma FollowMirrors(c: seq<Entry>, s: State, a: Action)
    requires Inv(s) && Enabled(s, a) && OneClient(a) && InStep(c, s)
    ensures InStep(Follow(c, s.slots, a), Apply(s, a))
  {
    if s.destroying {
      if a.DestroyAllEnd? { EmptyMirrors(s.slots); }
      return;
    }
    StepInv(s, a);
    RefusedUnchanged(s, a);
    hide Mirrors, SlotInv, DumpInv, Create, Destroy, Rename, Swap, Added, Deleted, Renamed, NamesSwapped;
    match a
    case DoCreate(uid, name, typ, exist, same, mem) =>
      if Create(s.slots, uid, name, typ, exist, same, mem).1 == Ok {
        NewCreateMirrors(c, s.slots, uid, name, typ, same, mem);
      }
    case DoDestroy(name) => if Destroy(s.slots, name).1 == Ok { DestroyMirrors(c, s.slots, name); }
    case DoRename(name, name2) => if Rename(s.slots, name, name2).1 == Ok { RenameMirrors(c, s.slots, name, name2); }
    case DoSwap(name, name2) => if Swap(s.slots, name, name2).1 == Ok { SwapMirrors(c, s.slots, name, name2); }
    case _ => QuietMirrors(c, s, a);
  }

  /** The cache after a run, starting empty. */
  ghost function Followed(c: seq<Entry>, s: State, acts: seq<Action>): seq<Entry>
    requires RunOk(s, acts)
    decreases |acts|
  {
    if acts == [] then c else Followed(Follow(c, s.slots, acts[0]), Apply(s, acts[0]), acts[1..])
  }

  lemma {:induction false} RunMirrors(c: seq<Entry>, s: State, acts: seq<Action>)
    requires Inv(s) && RunOk(s, acts) && InStep(c, s) && forall i :: 0 <= i < |acts| ==> OneClient(acts[i])
    ensures InStep(Followed(c, s, acts), After(s, acts))
    decreases |acts|
  {
    if acts != [] {
      FollowMirrors(c, s, acts[0]);
      StepInv(s, acts[0]);
      hide Inv, InStep, Follow, Apply;
      RunMirrors(Follow(c, s.slots, acts[0]), Apply(s, acts[0]), acts[1..]);
    }
  }

  /** From an empty registry on, the cache is the kernel's map from names to types after every answered command. */
  lemma CacheFollowsKernel(n: nat, acts: seq<Action>)
    requires RunOk(Start(n), acts) && forall i :: 0 <= i < |acts| ==> OneClient(acts[i])
    ensures InStep(Followed([], Start(n), acts), After(Start(n), acts))
  {
    StartInv(n);
    RunMirrors([], Start(n), acts);
  }
}
