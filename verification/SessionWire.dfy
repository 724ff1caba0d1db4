/** Messages of the userspace session: their parts, their sizes, and what the kernel reads out of them. */
module SessionWire {
  import opened Options

  const MNL_ATTR_HDRLEN: nat := 4
  const NLMSGERR_SIZE: nat := 20     // MNL_ALIGN(sizeof(struct nlmsgerr))
  const ADT_MAX: nat := 25
  const SETNAME_SIZE: nat := 32
  const PAGE_SIZE: nat := 4096       // the smallest page

  datatype Kind = AddCmd | DelCmd | TestCmd | PlainCmd(what: nat)

  type Value = string

  /** An element: attribute values by attribute type. */
  type Element = map<nat, Value>

  /** One command: exist says that errors about existing or missing entries are to be ignored. */
  datatype Command = Command(kind: Kind, setname: string, attrs: Element, lineno: nat, exist: bool)

  datatype Item = Item(attrs: Element, lineno: nat)

  /** One message. lineno 0 is a message of its own for one command; otherwise it collects items. */
  datatype Batch = Batch(kind: Kind, exist: bool, setname: string, lineno: nat, items: seq<Item>)

  /** Pieces of a message in the order they are put. A nest is opened and closed; closing takes no room. */
  datatype Tok =
    | Header(kind: Kind, exist: bool)
    | Protocol
    | SetName(name: string)
    | Lineno(n: nat)
    | Open(adt: bool)
    | Close
    | Attr(typ: nat, value: Value)

  function Align(n: nat): nat { (n + 3) / 4 * 4 }

  function TokSize(t: Tok): nat {
    match t
    case Header(_, _) => 20
    case Protocol => 8
    case SetName(s) => MNL_ATTR_HDRLEN + Align(|s| + 1)
    case Lineno(_) => MNL_ATTR_HDRLEN + 4
    case Open(_) => MNL_ATTR_HDRLEN
    case Close => 0
    case Attr(_, v) => MNL_ATTR_HDRLEN + Align(|v|)
  }

  function Size(ts: seq<Tok>): nat {
    if ts == [] then 0 else Size(ts[..|ts| - 1]) + TokSize(ts[|ts| - 1])
  }

  lemma {:induction false} SizeConcat(a: seq<Tok>, b: seq<Tok>)
    ensures Size(a + b) == Size(a) + Size(b)
    decreases |b|
  {
    if b == [] {
      assert a + b == a;
    } else {
      var b' := b[..|b| - 1];
      SizeConcat(a, b');
      assert (a + b)[..|a + b| - 1] == a + b';
    }
  }

  /** The largest payload of an attribute of an element, by the policy table; 0 is no such attribute. */
  function AdtMax(t: nat): nat {
    match t
    case 1 => 256 case 2 => 4 case 3 => 4
    case 17 => 32 case 18 => 32 case 19 => 8 case 20 => 8 case 21 => 256
    case 22 => 8 case 23 => 4 case 24 => 2
    case _ => 0
  }

  predicate ElementOk(e: Element) {
    forall t :: t in e ==> 0 < t <= ADT_MAX && 0 < AdtMax(t) && |e[t]| <= AdtMax(t)
  }

  predicate CommandOk(c: Command) {
    0 < |c.setname| < SETNAME_SIZE && ElementOk(c.attrs)
  }

  // ---------------------------------------------------------------- the wire form

  /** The attributes of an element of type t and above. */
  function AttrToks(e: Element, t: nat): seq<Tok>
    decreases ADT_MAX + 1 - t
  {
    if t > ADT_MAX then []
    else (if t in e then [Attr(t, e[t])] else []) + AttrToks(e, t + 1)
  }

  function ItemToks(kind: Kind, it: Item): seq<Tok> {
    [Open(false)] + AttrToks(it.attrs, 1) + NumToks(kind, it.lineno) + [Close]
  }

  function ItemsToks(kind: Kind, items: seq<Item>): seq<Tok> {
    if items == [] then [] else ItemsToks(kind, items[..|items| - 1]) + ItemToks(kind, items[|items| - 1])
  }

  /** Everything up to the first item. */
  function Lead(b: Batch): seq<Tok> {
    [Header(b.kind, b.exist), Protocol, SetName(b.setname)]
      + if b.lineno != 0 then [Lineno(b.lineno), Open(true)] else []
  }

  /** The buffer while items can still be added. */
  function OpenForm(b: Batch): seq<Tok> {
    Lead(b) + (if b.kind.PlainCmd? then [] else ItemsToks(b.kind, b.items))
  }

  function Wire(b: Batch): seq<Tok> {
    OpenForm(b) + if b.lineno != 0 then [Close] else []
  }

  predicate BatchOk(b: Batch) {
    && (b.lineno != 0 ==> b.kind.AddCmd? || b.kind.DelCmd?)
    && b.items != [] && (if b.lineno == 0 then |b.items| == 1 else b.items[0].lineno == b.lineno)
    && (b.kind.PlainCmd? ==> b.items[0].attrs == map[] && b.items[0].lineno == 0)
    && (b.kind.TestCmd? ==> b.items[0].lineno == 0)
    && forall k :: 0 <= k < |b.items| ==> ElementOk(b.items[k].attrs)
  }

  /** The commands in a message. */
  function Unpack(b: Batch): seq<Command> {
    seq(|b.items|, k requires 0 <= k < |b.items| =>
          Command(b.kind, b.setname, b.items[k].attrs, b.items[k].lineno, b.exist))
  }

  // ---------------------------------------------------------------- what the kernel reads

  /** The attributes up to the end of the nest, and what follows it. */
  function ReadAttrs(ts: seq<Tok>): (Element, nat, seq<Tok>) {
    if ts == [] then (map[], 0, [])
    else match ts[0]
      case Attr(t, v) => var r := ReadAttrs(ts[1..]); (r.0[t := v], r.1, r.2)
      case Lineno(n) => var r := ReadAttrs(ts[1..]); (r.0, n, r.2)
      case _ => (map[], 0, ts[1..])
  }

  lemma ReadAttrsShorter(ts: seq<Tok>)
    ensures |ReadAttrs(ts).2| <= |ts| && (ts != [] ==> |ReadAttrs(ts).2| < |ts|)
  {
  }

  function ReadItems(ts: seq<Tok>): seq<Item>
    decreases |ts|
  {
    if ts == [] || !ts[0].Open? then []
    else
      ReadAttrsShorter(ts[1..]);
      var r := ReadAttrs(ts[1..]);
      [Item(r.0, r.1)] + ReadItems(r.2)
  }

  /** The message a token list stands for; None is a protocol error. */
  function Read(ts: seq<Tok>): Option<Batch> {
    if |ts| < 3 || !ts[0].Header? || !ts[2].SetName? then None
    else if |ts| > 4 && ts[3].Lineno? && ts[4].Open? then
      Some(Batch(ts[0].kind, ts[0].exist, ts[2].name, ts[3].n, ReadItems(ts[5..])))
    else
      Some(Batch(ts[0].kind, ts[0].exist, ts[2].name, 0,
                 if ts[0].kind.PlainCmd? then [Item(map[], 0)] else ReadItems(ts[3..])))
  }

  function From(e: Element, t: nat): Element {
    map i | i in e && t <= i <= ADT_MAX :: e[i]
  }

  lemma ReadOne(t: nat, v: Value, rest: seq<Tok>)
    ensures var r := ReadAttrs(rest); ReadAttrs([Attr(t, v)] + rest) == (r.0[t := v], r.1, r.2)
  {
    assert ([Attr(t, v)] + rest)[1..] == rest;
  }

  lemma FromNext(e: Element, t: nat, base: Element)
    requires t <= ADT_MAX
    ensures base + From(e, t) == if t in e then (base + From(e, t + 1))[t := e[t]] else base + From(e, t + 1)
  {
  }

  lemma AttrToksNext(e: Element, t: nat, tail: seq<Tok>)
    requires t <= ADT_MAX
    ensures var rest := AttrToks(e, t + 1) + tail;
            AttrToks(e, t) + tail == if t in e then [Attr(t, e[t])] + rest else rest
  {
    if t in e {
      assert AttrToks(e, t) == [Attr(t, e[t])] + AttrToks(e, t + 1);
    } else {
      assert AttrToks(e, t) == [] + AttrToks(e, t + 1);
    }
  }

  lemma {:induction false} AttrsRead(e: Element, t: nat, tail: seq<Tok>)
    ensures var r := ReadAttrs(tail); ReadAttrs(AttrToks(e, t) + tail) == (r.0 + From(e, t), r.1, r.2)
    decreases ADT_MAX + 1 - t
  {
    hide ReadAttrs;
    if t > ADT_MAX {
      assert AttrToks(e, t) + tail == tail;
      assert ReadAttrs(tail).0 + From(e, t) == ReadAttrs(tail).0;
    } else {
      AttrsRead(e, t + 1, tail);
      hide AttrToks, From;
      AttrToksNext(e, t, tail);
      FromNext(e, t, ReadAttrs(tail).0);
      if t in e {
        ReadOne(t, e[t], AttrToks(e, t + 1) + tail);
      }
    }
  }

  lemma FromAll(e: Element)
    requires ElementOk(e)
    ensures map[] + From(e, 1) == e
  {
    hide AdtMax;
  }

  function NumToks(kind: Kind, n: nat): seq<Tok> {
    if kind.TestCmd? then [] else [Lineno(n)]
  }

  lemma EndRead(kind: Kind, n: nat, tail: seq<Tok>)
    requires kind.TestCmd? ==> n == 0
    ensures ReadAttrs(NumToks(kind, n) + ([Close] + tail)) == (map[], n, tail)
  {
    var c := [Close] + tail;
    assert c[1..] == tail && ReadAttrs(c) == (map[], 0, tail);
    if kind.TestCmd? {
      assert NumToks(kind, n) + c == c;
    } else {
      assert (NumToks(kind, n) + c)[1..] == c;
    }
  }

  lemma ItemRead(kind: Kind, it: Item, tail: seq<Tok>)
    requires ElementOk(it.attrs) && (kind.TestCmd? ==> it.lineno == 0)
    ensures ReadItems(ItemToks(kind, it) + tail) == [it] + ReadItems(tail)
  {
    hide ReadAttrs, AttrToks, ElementOk, From;
    var ts := ItemToks(kind, it) + tail;
    var end := NumToks(kind, it.lineno) + ([Close] + tail);
    assert ts[0] == Open(false) && ts[1..] == AttrToks(it.attrs, 1) + end;
    AttrsRead(it.attrs, 1, end);
    EndRead(kind, it.lineno, tail);
    FromAll(it.attrs);
    assert ReadAttrs(ts[1..]) == (it.attrs, it.lineno, tail);
  }

  lemma {:induction false} ItemsRead(kind: Kind, items: seq<Item>, tail: seq<Tok>)
    requires forall k :: 0 <= k < |items| ==> ElementOk(items[k].attrs) && (kind.TestCmd? ==> items[k].lineno == 0)
    ensures ReadItems(ItemsToks(kind, items) + tail) == items + ReadItems(tail)
    decreases |items|
  {
    hide ReadItems, ItemToks, ElementOk;
    if items == [] {
      assert ItemsToks(kind, items) + tail == tail;
    } else {
      var n := |items| - 1;
      var last := ItemToks(kind, items[n]);
      ItemRead(kind, items[n], tail);
      ItemsRead(kind, items[..n], last + tail);
      assert (ItemsToks(kind, items[..n]) + last) + tail == ItemsToks(kind, items[..n]) + (last + tail);
      assert items[..n] + ([items[n]] + ReadItems(tail)) == items + ReadItems(tail);
    }
  }

  lemma OneItem(kind: Kind, items: seq<Item>)
    requires |items| == 1
    ensures |ItemsToks(kind, items)| > 0 && ItemsToks(kind, items)[0] == Open(false)
  {
    assert items[..0] == [] && ItemsToks(kind, items) == ItemsToks(kind, items[..0]) + ItemToks(kind, items[0]);
  }

  /** The kernel reads the very message that was built. */
  lemma ReadWire(b: Batch)
    requires BatchOk(b)
    ensures Read(Wire(b)) == Some(b)
  {
    hide ItemsToks, ElementOk;
    var w := Wire(b);
    var tail := if b.lineno != 0 then [Close] else [];
    if b.lineno != 0 {
      ItemsRead(b.kind, b.items, tail);
      assert w[5..] == ItemsToks(b.kind, b.items) + tail;
      assert ReadItems(tail) == [];
      assert w[3] == Lineno(b.lineno) && w[4] == Open(true);
      assert ReadItems(w[5..]) == b.items;
    } else if b.kind.PlainCmd? {
      assert w == [Header(b.kind, b.exist), Protocol, SetName(b.setname)];
      assert b.items == [Item(map[], 0)];
    } else {
      ItemsRead(b.kind, b.items, tail);
      assert w[3..] == ItemsToks(b.kind, b.items) + tail;
      OneItem(b.kind, b.items);
      assert w[3] == ItemsToks(b.kind, b.items)[0];
      assert ReadItems(w[3..]) == b.items;
    }
  }

  // ---------------------------------------------------------------- sizes

  /** Room of the attribute of type t. */
  function MaxRoom(t: nat): nat {
    if AdtMax(t) > 0 then MNL_ATTR_HDRLEN + Align(AdtMax(t)) else 0
  }

  /** Room the attributes of type t and above can take at most. */
  function MaxRest(t: nat): nat
    decreases ADT_MAX + 1 - t
  {
    if t > ADT_MAX then 0 else MaxRoom(t) + MaxRest(t + 1)
  }

  lemma MaxRestStep(t: nat)
    requires t <= ADT_MAX
    ensures MaxRest(t) == MaxRoom(t) + MaxRest(t + 1)
  {
    hide AdtMax, Align;
  }

  lemma {:induction false} MaxRestGap(t: nat)
    requires 4 <= t <= 17
    ensures MaxRest(t) == MaxRest(17)
    decreases 17 - t
  {
    if t < 17 {
      MaxRestGap(t + 1);
      assert MaxRoom(t) == 0;
      hide *;
      MaxRestStep(t);
    }
  }

  lemma MaxRestAll()
    ensures MaxRest(1) == 660
  {
    LowRooms();
    MidRooms();
    HighRooms();
    assert MaxRest(26) == 0;
    hide *;
    MaxRestStep(25);
    MaxRestStep(24);
    MaxRestStep(23);
    MaxRestStep(22);
    MaxRestStep(21);
    MaxRestStep(20);
    MaxRestStep(19);
    MaxRestStep(18);
    MaxRestStep(17);
    MaxRestGap(4);
    MaxRestStep(3);
    MaxRestStep(2);
    MaxRestStep(1);
  }

  lemma LowRooms()
    ensures MaxRoom(1) == 260 && MaxRoom(2) == 8 && MaxRoom(3) == 8 && MaxRoom(17) == 36 && MaxRoom(18) == 36
  {
  }

  lemma MidRooms()
    ensures MaxRoom(19) == 12 && MaxRoom(20) == 12 && MaxRoom(21) == 260
  {
  }

  lemma HighRooms()
    ensures MaxRoom(22) == 12 && MaxRoom(23) == 8 && MaxRoom(24) == 8 && MaxRoom(25) == 0
  {
  }

  /** Is there no room for an attribute of up to max bytes, keeping some for an error message? */
  predicate BufferFull(bufsize: nat, len: nat, max: nat) {
    len + MNL_ATTR_HDRLEN + Align(max) + NLMSGERR_SIZE > bufsize
  }

  /** Do the attributes of an element, of type t and above, go in behind len bytes? */
  predicate AttrsFit(bufsize: nat, len: nat, e: Element, t: nat)
    requires ElementOk(e)
    decreases ADT_MAX + 1 - t
  {
    if t > ADT_MAX then true
    else if t in e then !BufferFull(bufsize, len, AdtMax(t)) &&
        AttrsFit(bufsize, len + TokSize(Attr(t, e[t])), e, t + 1)
    else AttrsFit(bufsize, len, e, t + 1)
  }

  /** Does one more item go in behind len bytes? */
  predicate ItemFits(bufsize: nat, len: nat, e: Element)
    requires ElementOk(e)
  {
    && len + MNL_ATTR_HDRLEN <= bufsize
    && AttrsFit(bufsize, len + MNL_ATTR_HDRLEN, e, 1)
    && !BufferFull(bufsize, len + MNL_ATTR_HDRLEN + Size(AttrToks(e, 1)), 4)
  }

  lemma SizeOne(t: Tok)
    ensures Size([t]) == TokSize(t)
  {
    assert [t][..0] == [];
  }

  lemma ValueBounded(e: Element, t: nat)
    requires ElementOk(e) && t in e
    ensures 0 < AdtMax(t) && Align(|e[t]|) <= Align(AdtMax(t))
  {
    hide AdtMax;
  }

  lemma AttrsFitNext(bufsize: nat, len: nat, e: Element, t: nat)
    requires ElementOk(e) && t <= ADT_MAX
    ensures AttrsFit(bufsize, len, e, t) <==>
              if t in e then
                && !BufferFull(bufsize, len, AdtMax(t))
                && AttrsFit(bufsize, len + TokSize(Attr(t, e[t])), e, t + 1)
              else AttrsFit(bufsize, len, e, t + 1)
  {
    hide AdtMax, ElementOk, BufferFull;
  }

  lemma SizeNext(e: Element, t: nat)
    requires t <= ADT_MAX
    ensures Size(AttrToks(e, t)) == (if t in e then TokSize(Attr(t, e[t])) else 0) + Size(AttrToks(e, t + 1))
  {
    AttrToksNext(e, t, []);
    assert AttrToks(e, t + 1) + [] == AttrToks(e, t + 1) && AttrToks(e, t) + [] == AttrToks(e, t);
    hide AttrToks, TokSize;
    if t in e {
      SizeOne(Attr(t, e[t]));
      SizeConcat([Attr(t, e[t])], AttrToks(e, t + 1));
    }
  }

  /** An attribute of the element takes no more than its room. */
  lemma OneBounded(bufsize: nat, len: nat, e: Element, t: nat)
    requires ElementOk(e) && t in e && len + MaxRoom(t) + NLMSGERR_SIZE <= bufsize
    ensures TokSize(Attr(t, e[t])) <= MaxRoom(t) && !BufferFull(bufsize, len, AdtMax(t))
  {
    ValueBounded(e, t);
    hide AdtMax, ElementOk, Align;
  }

  lemma {:induction false} AttrsBounded(bufsize: nat, len: nat, e: Element, t: nat)
    requires ElementOk(e) && len + MaxRest(t) + NLMSGERR_SIZE <= bufsize
    ensures AttrsFit(bufsize, len, e, t) && Size(AttrToks(e, t)) <= MaxRest(t)
    decreases ADT_MAX + 1 - t
  {
    hide AdtMax, ElementOk, Align, TokSize, BufferFull, MaxRoom;
    if t <= ADT_MAX {
      hide AttrsFit, MaxRest, AttrToks, Size;
      MaxRestStep(t);
      AttrsFitNext(bufsize, len, e, t);
      SizeNext(e, t);
      if t in e {
        OneBounded(bufsize, len, e, t);
        AttrsBounded(bufsize, len + TokSize(Attr(t, e[t])), e, t + 1);
      } else {
        AttrsBounded(bufsize, len, e, t + 1);
      }
    }
  }

  /** Every element fits behind the start of a message in a buffer of a page. */
  lemma OneItemFits(bufsize: nat, len: nat, e: Element)
    requires ElementOk(e) && PAGE_SIZE <= bufsize && len <= 3000
    ensures ItemFits(bufsize, len, e)
  {
    MaxRestAll();
    AttrsBounded(bufsize, len + MNL_ATTR_HDRLEN, e, 1);
  }
}
