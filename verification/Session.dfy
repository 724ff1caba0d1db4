/** The userspace session: add and delete commands collected into messages. */
module Session {
  import opened Options
  import opened SessionWire

  // ---------------------------------------------------------------- what a kernel makes of commands

  datatype Outcome<K> = Done(state: K) | Failed(state: K)

  type Executor<!K> = (K, Command) -> Outcome<K>

  /** The state after commands executed one by one up to the first failing one, and how many succeeded. */
  ghost function Exec<K>(kern: Executor<K>, k: K, cs: seq<Command>): (r: (K, nat))
    ensures r.1 <= |cs|
  {
    if cs == [] then (k, 0)
    else
      match kern(k, cs[0])
      case Failed(k') => (k', 0)
      case Done(k') => var r := Exec(kern, k', cs[1..]); (r.0, r.1 + 1)
  }

  lemma {:induction false} ExecConcat<K>(kern: Executor<K>, k: K, a: seq<Command>, b: seq<Command>)
    ensures var ra := Exec(kern, k, a);
            var rb := Exec(kern, ra.0, b);
            Exec(kern, k, a + b) == if ra.1 == |a| then (rb.0, |a| + rb.1) else ra
    decreases |a|
  {
    if a == [] {
      assert a + b == b;
    } else {
      assert (a + b)[1..] == a[1..] + b;
      match kern(k, a[0])
      case Done(k') => ExecConcat(kern, k', a[1..], b);
      case Failed(_) =>
    }
  }

  // ---------------------------------------------------------------- which commands share a message

  /** A line of a restore stream. */
  datatype Line = Run(c: Command) | Commit

  /** The message being collected, of n commands: its flag is fixed when its header is written. */
  datatype Collecting = Nothing | Collecting(kind: Kind, setname: string, exist: bool, len: nat, n: nat)

  /** The command as a message carries it. */
  function Seen(c: Command, exist: bool): Command {
    Command(c.kind, c.setname, if c.kind.PlainCmd? then map[] else c.attrs,
            if c.kind.PlainCmd? || c.kind.TestCmd? then 0 else c.lineno, exist)
  }

  /** Restore-mode adds and deletes are collected; every other command is sent at once. */
  predicate Collects(c: Command) {
    c.lineno != 0 && (c.kind.AddCmd? || c.kind.DelCmd?)
  }

  function LeadSize(setname: string): nat {
    20 + 8 + MNL_ATTR_HDRLEN + Align(|setname| + 1) + 8 + MNL_ATTR_HDRLEN
  }

  function ItemSize(e: Element): nat {
    MNL_ATTR_HDRLEN + Size(AttrToks(e, 1)) + 8
  }

  predicate Joins(bufsize: nat, o: Collecting, c: Command)
    requires CommandOk(c)
  {
    o.Collecting? && Collects(c) && c.kind == o.kind && c.setname == o.setname && ItemFits(bufsize, o.len, c.attrs)
  }

  function After(bufsize: nat, o: Collecting, c: Command, env: bool): Collecting
    requires CommandOk(c)
  {
    if Joins(bufsize, o, c) then o.(len := o.len + ItemSize(c.attrs), n := o.n + 1)
    else if Collects(c) then Collecting(c.kind, c.setname, env, LeadSize(c.setname) + ItemSize(c.attrs), 1)
    else Nothing
  }

  function Flag(bufsize: nat, o: Collecting, c: Command, env: bool): bool
    requires CommandOk(c)
  {
    if Joins(bufsize, o, c) then o.exist else env
  }

  predicate LinesOk(lines: seq<Line>) {
    forall k :: 0 <= k < |lines| ==> LineOk(lines[k])
  }

  predicate LineOk(l: Line) {
    l.Run? ==> CommandOk(l.c)
  }

  /** What is being collected after a line, and whether -exist has been given. */
  function Next(bufsize: nat, l: Line, o: Collecting, env: bool): (Collecting, bool)
    requires LineOk(l)
  {
    match l
    case Commit => (Nothing, env)
    case Run(c) => (After(bufsize, o, c, env || c.exist), env || c.exist)
  }

  /** The commands of a stream as their messages carry them. env: was -exist given so far? */
  function Sent(bufsize: nat, lines: seq<Line>, o: Collecting, env: bool): seq<Command>
    requires LinesOk(lines)
  {
    if lines == [] then []
    else
      var s := Next(bufsize, lines[0], o, env);
      (if lines[0].Run? then [Seen(lines[0].c, Flag(bufsize, o, lines[0].c, s.1))] else [])
        + Sent(bufsize, lines[1..], s.0, s.1)
  }

  /** The commands as they would be sent each in a message of its own. */
  function OneByOne(lines: seq<Line>, env: bool): seq<Command> {
    if lines == [] then []
    else
      var env' := env || (lines[0].Run? && lines[0].c.exist);
      (if lines[0].Run? then [Seen(lines[0].c, env')] else []) + OneByOne(lines[1..], env')
  }

  function LineNumbers(lines: seq<Line>): seq<nat> {
    if lines == [] then []
    else (if lines[0].Run? then [lines[0].c.lineno] else []) + LineNumbers(lines[1..])
  }

  lemma {:induction false} SentCount(bufsize: nat, lines: seq<Line>, o: Collecting, env: bool)
    requires LinesOk(lines)
    ensures |Sent(bufsize, lines, o, env)| == |LineNumbers(lines)| == |OneByOne(lines, env)|
  {
    if lines != [] {
      var s := Next(bufsize, lines[0], o, env);
      SentCount(bufsize, lines[1..], s.0, s.1);
    }
  }

  // ---------------------------------------------------------------- when collecting changes no flag

  /** The message being collected before line i, and whether -exist was given by then. */
  function Before(bufsize: nat, lines: seq<Line>, i: nat, o: Collecting, env: bool): (Collecting, bool)
    requires LinesOk(lines) && i <= |lines|
  {
    if i == 0 then (o, env)
    else
      var s := Next(bufsize, lines[0], o, env);
      Before(bufsize, lines[1..], i - 1, s.0, s.1)
  }

  /** Line i is the first to carry -exist, and goes into a message begun before it. */
  predicate LateExist(bufsize: nat, lines: seq<Line>, i: nat, o: Collecting, env: bool)
    requires LinesOk(lines) && i < |lines|
  {
    var s := Before(bufsize, lines, i, o, env);
    lines[i].Run? && lines[i].c.exist && !s.1 && Joins(bufsize, s.0, lines[i].c)
  }

  predicate NoLateExist(bufsize: nat, lines: seq<Line>, o: Collecting, env: bool)
    requires LinesOk(lines)
  {
    forall i :: 0 <= i < |lines| ==> !LateExist(bufsize, lines, i, o, env)
  }

  lemma LateShift(bufsize: nat, lines: seq<Line>, o: Collecting, env: bool)
    requires LinesOk(lines) && lines != []
    ensures var s := Next(bufsize, lines[0], o, env);
            NoLateExist(bufsize, lines, o, env) <==>
            !LateExist(bufsize, lines, 0, o, env) && NoLateExist(bufsize, lines[1..], s.0, s.1)
  {
    hide Joins, Next;
    var s := Next(bufsize, lines[0], o, env);
    assert NoLateExist(bufsize, lines, o, env) ==> NoLateExist(bufsize, lines[1..], s.0, s.1) by {
      forall j | 0 <= j < |lines| - 1
        ensures LateExist(bufsize, lines, j + 1, o, env) <==> LateExist(bufsize, lines[1..], j, s.0, s.1)
      {
        assert lines[1..][j] == lines[j + 1];
      }
    }
    forall i | 0 < i < |lines|
      ensures LateExist(bufsize, lines, i, o, env) <==> LateExist(bufsize, lines[1..], i - 1, s.0, s.1)
    {
      assert lines[1..][i - 1] == lines[i];
    }
  }

  /** Collecting changes what the kernel is asked exactly when the first line with -exist joins a message that
      was begun without it. */
  lemma {:induction false} SentIsOneByOneIff(bufsize: nat, lines: seq<Line>, o: Collecting, env: bool)
    requires LinesOk(lines) && (o.Collecting? ==> o.exist == env)
    ensures Sent(bufsize, lines, o, env) == OneByOne(lines, env) <==> NoLateExist(bufsize, lines, o, env)
    decreases |lines|
  {
    if lines != [] {
      hide *;
      var s := Next(bufsize, lines[0], o, env);
      LateShift(bufsize, lines, o, env);
      SentStep(bufsize, lines, o, env);
      if !LateExist(bufsize, lines, 0, o, env) {
        SentIsOneByOneIff(bufsize, lines[1..], s.0, s.1);
      }
    } else {
      assert Sent(bufsize, lines, o, env) == OneByOne(lines, env);
    }
  }

  /** One line: is its command sent with its own flag, and does it leave the message with the flag of the time? */
  lemma SentStep(bufsize: nat, lines: seq<Line>, o: Collecting, env: bool)
    requires LinesOk(lines) && lines != [] && (o.Collecting? ==> o.exist == env)
    ensures LinesOk(lines[1..])
    ensures var s := Next(bufsize, lines[0], o, env);
            var late := LateExist(bufsize, lines, 0, o, env);
            && (!late && s.0.Collecting? ==> s.0.exist == s.1)
            && (Sent(bufsize, lines, o, env) == OneByOne(lines, env) <==>
                !late && Sent(bufsize, lines[1..], s.0, s.1) == OneByOne(lines[1..], s.1))
  {
    var s := Next(bufsize, lines[0], o, env);
    var xs, ys := Sent(bufsize, lines[1..], s.0, s.1), OneByOne(lines[1..], s.1);
    FlagStep(bufsize, lines, o, env);
    if lines[0].Run? {
      var x, y := Seen(lines[0].c, Flag(bufsize, o, lines[0].c, s.1)), Seen(lines[0].c, s.1);
      assert Sent(bufsize, lines, o, env) == [x] + xs && OneByOne(lines, env) == [y] + ys;
      hide *;
      ConsEqual(x, xs, y, ys);
    } else {
      assert Sent(bufsize, lines, o, env) == [] + xs == xs && OneByOne(lines, env) == [] + ys == ys;
    }
  }

  lemma FlagStep(bufsize: nat, lines: seq<Line>, o: Collecting, env: bool)
    requires LinesOk(lines) && lines != [] && (o.Collecting? ==> o.exist == env)
    ensures var s := Next(bufsize, lines[0], o, env);
            var late := LateExist(bufsize, lines, 0, o, env);
            && (!late && s.0.Collecting? ==> s.0.exist == s.1)
            && s.1 == (env || (lines[0].Run? && lines[0].c.exist))
            && (late ==> lines[0].Run?)
            && (lines[0].Run? ==>
                  (late <==> Seen(lines[0].c, Flag(bufsize, o, lines[0].c, s.1)) != Seen(lines[0].c, s.1)))
  {
    if lines[0].Run? {
      assert Joins(bufsize, o, lines[0].c) ==> o.Collecting?;
      hide Joins;
    }
  }

  lemma ConsEqual<T>(x: T, xs: seq<T>, y: T, ys: seq<T>)
    ensures [x] + xs == [y] + ys <==> x == y && xs == ys
  {
    assert ([x] + xs)[1..] == xs && ([y] + ys)[1..] == ys && ([x] + xs)[0] == x && ([y] + ys)[0] == y;
  }

  // ---------------------------------------------------------------- the session

  /** The message that starts with command c. */
  function NewBatch(c: Command, exist: bool): Batch {
    Batch(c.kind, exist, c.setname, if Collects(c) then c.lineno else 0,
          [Item(if c.kind.PlainCmd? then map[] else c.attrs,
                if c.kind.PlainCmd? || c.kind.TestCmd? then 0 else c.lineno)])
  }

  function Extended(b: Batch, c: Command): Batch {
    b.(items := b.items + [Item(c.attrs, c.lineno)])
  }

  ghost function PendingIn(buffer: seq<Tok>, b: Batch): seq<Command> {
    if buffer == [] then [] else Unpack(b)
  }

  ghost function NowOf(buffer: seq<Tok>, b: Batch): Collecting {
    if buffer == [] then Nothing else Collecting(b.kind, b.setname, b.exist, Size(buffer), |b.items|)
  }

  lemma JoinsIs(bufsize: nat, buffer: seq<Tok>, b: Batch, c: Command)
    requires CommandOk(c)
    ensures Joins(bufsize, NowOf(buffer, b), c) <==>
            Collects(c) && buffer != [] && c.kind == b.kind && c.setname == b.setname
              && ItemFits(bufsize, Size(buffer), c.attrs)
  {
  }

  /** What is being collected once c has gone into the message in the buffer or into a new one. */
  lemma NowAfter(bufsize: nat, buf0: seq<Tok>, b0: Batch, c: Command, env: bool, joined: bool, buffer: seq<Tok>,
                 b: Batch)
    requires CommandOk(c) && (joined <==> Joins(bufsize, NowOf(buf0, b0), c))
    requires buffer != [] && b == if joined then Extended(b0, c) else NewBatch(c, env)
    requires Collects(c) ==> Size(buffer) == (if joined then Size(buf0) else LeadSize(c.setname)) + ItemSize(c.attrs)
    ensures After(bufsize, NowOf(buf0, b0), c, env) == if Collects(c) then NowOf(buffer, b) else Nothing
    ensures Flag(bufsize, NowOf(buf0, b0), c, env) == if joined then b0.exist else env
  {
    hide Size, LeadSize, ItemSize, ItemFits, ElementOk;
  }

  /** The buffer holds a message, complete but for the end of its outer nest. */
  ghost predicate Holds(buffer: seq<Tok>, nested: seq<nat>, b: Batch) {
    if buffer == [] then nested == []
    else BatchOk(b) && buffer == OpenForm(b) && nested == if b.lineno != 0 then [4] else []
  }

  /** The line numbers of the commands in the message stand behind those of the n commands before. */
  ghost predicate Numbered(numbers: seq<nat>, n: nat, pending: seq<Command>, b: Batch, lineno: nat) {
    && |numbers| == n + |pending|
    && (pending != [] ==> |pending| == |b.items|)
    && forall k :: n <= k < n + |pending| ==> numbers[k] == if b.lineno != 0 then b.items[k - n].lineno else lineno
  }

  class DsetSession<K> {
    const bufsize: nat
    const kern: Executor<K>
    var kernel: K
    var cmd: Kind
    var lineno: nat
    var savedSetname: string
    var exist: bool                 // the -exist option, once given
    var buffer: seq<Tok>
    var nested: seq<nat>            // where the open nests start
    ghost var batch: Batch          // the message in the buffer
    ghost const start: K
    ghost var run: seq<Command>     // commands the kernel has accepted
    ghost var numbers: seq<nat>     // line numbers of those and of the collected ones

    ghost function Pending(): seq<Command>
      reads this
    {
      PendingIn(buffer, batch)
    }

    ghost function Now(): Collecting
      reads this
    {
      NowOf(buffer, batch)
    }

    ghost predicate Holding()
      reads this
    {
      Holds(buffer, nested, batch)
    }

    ghost predicate Ran()
      reads this
    {
      && Exec(kern, start, run) == (kernel, |run|)
      && Numbered(numbers, |run|, Pending(), batch, lineno)
    }

    /** Between commands: what is collected are restore-mode adds or deletes of one set, within the buffer. */
    ghost predicate Valid()
      reads this
    {
      && PAGE_SIZE <= bufsize && Holding() && Ran()
      && if buffer == [] then savedSetname == ""
         else batch.lineno != 0 && cmd == batch.kind && savedSetname == batch.setname != "" && Size(buffer) <= bufsize
    }

    constructor (bufsize: nat, kern: Executor<K>, kernel: K, exist: bool)
      requires PAGE_SIZE <= bufsize
      ensures Valid() && buffer == [] && run == [] && numbers == []
      ensures this.bufsize == bufsize && this.kern == kern && this.kernel == kernel == start && this.exist == exist
    {
      this.bufsize, this.kern, this.kernel, this.exist := bufsize, kern, kernel, exist;
      cmd, lineno, savedSetname, buffer, nested := PlainCmd(0), 0, "", [], [];
      batch, start, run, numbers := Batch(PlainCmd(0), false, "", 0, []), kernel, [], [];
    }

    /** The kernel executes a message; whole says that it refuses all of it, at its first command (there is no such
        set). */
    method Query(b: Batch) returns (done: nat, whole: bool)
      modifies this`kernel
      ensures (kernel, done) == Exec(kern, old(kernel), Unpack(b)) && (whole ==> done == 0)
    {
      ghost var cs := Unpack(b);
      done, whole := 0, false;
      assert cs[0..] == cs;
      while done < |b.items|
        invariant done <= |b.items|
        invariant var r := Exec(kern, kernel, cs[done..]); Exec(kern, old(kernel), cs) == (r.0, done + r.1)
      {
        assert cs[done..][1..] == cs[done + 1..];
        var outcome := kern(kernel, Command(b.kind, b.setname, b.items[done].attrs, b.items[done].lineno, b.exist));
        kernel := outcome.state;
        if outcome.Failed? {
          whole := *;
          whole := whole && done == 0;
          return;
        }
        done := done + 1;
      }
    }

    method CloseNested()
      requires nested != []
      modifies this`buffer, this`nested
      ensures buffer == old(buffer) + [Close] && nested == old(nested[..|nested| - 1])
    {
      buffer := buffer + [Close];
      nested := nested[..|nested| - 1];
    }

    method OpenNested(adt: bool) returns (full: bool)
      modifies this`buffer, this`nested
      ensures full <==> Size(old(buffer)) + MNL_ATTR_HDRLEN > bufsize
      ensures full ==> buffer == old(buffer) && nested == old(nested)
      ensures !full ==> buffer == old(buffer) + [Open(adt)] && nested == old(nested) + [|old(buffer)|]
    {
      if Size(buffer) + MNL_ATTR_HDRLEN > bufsize {
        return true;
      }
      nested := nested + [|buffer|];
      buffer := buffer + [Open(adt)];
      return false;
    }

    /** Take back the attribute nest opened last. */
    method CancelNested()
      requires nested != [] && nested[|nested| - 1] <= |buffer|
      modifies this`buffer, this`nested
      ensures buffer == old(buffer[..nested[|nested| - 1]]) && nested == old(nested[..|nested| - 1])
    {
      buffer := buffer[..nested[|nested| - 1]];
      nested := nested[..|nested| - 1];
    }

    /** Put an attribute of at most max bytes; the message never grows past the buffer. */
    method PutAttr(t: Tok, max: nat) returns (full: bool)
      requires TokSize(t) <= MNL_ATTR_HDRLEN + Align(max)
      modifies this`buffer
      ensures full <==> BufferFull(bufsize, Size(old(buffer)), max)
      ensures buffer == if full then old(buffer) else old(buffer) + [t]
      ensures !full ==> Size(buffer) == Size(old(buffer)) + TokSize(t) && Size(buffer) + NLMSGERR_SIZE <= bufsize
    {
      SizeAppend(buffer, t);
      if BufferFull(bufsize, Size(buffer), max) {
        return true;
      }
      buffer := buffer + [t];
      return false;
    }

    /** The attributes of an element in the order of their types. */
    method AddAttrs(e: Element) returns (full: bool)
      requires ElementOk(e)
      modifies this`buffer
      ensures full <==> !AttrsFit(bufsize, Size(old(buffer)), e, 1)
      ensures !full ==> buffer == old(buffer) + AttrToks(e, 1)
      ensures full ==> old(buffer) <= buffer
      ensures Size(old(buffer)) <= bufsize ==> Size(buffer) <= bufsize
    {
      hide *;
      var i: nat := 1;
      while i <= ADT_MAX
        invariant 1 <= i <= ADT_MAX + 1
        invariant buffer + AttrToks(e, i) == old(buffer) + AttrToks(e, 1) && old(buffer) <= buffer
        invariant AttrsFit(bufsize, Size(buffer), e, i) <==> AttrsFit(bufsize, Size(old(buffer)), e, 1)
        invariant Size(old(buffer)) <= bufsize ==> Size(buffer) <= bufsize
      {
        AttrStep(bufsize, buffer, e, i);
        if i in e {
          full := PutAttr(Attr(i, e[i]), AdtMax(i));
          if full {
            return;
          }
        }
        i := i + 1;
      }
      AttrEnd(bufsize, Size(buffer), e);
      assert buffer + [] == buffer;
      full := false;
    }

    /** One more item of an add or delete, all of it or none. */
    method AddItem(e: Element) returns (full: bool)
      requires ElementOk(e)
      modifies this`buffer, this`nested
      ensures nested == old(nested)
      ensures full <==> !ItemFits(bufsize, Size(old(buffer)), e)
      ensures buffer == if full then old(buffer) else old(buffer) + ItemToks(AddCmd, Item(e, lineno))
      ensures !full ==> Size(buffer) == Size(old(buffer)) + ItemSize(e) && Size(buffer) + NLMSGERR_SIZE <= bufsize
    {
      hide AttrsFit, Size, AttrToks, BufferFull, ElementOk;
      ghost var b0, n0 := buffer, nested;
      ItemSteps(bufsize, b0, e, lineno);
      full := OpenNested(false);
      if full {
        return;
      }
      full := AddAttrs(e);
      if !full {
        full := PutAttr(Lineno(lineno), 4);
      }
      if full {
        assert buffer[..|b0|] == (b0 + [Open(false)])[..|b0|] == b0;
        CancelNested();
        assert nested == n0;
        return;
      }
      CloseNested();
      assert nested == n0;
    }

    /** Build the message of command c in the empty buffer, or add c to the message in it. Only the latter can find
        the buffer full, and then leaves it as it was. */
    method BuildMsg(c: Command, aggregate: bool) returns (full: bool)
      requires CommandOk(c) && PAGE_SIZE <= bufsize && cmd == c.kind && lineno == c.lineno && Holding()
      requires buffer != [] ==>
                aggregate && Collects(c) && batch.lineno != 0 && batch.kind == c.kind &&
                batch.setname == c.setname
      modifies this`buffer, this`nested, this`batch
      ensures Holding() && buffer != []
      ensures old(buffer) == [] ==> !full && batch == NewBatch(c, exist) && Size(buffer) <= bufsize
      ensures old(buffer) == [] && Collects(c) ==> Size(buffer) == LeadSize(c.setname) + ItemSize(c.attrs)
      ensures old(buffer) != [] ==> (full <==> !ItemFits(bufsize, Size(old(buffer)), c.attrs))
      ensures full ==> buffer == old(buffer) && batch == old(batch)
      ensures old(buffer) != [] && !full ==>
                batch == Extended(old(batch), c) && Size(buffer) == Size(old(buffer)) + ItemSize(c.attrs) <= bufsize
    {
      hide AttrsFit, AttrToks, BufferFull, ElementOk, ItemFits, Size, BatchOk, OpenForm, AdtMax;
      CommitStart(buffer, nested, batch);
      if Size(buffer) == 0 {
        StartMsg(c);
        batch := NewBatch(c, exist);
        full := false;
      } else {
        ExtendedForm(batch, c);
        full := AddItem(c.attrs);
        if !full {
          batch := Extended(batch, c);
        }
      }
    }

    /** A new message. */
    method StartMsg(c: Command)
      requires CommandOk(c) && PAGE_SIZE <= bufsize && cmd == c.kind && lineno == c.lineno && buffer == [] &&
               nested == []
      modifies this`buffer, this`nested
      ensures Holds(buffer, nested, NewBatch(c, exist)) && buffer != [] && Size(buffer) <= bufsize
      ensures Collects(c) ==> Size(buffer) == LeadSize(c.setname) + ItemSize(c.attrs)
    {
      hide AttrsFit, AttrToks, ElementOk, ItemFits, Size, BatchOk, OpenForm, AdtMax, LeadSize, ItemSize, TestForm,
           FirstItemForm, ItemsLead, Lead, ItemToks, ItemsToks;
      LeadSizes(c, exist);
      NewForm(c, exist);
      buffer := [Header(cmd, exist), Protocol];
      var _ := PutAttr(SetName(c.setname), SETNAME_SIZE);
      assert buffer == NewLead(c, exist);
      hide NewLead, BufferFull, TokSize, Align;
      match cmd
      case PlainCmd(_) =>
      case TestCmd => StartTest(c);
      case _ => StartItems(c);
    }

    /** The element of a test; what does not fit would be left out. */
    method StartTest(c: Command)
      requires CommandOk(c) && PAGE_SIZE <= bufsize && buffer == NewLead(c, exist) && nested == []
      modifies this`buffer, this`nested
      ensures buffer == TestForm(c, exist) != [] && nested == [] && Size(buffer) <= bufsize
    {
      LeadSizes(c, exist);
      LeadSteps(bufsize, c, exist);
      hide AttrsFit, AttrToks, ElementOk, ItemFits, Size;
      var _ := OpenNested(false);
      var _ := AddAttrs(c.attrs);
      CloseNested();
    }

    /** In restore mode the line number and the outer nest, and then the first item. */
    method StartItems(c: Command)
      requires CommandOk(c) && PAGE_SIZE <= bufsize && buffer == NewLead(c, exist) && nested == [] && lineno == c.lineno
      modifies this`buffer, this`nested
      ensures buffer == FirstItemForm(c, exist) != []
      ensures nested == (if lineno != 0 then [4] else []) && Size(buffer) <= bufsize
      ensures lineno != 0 ==> Size(buffer) == LeadSize(c.setname) + ItemSize(c.attrs)
    {
      LeadSizes(c, exist);
      LeadSteps(bufsize, c, exist);
      hide AttrsFit, AttrToks, ElementOk, ItemFits, Size, LeadSize, ItemSize, ItemToks;
      if lineno != 0 {
        var _ := PutAttr(Lineno(lineno), 4);
        var _ := OpenNested(true);
      }
      var _ := AddItem(c.attrs);
    }

    /** Send what is collected. An error comes with the line number of the command that failed. */
    method Commit() returns (err: Option<nat>)
      requires Holding() && Ran() && (buffer == [] ==> savedSetname == "")
      modifies this`buffer, this`nested, this`savedSetname, this`kernel, this`lineno, this`run
      ensures buffer == [] && nested == [] && savedSetname == ""
      ensures err.None? ==> run == old(run + Pending()) && Ran() && lineno == old(lineno)
      ensures err.Some? ==> StoppedAt(kern, start, old(run + Pending()), numbers, kernel, err.value)
    {
      hide Exec, Numbered, Holds, PendingIn, Unpack, Wire, Read, Size, StoppedAt;
      ghost var b, all := batch, run + Pending();
      CommitStart(buffer, nested, b);
      if Size(buffer) == 0 {
        assert all == run;
        return None;
      }
      while nested != []
        invariant buffer + (if nested == [] then [] else [Close]) == Wire(b) && |nested| <= 1
        decreases |nested|
        modifies this`buffer, this`nested
      {
        CloseNested();
      }
      assert buffer == Wire(b);
      var message := Read(buffer).value;
      var done, whole := Query(message);
      CommitEnd(kern, start, run, old(kernel), numbers, b, lineno, kernel, done);
      savedSetname := "";
      nested := [];
      buffer := [];
      if done < |message.items| {
        if message.lineno != 0 {
          // from the error report: the failing command's, or for a whole message the one in its header
          lineno := if whole then message.lineno else message.items[done].lineno;
        }
        return Some(lineno);
      }
      run := all;
      CommitStart(buffer, nested, b);
      return None;
    }

    /** Put a command into a message: into the one in the buffer if it goes in, else into a new one. */
    method AddToMessage(c: Command, aggregate: bool) returns (err: Option<nat>)
      requires CommandOk(c) && PAGE_SIZE <= bufsize && cmd == c.kind && lineno == c.lineno && Holding() && Ran()
      requires if aggregate
               then Collects(c) && buffer != [] && batch.lineno != 0 && batch.kind == c.kind &&
                    batch.setname == c.setname
               else buffer == []
      requires buffer == [] ==> savedSetname == ""
      modifies this`buffer, this`nested, this`savedSetname, this`kernel, this`lineno, this`run, this`batch, this`numbers
      ensures err.None? ==>
                Holding() && Ran() && buffer != [] && lineno == c.lineno &&
                numbers == old(numbers) + [c.lineno]
      ensures err.None? ==>
                var joined := old(buffer) != [] && ItemFits(bufsize, Size(old(buffer)), c.attrs);
                && batch == (if joined then Extended(old(batch), c) else NewBatch(c, exist))
                && (Collects(c) ==>
                      Size(buffer) == (if joined then Size(old(buffer)) else LeadSize(c.setname)) + ItemSize(c.attrs))
                && Size(buffer) <= bufsize
                && run + Pending() == old(run + Pending()) + [Seen(c, if joined then old(batch).exist else exist)]
      ensures err.Some? ==> StoppedAt(kern, start, old(run + Pending()), old(numbers), kernel, err.value)
      ensures err.Some? ==> !(old(buffer) != [] && ItemFits(bufsize, Size(old(buffer)), c.attrs))
    {
      hide Exec, StoppedAt, Numbered, Holds, Size, ItemFits, ElementOk, Unpack, NewBatch, Extended, Seen, LeadSize,
           ItemSize, OpenForm, BatchOk;
      ghost var b0, l0, r0 := batch, lineno, run;
      err := None;
      var full := BuildMsg(c, aggregate);
      if !full && aggregate {
        NumberedExtended(numbers, |run|, b0, l0, c, lineno);
        assert r0 + (Unpack(b0) + [Seen(c, b0.exist)]) == (r0 + Unpack(b0)) + [Seen(c, b0.exist)];
      } else {
        if full {
          err := Commit();
          if err.Some? {
            return;
          }
          HoldsNothing(b0);
          full := BuildMsg(c, false);
        }
        NumberedNew(numbers, |run|, [], b0, lineno, c, exist);
      }
      numbers := numbers + [c.lineno];
    }

    /** May command c be collected with what is in the buffer? If not, that is sent first. */
    method MayAggregate(c: Command) returns (aggregate: bool, err: Option<nat>)
      requires Valid() && CommandOk(c)
      modifies this`buffer, this`nested, this`savedSetname, this`kernel, this`lineno, this`run
      ensures aggregate <==> Collects(c) && old(buffer) != [] && c.kind == old(cmd) && c.setname == old(savedSetname)
      ensures aggregate ==>
                err.None? && buffer == old(buffer) && nested == old(nested) && run == old(run) &&
                savedSetname == old(savedSetname)
      ensures !aggregate && err.None? ==> buffer == [] && nested == [] && savedSetname == ""
      ensures err.None? ==> Holding() && Ran() && run + Pending() == old(run + Pending())
      ensures err.Some? ==> StoppedAt(kern, start, old(run + Pending()), numbers, kernel, err.value)
    {
      hide Exec, StoppedAt, Numbered, Holds, Size, ItemFits, ElementOk, Unpack, OpenForm, BatchOk;
      ghost var all := run + Pending();
      NumberedAlike(numbers, |run|, batch, lineno, Pending(), c.lineno);
      lineno := c.lineno;
      HoldsEmptily(buffer, nested, batch);
      aggregate := lineno != 0 && (c.kind.AddCmd? || c.kind.DelCmd?) && c.kind == cmd && c.setname == savedSetname;
      err := None;
      if !aggregate {
        err := Commit();
        HoldsNothing(batch);
        assert all + [] == all;
      }
    }

    /** Put the command into a message: the one being collected or, once that is sent, a new one. */
    method Collect(c: Command) returns (err: Option<nat>)
      requires Valid() && CommandOk(c)
      modifies this
      ensures exist == (old(exist) || c.exist)
      ensures err.None? ==> Holding() && Ran() && buffer != [] && cmd == c.kind && lineno == c.lineno
      ensures err.None? ==> After(bufsize, old(Now()), c, exist) == if Collects(c) then Now() else Nothing
      ensures err.None? && Collects(c) ==>
                batch.lineno != 0 && batch.kind == c.kind && batch.setname == c.setname && Size(buffer) <= bufsize
      ensures err.None? ==> run + Pending() == old(run + Pending()) + [Seen(c, Flag(bufsize, old(Now()), c, exist))]
      ensures err.None? ==> numbers == old(numbers) + [c.lineno]
      ensures err.Some? ==>
                StoppedAt(kern, start, old(run + Pending()) + [Seen(c, Flag(bufsize, old(Now()), c, exist))],
                          old(numbers) + [c.lineno], kernel, err.value)
      ensures err.Some? ==>
                FailsBefore(kern, start, old(run + Pending()) + [Seen(c, Flag(bufsize, old(Now()), c, exist))],
                            Count(After(bufsize, old(Now()), c, exist)))
    {
      hide Exec, StoppedAt, Numbered, Holds, Size, ItemFits, ElementOk, Unpack, Seen, LeadSize, ItemSize, OpenForm,
           BatchOk, PendingIn, Joins, After, Flag, FailsBefore, Count;
      UnjoinedCount(bufsize, Now(), c, exist || c.exist);
      ghost var buf0, b0 := buffer, batch;
      JoinsIs(bufsize, buf0, b0, c);
      ghost var all, nums, x := run + Pending(), numbers, Seen(c, Flag(bufsize, Now(), c, exist || c.exist));
      exist := exist || c.exist;
      var aggregate;
      aggregate, err := MayAggregate(c);
      if err.Some? {
        StoppedEarlier(kern, start, all, nums, kernel, err.value, [x], [c.lineno]);
        StoppedInside(kern, start, all, nums, kernel, err.value);
        FailsEarlier(kern, start, all, 0, [x], Count(After(bufsize, NowOf(buf0, b0), c, exist)));
        return;
      }
      NothingPending(buffer, batch);
      NumberedAlike(numbers, |run|, batch, lineno, Pending(), c.lineno);
      cmd := c.kind;
      lineno := c.lineno;
      err := AddToMessage(c, aggregate);
      if err.Some? {
        StoppedEarlier(kern, start, all, nums, kernel, err.value, [x], [c.lineno]);
        StoppedInside(kern, start, all, nums, kernel, err.value);
        FailsEarlier(kern, start, all, 0, [x], Count(After(bufsize, NowOf(buf0, b0), c, exist)));
        return;
      }
      NowAfter(bufsize, buf0, b0, c, exist, aggregate && ItemFits(bufsize, Size(buf0), c.attrs), buffer, batch);
    }

    /** Execute a command, or collect it in restore mode. The options on its line are in force from then on. */
    method DsetCmd(c: Command) returns (err: Option<nat>)
      requires Valid() && CommandOk(c)
      modifies this
      ensures exist == (old(exist) || c.exist)
      ensures err.None? ==> Valid() && Now() == After(bufsize, old(Now()), c, exist)
      ensures err.None? ==> run + Pending() == old(run + Pending()) + [Seen(c, Flag(bufsize, old(Now()), c, exist))]
      ensures err.None? ==> numbers == old(numbers) + [c.lineno]
      ensures err.Some? ==>
                StoppedAt(kern, start, old(run + Pending()) + [Seen(c, Flag(bufsize, old(Now()), c, exist))],
                          old(numbers) + [c.lineno], kernel, err.value)
      ensures err.Some? ==>
                FailsBefore(kern, start, old(run + Pending()) + [Seen(c, Flag(bufsize, old(Now()), c, exist))],
                            Count(After(bufsize, old(Now()), c, exist)))
    {
      hide Exec, StoppedAt, Numbered, Holds, Size, ItemFits, ElementOk, Unpack, Seen, LeadSize, ItemSize, OpenForm,
           BatchOk, PendingIn, Joins, After, Flag, FailsBefore;
      err := Collect(c);
      if err.Some? {
        return;
      }
      if lineno != 0 && (c.kind.AddCmd? || c.kind.DelCmd?) {
        savedSetname := c.setname;
        return None;
      }
      ghost var all := run + Pending();
      err := Commit();
      HoldsNothing(batch);
      NothingPending(buffer, batch);
      assert all + [] == all;
      if err.Some? {
        StoppedInside(kern, start, all, numbers, kernel, err.value);
      }
    }

    method RestoreLine(l: Line) returns (err: Option<nat>)
      requires Valid() && LineOk(l)
      modifies this
      ensures err.None? ==> Valid() && (Now(), exist) == Next(bufsize, l, old(Now()), old(exist))
      ensures err.None? ==> run + Pending() == old(run + Pending()) + Added(bufsize, l, old(Now()), old(exist))
      ensures err.None? ==> numbers == old(numbers) + NumberOf(l)
      ensures err.Some? ==>
                StoppedAt(kern, start, old(run + Pending()) + Added(bufsize, l, old(Now()), old(exist)),
                          old(numbers) + NumberOf(l), kernel, err.value)
      ensures err.Some? ==>
                FailsBefore(kern, start, old(run + Pending()) + Added(bufsize, l, old(Now()), old(exist)),
                            Count(Next(bufsize, l, old(Now()), old(exist)).0))
    {
      hide Exec, StoppedAt, Numbered, Holds, Size, ItemFits, ElementOk, Unpack, Seen, LeadSize, ItemSize, OpenForm,
           BatchOk, Joins, After, FailsBefore;
      ghost var all := run + Pending();
      HoldsNothing(batch);
      assert all + [] == all && numbers + [] == numbers;
      match l
      case Commit =>
        err := Commit();
        if err.Some? {
          StoppedInside(kern, start, all, numbers, kernel, err.value);
        }
      case Run(c) =>
        err := DsetCmd(c);
    }

    /** The stream up to its end, where the last message is sent. A line that does not parse ends the program. */
    method RestoreLines(lines: seq<Option<Line>>) returns (r: Ended)
      requires Valid() && LinesOk(Good(lines))
      modifies this
      ensures var all := old(run + Pending()) + Sent(bufsize, Good(lines), old(Now()), old(exist));
              var nums := old(numbers) + LineNumbers(Good(lines));
              var lost := Count(Before(bufsize, Good(lines), |Good(lines)|, old(Now()), old(exist)).0);
              match r
              case Finished => |Good(lines)| == |lines| && Exec(kern, start, all) == (kernel, |all|)
              case FailedAt(line) =>
                && StoppedAt(kern, start, all, nums, kernel, line)
                && (|Good(lines)| < |lines| ==> FailsBefore(kern, start, all, lost))
              case Unparsed => |Good(lines)| < |lines| && Lost(kern, start, all, kernel, lost)
    {
      hide *;
      ghost var all, nums := run + Pending() + Sent(bufsize, Good(lines), Now(), exist),
          numbers + LineNumbers(Good(lines));
      ghost var end := Before(bufsize, Good(lines), |Good(lines)|, Now(), exist);
      assert lines[0..] == lines;
      var i := 0;
      while i < |lines|
        invariant i <= |lines| && Valid() && LinesOk(Good(lines[i..])) && |Good(lines)| == i + |Good(lines[i..])|
        invariant run + Pending() + Sent(bufsize, Good(lines[i..]), Now(), exist) == all
        invariant numbers + LineNumbers(Good(lines[i..])) == nums
        invariant Before(bufsize, Good(lines[i..]), |Good(lines[i..])|, Now(), exist) == end
      {
        if lines[i].None? {
          StreamEnd(bufsize, Good(lines[i..]), run + Pending(), numbers, Now(), exist);
          PendingLost();
          return Unparsed;
        }
        StreamStep(bufsize, lines, i, run + Pending(), numbers, Now(), exist);
        ghost var l := lines[i].value;
        ghost var rest := Good(lines[i + 1..]);
        ghost var cs, ns, s := run + Pending() + Added(bufsize, l, Now(), exist), numbers + NumberOf(l),
                               Next(bufsize, l, Now(), exist);
        var err := RestoreLine(lines[i].value);
        if err.Some? {
          StoppedEarlier(kern, start, cs, ns, kernel, err.value, Sent(bufsize, rest, s.0, s.1), LineNumbers(rest));
          EndCount(bufsize, rest, s.0, s.1);
          FailsEarlier(kern, start, cs, Count(s.0), Sent(bufsize, rest, s.0, s.1), Count(end.0));
          return FailedAt(err.value);
        }
        i := i + 1;
      }
      StreamEnd(bufsize, Good(lines[i..]), run + Pending(), numbers, Now(), exist);
      ReadyToCommit();
      var err := Commit();
      if err.Some? {
        return FailedAt(err.value);
      }
      AllRun();
      r := Finished;
    }

    lemma AllRun()
      requires Ran()
      ensures Exec(kern, start, run) == (kernel, |run|)
    {
    }

    lemma ReadyToCommit()
      requires Valid()
      ensures Holding() && Ran() && (buffer == [] ==> savedSetname == "")
    {
    }

    /** What is still collected is all that has not been executed. */
    lemma PendingLost()
      requires Valid()
      ensures Lost(kern, start, run + Pending(), kernel, Count(Now()))
    {
      assert (run + Pending())[..|run|] == run;
    }

    /** A whole restore stream. The kernel has executed exactly the commands before the first failing one, in order,
        and the line reported is that command's. Each command carries the -exist flag of its message, which is its
        own unless the first line with -exist joins a message begun before it. If a line does not parse, the commands
        before it are executed except for those still being collected, which are lost. */
    method Restore(lines: seq<Option<Line>>) returns (r: Ended)
      requires Valid() && LinesOk(Good(lines)) && buffer == [] && run == [] && numbers == []
      modifies this
      ensures EndsAs(r, lines, Sent(bufsize, Good(lines), Nothing, old(exist)), old(exist))
      ensures NoLateExist(bufsize, Good(lines), Nothing, old(exist)) ==>
                EndsAs(r, lines, OneByOne(Good(lines), old(exist)), old(exist))
    {
      ghost var sent := Sent(bufsize, Good(lines), Nothing, exist);
      assert NoLateExist(bufsize, Good(lines), Nothing, exist) ==> sent == OneByOne(Good(lines), exist) by {
        SentIsOneByOneIff(bufsize, Good(lines), Nothing, exist);
      }
      assert Now() == Nothing && Pending() == [];
      hide Sent, OneByOne, NoLateExist, LineNumbers, Exec, StoppedAt, FailsBefore, Lost, Count, Before, Good, LinesOk,
           Holds, Numbered;
      assert [] + [] + sent == sent && [] + LineNumbers(Good(lines)) == LineNumbers(Good(lines));
      r := RestoreLines(lines);
      assert EndsAs(r, lines, sent, old(exist));
      hide EndsAs;
    }

    /** How a restore that sends the commands all ends. */
    ghost predicate EndsAs(r: Ended, lines: seq<Option<Line>>, all: seq<Command>, env: bool)
      requires LinesOk(Good(lines))
      reads this
    {
      match r
      case Finished => |Good(lines)| == |lines| && Exec(kern, start, all) == (kernel, |all|)
      case FailedAt(line) =>
        && StoppedAt(kern, start, all, LineNumbers(Good(lines)), kernel, line)
        && (|Good(lines)| < |lines| ==>
              FailsBefore(kern, start, all, Count(Before(bufsize, Good(lines), |Good(lines)|, Nothing, env).0)))
      case Unparsed =>
        && |Good(lines)| < |lines|
        && Lost(kern, start, all, kernel, Count(Before(bufsize, Good(lines), |Good(lines)|, Nothing, env).0))
    }
  }

  /** How a restore ends: at the end of the stream, with the line of a failing command, or at a line that does not
      parse. */
  datatype Ended = Finished | FailedAt(line: nat) | Unparsed

  /** The lines before the first that does not parse. */
  function Good(lines: seq<Option<Line>>): (r: seq<Line>)
    ensures |r| <= |lines|
    ensures |r| < |lines| ==> lines[|r|].None?
    ensures forall k :: 0 <= k < |r| ==> lines[k] == Some(r[k])
  {
    if lines == [] || lines[0].None? then [] else [lines[0].value] + Good(lines[1..])
  }

  /** How many commands are being collected. */
  function Count(o: Collecting): nat {
    if o.Collecting? then o.n else 0
  }

  /** The kernel has executed the commands cs but for the last n. */
  ghost predicate Lost<K>(kern: Executor<K>, start: K, cs: seq<Command>, kernel: K, n: nat) {
    n <= |cs| && Exec(kern, start, cs[..|cs| - n]) == (kernel, |cs| - n)
  }

  /** What a line adds to the commands sent, and to their line numbers. */
  function Added(bufsize: nat, l: Line, o: Collecting, env: bool): seq<Command>
    requires LineOk(l)
  {
    if l.Run? then [Seen(l.c, Flag(bufsize, o, l.c, env || l.c.exist))] else []
  }

  function NumberOf(l: Line): seq<nat> {
    if l.Run? then [l.c.lineno] else []
  }

  /** The kernel stopped within the commands cs, and line is the line of the one that failed. */
  ghost predicate StoppedAt<K>(kern: Executor<K>, start: K, cs: seq<Command>, numbers: seq<nat>, kernel: K, line: nat) {
    var r := Exec(kern, start, cs);
    kernel == r.0 && r.1 < |cs| == |numbers| && line == numbers[r.1]
  }

  /** The command at which the kernel stops is not one of the last n. */
  ghost predicate FailsBefore<K>(kern: Executor<K>, start: K, cs: seq<Command>, n: nat) {
    Exec(kern, start, cs).1 + n < |cs|
  }

  lemma StoppedInside<K>(kern: Executor<K>, start: K, cs: seq<Command>, numbers: seq<nat>, kernel: K, line: nat)
    requires StoppedAt(kern, start, cs, numbers, kernel, line)
    ensures FailsBefore(kern, start, cs, 0)
  {
  }

  lemma FailsEarlier<K>(kern: Executor<K>, start: K, cs: seq<Command>, n: nat, more: seq<Command>, n': nat)
    requires FailsBefore(kern, start, cs, n) && n' <= n + |more|
    ensures FailsBefore(kern, start, cs + more, n')
  {
    ExecConcat(kern, start, cs, more);
  }

  /** Of a command that joins no message no more than itself is being collected. */
  lemma UnjoinedCount(bufsize: nat, o: Collecting, c: Command, env: bool)
    requires CommandOk(c)
    ensures !Joins(bufsize, o, c) ==> Count(After(bufsize, o, c, env)) <= 1
    ensures Count(After(bufsize, o, c, env)) <= Count(o) + 1
  {
  }

  /** At the end no more is being collected than before and the commands since. */
  lemma {:induction false} EndCount(bufsize: nat, lines: seq<Line>, o: Collecting, env: bool)
    requires LinesOk(lines)
    ensures Count(Before(bufsize, lines, |lines|, o, env).0) <= Count(o) + |Sent(bufsize, lines, o, env)|
    decreases |lines|
  {
    if lines != [] {
      var s := Next(bufsize, lines[0], o, env);
      EndCount(bufsize, lines[1..], s.0, s.1);
      if lines[0].Run? {
        UnjoinedCount(bufsize, o, lines[0].c, s.1);
      }
      hide Joins, After, Seen, Flag;
    }
  }

  lemma StoppedEarlier<K>(kern: Executor<K>, start: K, cs: seq<Command>, numbers: seq<nat>, kernel: K, line: nat,
                          more: seq<Command>, moreNumbers: seq<nat>)
    requires StoppedAt(kern, start, cs, numbers, kernel, line) && |more| == |moreNumbers|
    ensures StoppedAt(kern, start, cs + more, numbers + moreNumbers, kernel, line)
  {
    ExecConcat(kern, start, cs, more);
  }

  lemma NothingPending(buffer: seq<Tok>, b: Batch)
    ensures PendingIn([], b) == [] && (buffer != [] ==> PendingIn(buffer, b) == Unpack(b))
  {
  }

  lemma HoldsNothing(b: Batch)
    ensures Holds([], [], b)
  {
  }

  lemma HoldsEmptily(buffer: seq<Tok>, nested: seq<nat>, b: Batch)
    requires Holds(buffer, nested, b)
    ensures buffer == [] ==> nested == []
  {
  }

  lemma NumberedNew(numbers: seq<nat>, n: nat, pending: seq<Command>, b: Batch, lineno: nat, c: Command, exist: bool)
    requires Numbered(numbers, n, pending, b, lineno) && pending == []
    ensures Unpack(NewBatch(c, exist)) == [Seen(c, exist)]
    ensures Numbered(numbers + [c.lineno], n, Unpack(NewBatch(c, exist)), NewBatch(c, exist), c.lineno)
  {
  }

  lemma NumberedExtended(numbers: seq<nat>, n: nat, b: Batch, lineno: nat, c: Command, lineno': nat)
    requires Numbered(numbers, n, Unpack(b), b, lineno) && b.lineno != 0 && Collects(c) && b.kind == c.kind &&
             b.setname == c.setname
    ensures Unpack(Extended(b, c)) == Unpack(b) + [Seen(c, b.exist)]
    ensures Numbered(numbers + [c.lineno], n, Unpack(Extended(b, c)), Extended(b, c), lineno')
  {
  }

  lemma NumberedAlike(numbers: seq<nat>, n: nat, b: Batch, lineno: nat, pending: seq<Command>, lineno': nat)
    requires Numbered(numbers, n, pending, b, lineno) && (pending == [] || b.lineno != 0)
    ensures Numbered(numbers, n, pending, b, lineno')
  {
  }

  /** What the kernel's answer to a message means for all the commands so far. */
  lemma CommitEnd<K>(kern: Executor<K>, start: K, run: seq<Command>, kernel: K, numbers: seq<nat>, b: Batch,
                     lineno: nat,
                     kernel': K, done: nat)
    requires Exec(kern, start, run) == (kernel, |run|) && Numbered(numbers, |run|, Unpack(b), b, lineno)
    requires (kernel', done) == Exec(kern, kernel, Unpack(b))
    ensures done <= |b.items| && Exec(kern, start, run + Unpack(b)) == (kernel', |run| + done)
    ensures done == |b.items| ==> Numbered(numbers, |run + Unpack(b)|, [], b, lineno)
    ensures done == |b.items| ==> |run + Unpack(b)| == |run| + done
    ensures done < |b.items| ==>
              StoppedAt(kern, start, run + Unpack(b), numbers, kernel',
                        if b.lineno != 0 then b.items[done].lineno else lineno)
  {
    ExecConcat(kern, start, run, Unpack(b));
    hide Exec;
  }

  lemma SizeZero(ts: seq<Tok>)
    requires ts == [] || ts[0].Header?
    ensures Size(ts) == 0 <==> ts == []
  {
    if ts != [] {
      SizeConcat(ts[..1], ts[1..]);
      assert ts == ts[..1] + ts[1..];
      assert ts[..1][..0] == [];
    }
  }

  lemma CommitStart(buffer: seq<Tok>, nested: seq<nat>, b: Batch)
    requires Holds(buffer, nested, b)
    ensures Size(buffer) == 0 <==> buffer == []
    ensures buffer == [] ==> PendingIn(buffer, b) == []
    ensures buffer != [] ==> Read(Wire(b)) == Some(b) && PendingIn(buffer, b) == Unpack(b)
    ensures buffer != [] ==> b.items != [] && (b.lineno != 0 ==> b.items[0].lineno == b.lineno)
    ensures |nested| <= 1 && (buffer == [] ==> nested == [])
    ensures buffer != [] ==> buffer + (if nested == [] then [] else [Close]) == Wire(b)
  {
    SizeZero(buffer);
    if buffer != [] {
      ReadWire(b);
    }
  }

  lemma SizeAppend(ts: seq<Tok>, t: Tok)
    ensures Size(ts + [t]) == Size(ts) + TokSize(t)
  {
    assert (ts + [t])[..|ts|] == ts;
  }

  lemma AttrEnd(bufsize: nat, len: nat, e: Element)
    requires ElementOk(e)
    ensures AttrToks(e, ADT_MAX + 1) == [] && AttrsFit(bufsize, len, e, ADT_MAX + 1)
  {
  }

  lemma AttrStep(bufsize: nat, buffer: seq<Tok>, e: Element, i: nat)
    requires ElementOk(e) && 0 < i <= ADT_MAX
    ensures i !in e ==> AttrToks(e, i) == AttrToks(e, i + 1)
    ensures i !in e ==> (AttrsFit(bufsize, Size(buffer), e, i) <==> AttrsFit(bufsize, Size(buffer), e, i + 1))
    ensures i in e ==> TokSize(Attr(i, e[i])) <= MNL_ATTR_HDRLEN + Align(AdtMax(i))
    ensures i in e ==> buffer + AttrToks(e, i) == (buffer + [Attr(i, e[i])]) + AttrToks(e, i + 1)
    ensures i in e ==> (AttrsFit(bufsize, Size(buffer), e, i) <==>
              !BufferFull(bufsize, Size(buffer), AdtMax(i)) &&
                  AttrsFit(bufsize, Size(buffer + [Attr(i, e[i])]), e, i + 1))
  {
    hide AdtMax, Size, BufferFull, ElementOk;
    var rest := AttrToks(e, i + 1);
    if i in e {
      var t := Attr(i, e[i]);
      ValueBounded(e, i);
      SizeAppend(buffer, t);
      assert AttrToks(e, i) == [t] + rest;
      hide AttrToks;
      assert buffer + ([t] + rest) == (buffer + [t]) + rest;
    } else {
      assert AttrToks(e, i) == [] + rest == rest;
    }
  }

  /** What the parts of an item add up to. */
  lemma ItemSteps(bufsize: nat, buffer: seq<Tok>, e: Element, lineno: nat)
    requires ElementOk(e)
    ensures var b1 := buffer + [Open(false)];
            var b2 := b1 + AttrToks(e, 1);
            var b3 := b2 + [Lineno(lineno)];
            && Size(b1) == Size(buffer) + MNL_ATTR_HDRLEN
            && Size(b2) == Size(b1) + Size(AttrToks(e, 1))
            && Size(b3 + [Close]) == Size(b3) == Size(buffer) + ItemSize(e)
            && b3 + [Close] == buffer + ItemToks(AddCmd, Item(e, lineno))
  {
    hide AttrToks, ElementOk;
    var b1 := buffer + [Open(false)];
    var b2 := b1 + AttrToks(e, 1);
    var b3 := b2 + [Lineno(lineno)];
    SizeAppend(buffer, Open(false));
    SizeConcat(b1, AttrToks(e, 1));
    SizeAppend(b2, Lineno(lineno));
    SizeAppend(b3, Close);
    hide Size;
    assert b3 + [Close] == buffer + ItemToks(AddCmd, Item(e, lineno));
  }

  lemma LeadSizes(c: Command, exist: bool)
    requires CommandOk(c)
    ensures var b1 := [Header(c.kind, exist), Protocol];
            var b2 := b1 + [SetName(c.setname)];
            && TokSize(SetName(c.setname)) <= MNL_ATTR_HDRLEN + Align(SETNAME_SIZE)
            && Size(b1) == 28 && Size(b2) <= 64 && Size(b2 + [Open(false)]) <= 68 && Size(b2 + [Lineno(c.lineno)]) <= 72
            && Size(b2 + [Lineno(c.lineno)] + [Open(true)]) == LeadSize(c.setname) <= 76
  {
    var b0 := [Header(c.kind, exist)];
    var b1 := [Header(c.kind, exist), Protocol];
    var b2 := b1 + [SetName(c.setname)];
    assert [] + [Header(c.kind, exist)] == b0 && b0 + [Protocol] == b1 && Size([]) == 0;
    hide Size, ElementOk;
    SizeAppend([], Header(c.kind, exist));
    SizeAppend(b0, Protocol);
    SizeAppend(b1, SetName(c.setname));
    SizeAppend(b2, Open(false));
    SizeAppend(b2, Lineno(c.lineno));
    SizeAppend(b2 + [Lineno(c.lineno)], Open(true));
  }

  lemma ElementRoom(bufsize: nat, buffer: seq<Tok>, e: Element)
    requires ElementOk(e) && PAGE_SIZE <= bufsize && Size(buffer) <= 76
    ensures ItemFits(bufsize, Size(buffer), e) && AttrsFit(bufsize, Size(buffer), e, 1)
    ensures Size(buffer + AttrToks(e, 1) + [Close]) <= bufsize
  {
    hide Size, AttrsFit, AttrToks, ElementOk, ItemFits, MaxRest;
    OneItemFits(bufsize, Size(buffer), e);
    MaxRestAll();
    AttrsBounded(bufsize, Size(buffer), e, 1);
    SizeConcat(buffer, AttrToks(e, 1));
    SizeAppend(buffer + AttrToks(e, 1), Close);
  }

  /** The start of a message of any command: everything up to the first item, and the item, go in. */
  lemma LeadSteps(bufsize: nat, c: Command, exist: bool)
    requires CommandOk(c) && PAGE_SIZE <= bufsize
    ensures var b2 := [Header(c.kind, exist), Protocol] + [SetName(c.setname)];
            var b3 := b2 + [Open(false)];
            var b5 := b2 + [Lineno(c.lineno)] + [Open(true)];
            && ItemFits(bufsize, Size(b2), c.attrs) && ItemFits(bufsize, Size(b5), c.attrs)
            && AttrsFit(bufsize, Size(b3), c.attrs, 1)
            && Size(b3 + AttrToks(c.attrs, 1) + [Close]) <= bufsize
  {
    var b2 := [Header(c.kind, exist), Protocol] + [SetName(c.setname)];
    LeadSizes(c, exist);
    hide Size, AttrsFit, AttrToks, ElementOk, ItemFits, MaxRest, LeadSize, TokSize;
    ElementRoom(bufsize, b2, c.attrs);
    ElementRoom(bufsize, b2 + [Open(false)], c.attrs);
    ElementRoom(bufsize, b2 + [Lineno(c.lineno)] + [Open(true)], c.attrs);
  }

  lemma ItemsToksOne(kind: Kind, it: Item)
    ensures ItemsToks(kind, [it]) == ItemToks(kind, it)
  {
    assert [it][..0] == [];
    assert [] + ItemToks(kind, it) == ItemToks(kind, it);
  }

  function NewLead(c: Command, exist: bool): seq<Tok> {
    [Header(c.kind, exist), Protocol] + [SetName(c.setname)]
  }

  function TestForm(c: Command, exist: bool): seq<Tok> {
    NewLead(c, exist) + [Open(false)] + AttrToks(c.attrs, 1) + [Close]
  }

  function ItemsLead(c: Command, exist: bool): seq<Tok> {
    if c.lineno != 0 then NewLead(c, exist) + [Lineno(c.lineno)] + [Open(true)] else NewLead(c, exist)
  }

  function FirstItemForm(c: Command, exist: bool): seq<Tok> {
    ItemsLead(c, exist) + ItemToks(AddCmd, Item(c.attrs, c.lineno))
  }

  lemma LeadIs(c: Command, exist: bool)
    ensures Lead(NewBatch(c, exist)) ==
              if c.kind.AddCmd? || c.kind.DelCmd? then ItemsLead(c, exist) else NewLead(c, exist)
  {
  }

  lemma TestIs(lead: seq<Tok>, c: Command)
    requires c.kind.TestCmd?
    ensures lead + ItemToks(c.kind, Item(c.attrs, 0)) == lead + [Open(false)] + AttrToks(c.attrs, 1) + [Close]
  {
    hide AttrToks;
    var ts := AttrToks(c.attrs, 1);
    assert ItemToks(c.kind, Item(c.attrs, 0)) == [Open(false)] + ts + [Close];
    hide ItemToks;
    assert lead + ([Open(false)] + ts + [Close]) == lead + [Open(false)] + ts + [Close];
  }

  /** The buffer after each way of starting a message. */
  lemma NewForm(c: Command, exist: bool)
    requires CommandOk(c)
    ensures var b := NewBatch(c, exist);
            && BatchOk(b) && (b.lineno != 0 <==> Collects(c))
            && OpenForm(b) == if c.kind.PlainCmd? then NewLead(c, exist)
                              else if c.kind.TestCmd? then TestForm(c, exist)
                              else FirstItemForm(c, exist)
  {
    var b := NewBatch(c, exist);
    assert ElementOk(map[]);
    hide AttrToks, ItemsToks, AdtMax, ElementOk, Lead, NewLead, ItemsLead, ItemToks;
    LeadIs(c, exist);
    ItemsToksOne(c.kind, b.items[0]);
    if c.kind.PlainCmd? {
      assert NewLead(c, exist) + [] == NewLead(c, exist);
    } else if c.kind.TestCmd? {
      TestIs(NewLead(c, exist), c);
    } else {
      AddForm(c.kind, b.items[0]);
    }
  }

  lemma AddForm(kind: Kind, it: Item)
    requires !kind.TestCmd?
    ensures ItemToks(kind, it) == ItemToks(AddCmd, it)
  {
  }

  lemma ExtendedForm(b: Batch, c: Command)
    requires BatchOk(b) && CommandOk(c) && Collects(c) && b.lineno != 0 && b.kind == c.kind
    ensures BatchOk(Extended(b, c)) &&
              OpenForm(Extended(b, c)) == OpenForm(b) + ItemToks(AddCmd, Item(c.attrs, c.lineno))
  {
    hide ElementOk, AttrToks, AdtMax;
    var it := Item(c.attrs, c.lineno);
    assert (b.items + [it])[..|b.items|] == b.items;
    assert ItemToks(c.kind, it) == ItemToks(AddCmd, it);
    assert ItemsToks(b.kind, b.items + [it]) == ItemsToks(b.kind, b.items) + ItemToks(b.kind, it);
    assert Lead(Extended(b, c)) == Lead(b);
    hide ItemToks, ItemsToks, Lead;
    var lead, items, last := Lead(b), ItemsToks(b.kind, b.items), ItemToks(AddCmd, it);
    assert lead + (items + last) == (lead + items) + last;
  }

  /** A collected command is lost if the next line does not parse. */
  lemma LostBeforeBadLine(bufsize: nat, c: Command, env: bool)
    requires CommandOk(c) && Collects(c)
    ensures var lines := Good([Some(Run(c)), None]);
            LinesOk(lines) && |Sent(bufsize, lines, Nothing, env)| == 1
            && Count(Before(bufsize, lines, |lines|, Nothing, env).0) == 1
  {
    var all := [Some(Run(c)), None];
    assert all[1..] == [None] && Good([None]) == [];
    var lines := Good(all);
    assert lines == [Run(c)] && lines[1..] == [];
    SentOne(bufsize, c, Nothing, env);
  }

  lemma SentUnfold(bufsize: nat, lines: seq<Line>, o: Collecting, env: bool)
    requires LinesOk(lines) && lines != []
    ensures var s := Next(bufsize, lines[0], o, env);
            Sent(bufsize, lines, o, env) == Added(bufsize, lines[0], o, env) + Sent(bufsize, lines[1..], s.0, s.1)
    ensures LineNumbers(lines) == NumberOf(lines[0]) + LineNumbers(lines[1..])
  {
    hide Joins, After, Seen;
  }

  /** The next line of a stream: what it adds to the commands and numbers so far. */
  lemma StreamStep(bufsize: nat, lines: seq<Option<Line>>, i: nat, done: seq<Command>, numbers: seq<nat>, o: Collecting,
                   env: bool)
    requires i < |lines| && lines[i].Some? && LinesOk(Good(lines[i..]))
    ensures var l, rest := lines[i].value, Good(lines[i + 1..]);
            && LineOk(l) && LinesOk(rest) && |Good(lines[i..])| == 1 + |rest|
            && var s := Next(bufsize, l, o, env);
               && done + Sent(bufsize, Good(lines[i..]), o, env)
                    == (done + Added(bufsize, l, o, env)) + Sent(bufsize, rest, s.0, s.1)
               && numbers + LineNumbers(Good(lines[i..])) == (numbers + NumberOf(l)) + LineNumbers(rest)
               && |Sent(bufsize, rest, s.0, s.1)| == |LineNumbers(rest)|
               && Before(bufsize, Good(lines[i..]), |Good(lines[i..])|, o, env)
                    == Before(bufsize, rest, |rest|, s.0, s.1)
  {
    var all, l := Good(lines[i..]), lines[i].value;
    var rest := Good(lines[i + 1..]);
    assert lines[i..][1..] == lines[i + 1..];
    assert all == [l] + rest && all[0] == l && all[1..] == rest;
    NextLine(bufsize, all, done, numbers, o, env);
  }

  lemma NextLine(bufsize: nat, lines: seq<Line>, done: seq<Command>, numbers: seq<nat>, o: Collecting, env: bool)
    requires lines != [] && LinesOk(lines)
    ensures LineOk(lines[0]) && LinesOk(lines[1..])
    ensures var s := Next(bufsize, lines[0], o, env);
            && done + Sent(bufsize, lines, o, env)
                 == (done + Added(bufsize, lines[0], o, env)) + Sent(bufsize, lines[1..], s.0, s.1)
            && numbers + LineNumbers(lines) == (numbers + NumberOf(lines[0])) + LineNumbers(lines[1..])
            && |Sent(bufsize, lines[1..], s.0, s.1)| == |LineNumbers(lines[1..])|
            && Before(bufsize, lines, |lines|, o, env) == Before(bufsize, lines[1..], |lines| - 1, s.0, s.1)
  {
    hide Sent, LineNumbers, Next, Added, NumberOf, CommandOk;
    assert LineOk(lines[0]) && LinesOk(lines[1..]);
    hide LinesOk, LineOk;
    var s := Next(bufsize, lines[0], o, env);
    SentCount(bufsize, lines[1..], s.0, s.1);
    SentUnfold(bufsize, lines, o, env);
    var added, sent := Added(bufsize, lines[0], o, env), Sent(bufsize, lines[1..], s.0, s.1);
    assert done + (added + sent) == (done + added) + sent;
    var num, nums := NumberOf(lines[0]), LineNumbers(lines[1..]);
    assert numbers + (num + nums) == (numbers + num) + nums;
  }

  lemma StreamEnd(bufsize: nat, lines: seq<Line>, done: seq<Command>, numbers: seq<nat>, o: Collecting, env: bool)
    requires lines == []
    ensures LinesOk(lines)
    ensures done + Sent(bufsize, lines, o, env) == done && numbers + LineNumbers(lines) == numbers
    ensures Before(bufsize, lines, 0, o, env) == (o, env)
  {
  }

  // ---------------------------------------------------------------- a shared flag, and how to avoid it

  lemma {:induction false} ExistStays(bufsize: nat, lines: seq<Line>, i: nat, o: Collecting)
    requires LinesOk(lines) && i <= |lines|
    ensures Before(bufsize, lines, i, o, true).1
  {
    if i > 0 {
      ExistStays(bufsize, lines[1..], i - 1, Next(bufsize, lines[0], o, true).0);
    }
  }

  /** With -exist given for the whole restore, collecting changes nothing. */
  lemma ExistFromStart(bufsize: nat, lines: seq<Line>, o: Collecting)
    requires LinesOk(lines) && (o.Collecting? ==> o.exist)
    ensures Sent(bufsize, lines, o, true) == OneByOne(lines, true)
  {
    SentIsOneByOneIff(bufsize, lines, o, true);
    forall i | 0 <= i < |lines| ensures !LateExist(bufsize, lines, i, o, true) {
      ExistStays(bufsize, lines, i, o);
    }
  }

  /** A kernel that keeps a set of elements. */
  ghost function KeepElements(have: set<Element>, c: Command): Outcome<set<Element>> {
    if c.attrs in have && !c.exist then Failed(have) else Done(have + {c.attrs})
  }

  /** The same element added twice, the second time with -exist: one by one both lines succeed, but collected into
      one message the second fails, because the message has the flag of the first. */
  lemma SharedFlag(bufsize: nat, name: string, e: Element)
    requires PAGE_SIZE <= bufsize && 0 < |name| < SETNAME_SIZE && ElementOk(e)
    ensures var lines := [Run(Command(AddCmd, name, e, 1, false)), Run(Command(AddCmd, name, e, 2, true))];
            && Exec(KeepElements, {}, OneByOne(lines, false)) == ({e}, 2)
            && Exec(KeepElements, {}, Sent(bufsize, lines, Nothing, false)) == ({e}, 1)
  {
    var c1, c2 := Command(AddCmd, name, e, 1, false), Command(AddCmd, name, e, 2, true);
    var lines := [Run(c1), Run(c2)];
    var o := After(bufsize, Nothing, c1, false);
    assert o == Collecting(AddCmd, name, false, LeadSize(name) + ItemSize(e), 1);
    assert ItemFits(bufsize, o.len, e) by {
      MaxRestAll();
      AttrsBounded(PAGE_SIZE, 0, e, 1);
      OneItemFits(bufsize, o.len, e);
    }
    hide ItemFits, ElementOk, LeadSize, ItemSize, AttrToks, Size, KeepElements, Exec;
    assert Joins(bufsize, o, c2) && LineOk(Run(c2));
    assert lines[1..] == [Run(c2)];
    SentOne(bufsize, c2, o, false);
    assert Sent(bufsize, lines, Nothing, false) == [c1] + [c2.(exist := false)] == [c1, c2.(exist := false)];
    assert OneByOne(lines, false) == [c1] + OneByOne([Run(c2)], false) == [c1, c2];
    KeepTwice(c1, c2);
    KeepTwice(c1, c2.(exist := false));
  }

  lemma SentOne(bufsize: nat, c: Command, o: Collecting, env: bool)
    requires CommandOk(c)
    ensures Sent(bufsize, [Run(c)], o, env) == [Seen(c, Flag(bufsize, o, c, env || c.exist))]
    ensures OneByOne([Run(c)], env) == [Seen(c, env || c.exist)]
  {
    assert [Run(c)][1..] == [];
    hide Joins, After;
  }

  lemma KeepTwice(c: Command, d: Command)
    requires c.attrs == d.attrs
    ensures Exec(KeepElements, {}, [c, d]) == ({c.attrs}, if d.exist then 2 else 1)
  {
    assert [c, d][1..] == [d] && [d][1..] == [];
    assert {} + {c.attrs} == {c.attrs} && {c.attrs} + {c.attrs} == {c.attrs};
    assert Exec(KeepElements, {c.attrs}, [d]) == ({c.attrs}, if d.exist then 1 else 0);
  }
}
