/** Runs of a set over time, against a plain map with true expiry times. */
module TimedRuns {
  import opened Options
  import opened Timeout
  import opened HashTable
  import opened HashSet

  // ---------------------------------------------------------------- the ideal: a plain timed map

  /** A member with its true expiry time, if it has one. */
  datatype Member = Member(due: Option<int>, bytes: nat, packets: nat, skb: Skbinfo)

  type Ideal = map<string, Member>

  predicate Alive(e: Member, now: int) {
    e.due.None? || now <= e.due.value
  }

  datatype Event =
    | Tick(ticks: nat)
    | AddElem(d: string, ext: Ext, exist: bool)
    | DelElem(d: string)
    | TestElem(d: string, ext: Ext, fl: TestFlags)
    | FlushAll
    | Gc
    | Widen

  datatype Answer = NoAnswer | Code(ret: Ret) | Verdict(found: bool)

  /** Expiry time of an entry given a timeout at this time; 0 means never. */
  function Due(f: Features, value: U32, now: int): Option<int> {
    if !f.timeout || value == 0 then None else Some(TrueDeadline(value, now))
  }

  /** A member as an add leaves it: given extensions are taken over, absent counters are not set. */
  predicate AddedMember(f: Features, e: Member, ext: Ext, now: int) {
    && e.due == Due(f, ext.timeout, now)
    && (f.counter && ext.bytes != ULLONG_MAX ==> e.bytes == ext.bytes)
    && (f.counter && ext.packets != ULLONG_MAX ==> e.packets == ext.packets)
    && (f.skbinfo ==> e.skb == ext.skb)
  }

  /** A member whose extensions are overwritten keeps the counters that are not given. */
  predicate KeptCounters(f: Features, old_: Member, e: Member, ext: Ext) {
    && (!f.counter || ext.bytes == ULLONG_MAX ==> e.bytes == old_.bytes)
    && (!f.counter || ext.packets == ULLONG_MAX ==> e.packets == old_.packets)
  }

  function BumpedMember(f: Features, e: Member, ext: Ext, fl: TestFlags): Member {
    if f.counter && ext.packets != ULLONG_MAX && !fl.skipUpdate
    then e.(bytes := (e.bytes + ext.bytes) % WORD64, packets := (e.packets + ext.packets) % WORD64)
    else e
  }

  predicate MemberMatches(f: Features, e: Member, fl: TestFlags) {
    f.counter && fl.matchCounters ==>
      MatchCounter(e.packets, fl.packets, fl.packetsOp) && MatchCounter(e.bytes, fl.bytes, fl.bytesOp)
  }

  /** Why a new member may be refused: the map is full, or a bucket of unexpired members has no room left, or memory
      has run short. */
  predicate Refusable(members: nat, cap: nat, short: bool, ret: Ret) {
    && (ret == ErrHashFull ==> members >= cap)
    && (ret == ErrAgain ==> AHASH_MAX_SIZE <= members < cap)
    && (ret == ErrNoMem ==> short)
  }

  /** How the room for members moves. There are never more members than slots; only a new member of a map that is not
      full may take a slot more, so past its size a map can only refill slots that members left; and while memory
      lasts there are at most three slots a row beyond the size. */
  predicate RoomStep(cap: nat, sp: Space, ev: Event, a: Answer, grows: bool, members': nat, sp': Space) {
    && (sp.short ==> sp'.short)
    && members' <= sp'.slots <= sp.slots + (if ev.AddElem? && a == Code(Success) && grows then 1 else 0)
    && (!sp'.short ==> sp'.slots <= cap + 3 * sp'.rows)
    && (if ev.Widen? && a == Code(Success) then 2 * sp.rows <= sp'.rows else sp'.rows == sp.rows)
  }

  /** One step of the timed map of a set of size cap. A refused add changes nothing. */
  ghost predicate IdealStep(f: Features, cap: nat, i: Ideal, sp: Space, now: int, ev: Event, a: Answer, i': Ideal,
                            sp': Space)
  {
    && RoomStep(cap, sp, ev, a, ev.AddElem? && ev.d !in i && |i| < cap, |i'|, sp')
    && IdealEffect(f, cap, i, now, ev, a, i', sp'.short)
  }

  ghost predicate IdealEffect(f: Features, cap: nat, i: Ideal, now: int, ev: Event, a: Answer, i': Ideal, short: bool) {
    match ev
    case Tick(dt) => a == NoAnswer && i' == map d | d in i && Alive(i[d], now + dt) :: i[d]
    case AddElem(d, ext, exist) =>
      a.Code? &&
      if d in i then
        if exist then
          && a.ret == Success && d in i' && i' == i[d := i'[d]]
          && AddedMember(f, i'[d], ext, now) && KeptCounters(f, i[d], i'[d], ext)
        else a.ret == ErrExist && i' == i
      else
        && a.ret != ErrExist && Refusable(|i|, cap, short, a.ret)
        && if a.ret == Success then d in i' && i' == i[d := i'[d]] && AddedMember(f, i'[d], ext, now) else i' == i
    case DelElem(d) => a == Code(if d in i then Success else ErrExist) && i' == i - {d}
    case TestElem(d, ext, fl) =>
      && a == Verdict(d in i && MemberMatches(f, i[d], fl))
      && i' == if a.found then i[d := BumpedMember(f, i[d], ext, fl)] else i
    case FlushAll => a == NoAnswer && i' == map[]
    case Gc => a == NoAnswer && i' == i
    case Widen => (a == Code(Success) || (a == Code(ErrNoMem) && short)) && i' == i
  }

  // ---------------------------------------------------------------- the set, as its methods specify it

  datatype State = State(m: Entries, now: int, lastGc: int, space: Space)

  predicate Fresh(f: Features, m: Entries, d: string, at: Timeout.Tick) {
    d in m ==> Dead(f, m[d], at)
  }

  /** What an operation at clock time at does to the stored entries, and its answer. */
  ghost predicate Effect(f: Features, cap: nat, m: Entries, sp: Space, ev: Event, a: Answer, at: Timeout.Tick,
                         m': Entries, sp': Space)
  {
    && RoomStep(cap, sp, ev, a, ev.AddElem? && Fresh(f, m, ev.d, at) && Occupancy(f, cap, m, at) < cap, |m'|, sp')
    && match ev
       case Tick(_) => a == NoAnswer && m' == m && sp' == sp
       case AddElem(d, ext, exist) =>
         && a.Code?
         && (a.ret == ErrHashFull ==> Occupancy(f, cap, m, at) >= cap)
         && (a.ret == ErrAgain ==> Occupancy(f, cap, m, at) < cap && AHASH_MAX_SIZE <= |Live(f, m, at)|)
         && (a.ret == ErrNoMem ==> sp'.short)
         && exists base :: AddEffect(f, m, m', d, ext, exist, at, a.ret, base)
       case DelElem(d) =>
         && a == Code(if d in m && !Dead(f, m[d], at) then Success else ErrExist)
         && m' == if a.ret == Success then m - {d} else m
       case TestElem(d, ext, fl) =>
         && a == Verdict(d in m && Matches(f, m[d], fl, at)) && sp' == sp
         && m' == if a.found then m[d := Bumped(f, m[d], ext, fl)] else m
       case FlushAll => a == NoAnswer && m' == map[] && sp' == sp.(slots := 0)
       case Gc => a == NoAnswer && m' == Live(f, m, at)
       case Widen => (a == Code(Success) || (a == Code(ErrNoMem) && sp'.short)) && m' == m
  }

  /** One step of the set. The collector runs at least once in half a turn of the tick counter, and timeouts are
      clamped where the set has them. */
  ghost predicate Step(f: Features, cap: nat, s: State, ev: Event, a: Answer, s': State) {
    && Effect(f, cap, s.m, s.space, ev, a, Wrap(s.now), s'.m, s'.space)
    && s'.now == s.now + (if ev.Tick? then ev.ticks else 0)
    && s'.lastGc == (if ev.Gc? then s.now else s.lastGc)
    && (f.timeout && ev.Tick? ==> s'.now - s.lastGc <= HALF)
    && (f.timeout && ev.AddElem? ==> ev.ext.timeout <= MAX_TIMEOUT)
  }

  // ---------------------------------------------------------------- the abstraction

  /** The true time a stored deadline stands for: the reading nearest to now. */
  function TrueDue(t: U32, now: int): int {
    now + Signed(t - Wrap(now))
  }

  function MemberOf(f: Features, s: Slot, now: int): Member {
    Member(if !f.timeout || s.deadline == ELEM_PERMANENT then None else Some(TrueDue(s.deadline, now)),
           s.bytes, s.packets, s.skb)
  }

  /** The members of the timed map a state stands for. */
  ghost function Abs(f: Features, s: State): Ideal {
    map d | d in s.m && !Dead(f, s.m[d], Wrap(s.now)) :: MemberOf(f, s.m[d], s.now)
  }

  /** No stored deadline lies before the last collection, and that is at most half a turn ago. */
  ghost predicate Inv(f: Features, s: State) {
    f.timeout ==>
      && s.lastGc <= s.now <= s.lastGc + HALF
      && forall d :: d in s.m && s.m[d].deadline != ELEM_PERMANENT ==> s.lastGc <= TrueDue(s.m[d].deadline, s.now)
  }

  lemma TrueDueRange(t: U32, now: int)
    ensures now - HALF <= TrueDue(t, now) < now + HALF
    ensures Wrap(TrueDue(t, now)) == t
    ensures t != ELEM_PERMANENT ==> (Expired(t, Wrap(now)) <==> TrueDue(t, now) < now)
  {
    var q := if (t - Wrap(now)) % WORD < HALF then (t - Wrap(now)) / WORD else (t - Wrap(now)) / WORD + 1;
    assert TrueDue(t, now) == t + (now / WORD - q) * WORD;
    ModShift(t, now / WORD - q);
  }

  lemma TrueDueUnique(t: U32, now: int, g: int)
    requires Wrap(g) == t && now - HALF <= g < now + HALF
    ensures TrueDue(t, now) == g
  {
    WrapDiff(g, now);
    assert Signed(t - Wrap(now)) == g - now;
  }

  /** Between collections every deadline keeps its meaning, however the counter wraps. */
  lemma TrueDueStable(t: U32, now: int, now': int, lastGc: int)
    requires lastGc <= TrueDue(t, now) && now <= now' <= lastGc + HALF
    ensures TrueDue(t, now') == TrueDue(t, now)
  {
    TrueDueRange(t, now);
    TrueDueUnique(t, now', TrueDue(t, now));
  }

  lemma NewDeadline(value: U32, now: int)
    requires 0 < value <= MAX_TIMEOUT
    ensures TimeoutSet(value, Wrap(now)) != ELEM_PERMANENT
    ensures TrueDue(TimeoutSet(value, Wrap(now)), now) == TrueDeadline(value, now) > now
    ensures !Expired(TimeoutSet(value, Wrap(now)), Wrap(now))
  {
    TimeoutSetIsTrueDeadline(value, now);
    TrueDueUnique(TimeoutSet(value, Wrap(now)), now, TrueDeadline(value, now));
    TrueDueRange(TimeoutSet(value, Wrap(now)), now);
  }

  // ---------------------------------------------------------------- refinement

  /** The true deadline of an entry does not move, and the entry is dead once it has passed. */
  lemma DueAcross(f: Features, x: Slot, now: int, now': int, lastGc: int)
    requires f.timeout && x.deadline != ELEM_PERMANENT
    requires lastGc <= TrueDue(x.deadline, now) && now <= now' <= lastGc + HALF
    ensures TrueDue(x.deadline, now') == TrueDue(x.deadline, now)
    ensures Dead(f, x, Wrap(now)) <==> TrueDue(x.deadline, now) < now
    ensures Dead(f, x, Wrap(now')) <==> TrueDue(x.deadline, now) < now'
  {
    TrueDueStable(x.deadline, now, now', lastGc);
    TrueDueRange(x.deadline, now);
    TrueDueRange(x.deadline, now');
    hide TrueDue, Expired, Wrap;
  }

  lemma TickStep(f: Features, cap: nat, s: State, dt: nat, s': State)
    requires Step(f, cap, s, Tick(dt), NoAnswer, s')
    ensures s'.m == s.m && s'.now == s.now + dt && s'.lastGc == s.lastGc
    ensures f.timeout ==> s'.now - s.lastGc <= HALF
  {
  }

  /** An entry that passing time lets expire is the member whose deadline it passes, and the others stay the same. */
  lemma EntryAcross(f: Features, x: Slot, now: int, now': int, lastGc: int)
    requires f.timeout && x.deadline != ELEM_PERMANENT ==>
               lastGc <= TrueDue(x.deadline, now) && now <= now' <= lastGc + HALF
    ensures !Dead(f, x, Wrap(now')) <==> !Dead(f, x, Wrap(now)) && Alive(MemberOf(f, x, now), now')
    ensures MemberOf(f, x, now') == MemberOf(f, x, now)
    ensures f.timeout && x.deadline != ELEM_PERMANENT ==> TrueDue(x.deadline, now') == TrueDue(x.deadline, now)
  {
    if f.timeout && x.deadline != ELEM_PERMANENT {
      DueAcross(f, x, now, now', lastGc);
      hide TrueDue, Expired, Wrap;
    }
  }

  lemma TickRefines(f: Features, cap: nat, s: State, dt: nat, s': State)
    requires Inv(f, s) && Step(f, cap, s, Tick(dt), NoAnswer, s')
    ensures Inv(f, s') && IdealEffect(f, cap, Abs(f, s), s.now, Tick(dt), NoAnswer, Abs(f, s'), s'.space.short)
  {
    TickStep(f, cap, s, dt, s');
    hide Step, Effect, Dead, MemberOf, Alive, Wrap, TrueDue;
    forall d | d in s.m
      ensures !Dead(f, s.m[d], Wrap(s'.now)) <==>
                !Dead(f, s.m[d], Wrap(s.now)) && Alive(MemberOf(f, s.m[d], s.now), s'.now)
      ensures MemberOf(f, s.m[d], s'.now) == MemberOf(f, s.m[d], s.now)
      ensures f.timeout && s.m[d].deadline != ELEM_PERMANENT ==>
                TrueDue(s.m[d].deadline, s'.now) == TrueDue(s.m[d].deadline, s.now)
    {
      EntryAcross(f, s.m[d], s.now, s'.now, s.lastGc);
    }
    assert Abs(f, s') == map d | d in Abs(f, s) && Alive(Abs(f, s)[d], s.now + dt) :: Abs(f, s)[d];
  }

  /** Re-adding an existing member keeps the counters that are not given. */
  lemma KeptByAdd(f: Features, s: State, d: string, ext: Ext, base: Slot)
    ensures d in s.m && base == s.m[d] ==>
              KeptCounters(f, MemberOf(f, s.m[d], s.now), MemberOf(f, NewSlot(f, base, d, ext, Wrap(s.now)), s.now),
                           ext)
  {
  }

  lemma MembersAre(f: Features, s: State, cap: nat)
    ensures |Abs(f, s)| == |Live(f, s.m, Wrap(s.now))|
    ensures Occupancy(f, cap, s.m, Wrap(s.now)) >= cap <==> |Abs(f, s)| >= cap
  {
    assert Abs(f, s).Keys == Live(f, s.m, Wrap(s.now)).Keys;
    LiveCard(f, s.m, Wrap(s.now));
  }

  lemma RoomRefines(f: Features, cap: nat, s: State, ev: Event, a: Answer, s': State)
    requires Step(f, cap, s, ev, a, s')
    ensures RoomStep(cap, s.space, ev, a, ev.AddElem? && ev.d !in Abs(f, s) && |Abs(f, s)| < cap, |Abs(f, s')|,
                     s'.space)
  {
    MembersAre(f, s, cap);
    MembersAre(f, s', cap);
    LiveCard(f, s'.m, Wrap(s'.now));
    hide Occupancy, Live, AddEffect;
  }

  lemma AddRefusable(f: Features, cap: nat, s: State, d: string, ext: Ext, exist: bool, a: Answer, s': State)
    requires Step(f, cap, s, AddElem(d, ext, exist), a, s')
    ensures Refusable(|Abs(f, s)|, cap, s'.space.short, a.ret)
  {
    hide AddEffect, Abs, Live, Occupancy, Wrap;
    MembersAre(f, s, cap);
  }

  /** An add replaces or adds one member, or nothing. */
  lemma AddChanges(f: Features, s: State, d: string, ext: Ext, exist: bool, ret: Ret, base: Slot, s': State)
    requires Inv(f, s) && AddEffect(f, s.m, s'.m, d, ext, exist, Wrap(s.now), ret, base)
    requires s'.now == s.now && s'.lastGc == s.lastGc && (f.timeout ==> ext.timeout <= MAX_TIMEOUT)
    ensures Inv(f, s')
    ensures if ret == Success
            then d in s'.m && s'.m[d] == NewSlot(f, base, d, ext, Wrap(s.now))
                 && Abs(f, s') == Abs(f, s)[d := MemberOf(f, s'.m[d], s.now)]
            else Abs(f, s') == Abs(f, s)
  {
    if f.timeout && ext.timeout != 0 {
      NewDeadline(ext.timeout, s.now);
    }
    hide TrueDue, Expired, TimeoutSet, TrueDeadline, Wrap, MemberOf;
  }

  lemma AddedAs(f: Features, base: Slot, d: string, ext: Ext, now: int)
    requires f.timeout ==> ext.timeout <= MAX_TIMEOUT
    ensures AddedMember(f, MemberOf(f, NewSlot(f, base, d, ext, Wrap(now)), now), ext, now)
  {
    if f.timeout && ext.timeout != 0 {
      NewDeadline(ext.timeout, now);
    }
    hide TrueDue, Expired, TrueDeadline, Wrap;
  }

  lemma AddRefines(f: Features, cap: nat, s: State, d: string, ext: Ext, exist: bool, a: Answer, s': State)
    requires Inv(f, s) && Step(f, cap, s, AddElem(d, ext, exist), a, s')
    ensures Inv(f, s') && IdealEffect(f, cap, Abs(f, s), s.now, AddElem(d, ext, exist), a, Abs(f, s'), s'.space.short)
  {
    AddRefusable(f, cap, s, d, ext, exist, a, s');
    var base :| AddEffect(f, s.m, s'.m, d, ext, exist, Wrap(s.now), a.ret, base);
    AddChanges(f, s, d, ext, exist, a.ret, base, s');
    AddedAs(f, base, d, ext, s.now);
    KeptByAdd(f, s, d, ext, base);
    hide Refusable, Occupancy, Live, Inv, Wrap, MemberOf, NewSlot, AddedMember, KeptCounters;
  }

  lemma GcRefines(f: Features, cap: nat, s: State, a: Answer, s': State)
    requires Inv(f, s) && Step(f, cap, s, Gc, a, s')
    ensures Inv(f, s') && IdealEffect(f, cap, Abs(f, s), s.now, Gc, a, Abs(f, s'), s'.space.short)
  {
    forall d | d in s'.m && f.timeout && s'.m[d].deadline != ELEM_PERMANENT
      ensures s.now <= TrueDue(s'.m[d].deadline, s.now)
    {
      TrueDueRange(s'.m[d].deadline, s.now);
    }
    hide TrueDue, Expired, Wrap;
  }

  lemma AbsWithout(f: Features, s: State, d: string, s': State)
    requires s'.now == s.now && s'.m == s.m - {d}
    ensures Abs(f, s') == Abs(f, s) - {d}
    ensures d in Abs(f, s) <==> d in s.m && !Dead(f, s.m[d], Wrap(s.now))
  {
    hide Dead, MemberOf, Wrap;
  }

  lemma InvKept(f: Features, s: State, s': State)
    requires Inv(f, s) && s'.now == s.now && s'.lastGc == s.lastGc
    requires forall d :: d in s'.m ==> d in s.m && s'.m[d].deadline == s.m[d].deadline
    ensures Inv(f, s')
  {
    hide TrueDue;
  }

  lemma DelRefines(f: Features, cap: nat, s: State, d: string, a: Answer, s': State)
    requires Inv(f, s) && Step(f, cap, s, DelElem(d), a, s')
    ensures Inv(f, s') && IdealEffect(f, cap, Abs(f, s), s.now, DelElem(d), a, Abs(f, s'), s'.space.short)
  {
    hide Inv, Abs, Dead, Wrap, RoomStep, AddEffect, Occupancy, Live;
    AbsWithout(f, s, d, s.(m := s.m - {d}));
    if a == Code(Success) {
      AbsWithout(f, s, d, s');
    } else {
      assert Abs(f, s) - {d} == Abs(f, s);
      SameAbs(f, s, s');
    }
    InvKept(f, s, s');
  }

  /** Overwriting an unexpired member without touching its deadline. */
  lemma AbsPut(f: Features, s: State, d: string, x: Slot, s': State)
    requires d in s.m && !Dead(f, s.m[d], Wrap(s.now)) && x.deadline == s.m[d].deadline
    requires s'.now == s.now && s'.m == s.m[d := x]
    ensures Abs(f, s') == Abs(f, s)[d := MemberOf(f, x, s.now)]
  {
    hide Expired, MemberOf, Wrap;
  }

  lemma SameAbs(f: Features, s: State, s': State)
    requires s'.now == s.now && s'.m == s.m
    ensures Abs(f, s') == Abs(f, s)
  {
  }

  lemma TestRefines(f: Features, cap: nat, s: State, d: string, ext: Ext, fl: TestFlags, a: Answer, s': State)
    requires Inv(f, s) && Step(f, cap, s, TestElem(d, ext, fl), a, s')
    ensures Inv(f, s') && IdealEffect(f, cap, Abs(f, s), s.now, TestElem(d, ext, fl), a, Abs(f, s'), s'.space.short)
  {
    BumpedAs(f, s, d, ext, fl);
    hide Inv, Wrap, Dead, RoomStep, AddEffect, Occupancy, Live, MemberOf, BumpedMember, Matches, MemberMatches;
    if a.found {
      AbsPut(f, s, d, Bumped(f, s.m[d], ext, fl), s');
    } else {
      SameAbs(f, s, s');
    }
    hide Abs;
    InvKept(f, s, s');
  }

  lemma BumpedAs(f: Features, s: State, d: string, ext: Ext, fl: TestFlags)
    ensures d in s.m ==>
              && MemberOf(f, Bumped(f, s.m[d], ext, fl), s.now) == BumpedMember(f, MemberOf(f, s.m[d], s.now), ext, fl)
              && (Matches(f, s.m[d], fl, Wrap(s.now)) <==>
                    !Dead(f, s.m[d], Wrap(s.now)) && MemberMatches(f, MemberOf(f, s.m[d], s.now), fl))
  {
    hide TrueDue, Expired, Wrap;
  }

  lemma IdleRefines(f: Features, cap: nat, s: State, ev: Event, a: Answer, s': State)
    requires Inv(f, s) && Step(f, cap, s, ev, a, s') && (ev.FlushAll? || ev.Widen?)
    ensures Inv(f, s') && IdealEffect(f, cap, Abs(f, s), s.now, ev, a, Abs(f, s'), s'.space.short)
  {
    hide TrueDue, Expired, Wrap, RoomStep;
  }

  /** A run: every state but the first comes from the one before by its event. */
  ghost predicate Run(f: Features, cap: nat, states: seq<State>, events: seq<Event>, answers: seq<Answer>) {
    && |states| == |events| + 1 == |answers| + 1
    && states[0].m == map[] && states[0].lastGc == states[0].now
    && forall k :: 0 <= k < |events| ==> Step(f, cap, states[k], events[k], answers[k], states[k + 1])
  }

  lemma {:induction false} RunInv(f: Features, cap: nat, states: seq<State>, events: seq<Event>, answers: seq<Answer>,
                                  k: nat)
    requires Run(f, cap, states, events, answers) && k <= |events|
    ensures Inv(f, states[k])
  {
    if k > 0 {
      RunInv(f, cap, states, events, answers, k - 1);
      StepRefines(f, cap, states[k - 1], events[k - 1], answers[k - 1], states[k]);
    }
  }

  lemma StepRefines(f: Features, cap: nat, s: State, ev: Event, a: Answer, s': State)
    requires Inv(f, s) && Step(f, cap, s, ev, a, s')
    ensures Inv(f, s') && IdealStep(f, cap, Abs(f, s), s.space, s.now, ev, a, Abs(f, s'), s'.space)
  {
    RoomRefines(f, cap, s, ev, a, s');
    match ev
    case Tick(dt) => TickRefines(f, cap, s, dt, s');
    case AddElem(d, ext, exist) => AddRefines(f, cap, s, d, ext, exist, a, s');
    case Gc => GcRefines(f, cap, s, a, s');
    case DelElem(d) => DelRefines(f, cap, s, d, a, s');
    case TestElem(d, ext, fl) => TestRefines(f, cap, s, d, ext, fl, a, s');
    case _ => IdleRefines(f, cap, s, ev, a, s');
  }

  /** Every run of the set is, answer for answer, a run of the plain timed map. */
  lemma RunRefines(f: Features, cap: nat, states: seq<State>, events: seq<Event>, answers: seq<Answer>)
    requires Run(f, cap, states, events, answers)
    ensures Abs(f, states[0]) == map[]
    ensures forall k :: 0 <= k < |events| ==>
              IdealStep(f, cap, Abs(f, states[k]), states[k].space, states[k].now, events[k], answers[k],
                        Abs(f, states[k + 1]), states[k + 1].space)
  {
    forall k | 0 <= k < |events|
      ensures IdealStep(f, cap, Abs(f, states[k]), states[k].space, states[k].now, events[k], answers[k],
                        Abs(f, states[k + 1]), states[k + 1].space)
    {
      RunInv(f, cap, states, events, answers, k);
      StepRefines(f, cap, states[k], events[k], answers[k], states[k + 1]);
    }
  }

  // ---------------------------------------------------------------- counters of a new member

  /** Do the two slots read the same through the extensions of the set? */
  predicate ReadsAs(f: Features, s: Slot, t: Slot) {
    && s.dom == t.dom
    && (f.timeout ==> s.deadline == t.deadline)
    && (f.counter ==> s.bytes == t.bytes && s.packets == t.packets)
    && (f.skbinfo ==> s.skb == t.skb)
  }

  /** Every counter that was not given was zero in the slot. */
  predicate CleanSlot(f: Features, base: Slot, ext: Ext) {
    f.counter ==> (ext.bytes != ULLONG_MAX || base.bytes == 0) && (ext.packets != ULLONG_MAX || base.packets == 0)
  }

  /** A member added anew reads as one written on blank memory exactly when every counter that was not given is zero in
      the slot that the add chooses in the table it finds: the slot's old counters are not cleared. */
  lemma FreshCountersIff(f: Features, rows: seq<Row>, rows': seq<Row>, h: Hash, m: Entries, m': Entries, d: string,
                         ext: Ext, now: Timeout.Tick, i: nat)
    requires Represents(rows, h, m) && (d !in m || Dead(f, m[d], now))
    requires Takes(f, BucketAt(rows[Key(h, d, |rows|)]), d, now, i)
    requires var k := Key(h, d, |rows|);
             var b := BucketAt(rows[k]);
             rows' == rows[k := Some(Filled(b, i, NewSlot(f, SlotAt(b, i), d, ext, now)))] && Represents(rows', h, m')
    ensures d in m' && (ReadsAs(f, m'[d], NewSlot(f, BLANK, d, ext, now)) <==>
                          CleanSlot(f, SlotAt(BucketAt(rows[Key(h, d, |rows|)]), i), ext))
  {
    var k := Key(h, d, |rows|);
    HoldsRow(rows', h, m', k);
    assert InUse(rows'[k].value, i);
  }
}
