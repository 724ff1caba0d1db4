/** Who frees a replaced hash table: dumpers and the resizer, one memory access at a time. */
module TableLifetime {
  import opened Sets

  /** ref: set by a resize; uref: dumpers and the resizer that hold the table; frees: times it was destroyed. */
  datatype Table = Table(ref: bool, uref: nat, frees: nat)

  /** A dumper inside its RCU section, holding a count, or between the decrement that reached zero and its read of
      ref; early tells that the table was still the current one at that decrement. */
  datatype Dumper = Reading(t: nat) | Holding(t: nat) | Deciding(t: nat, early: bool)

  datatype Resizer =
    | Resting
    | Allocated(fresh_: nat)     // new table built, set lock taken next
    | Marked(fresh_: nat)        // ref of the current table is set
    | Copying(fresh_: nat)       // and its uref is taken
    | Failing(fresh_: nat)       // ref cleared again
    | Destroying(fresh_: nat)    // uref given back; the new table is about to go
    | Waiting(old_: nat)         // new table published, grace period running
    | Synced(old_: nat)          // grace period over
    | Freeing(old_: nat)         // the resizer's was the last count

  datatype State = State(current: nat, tables: map<nat, Table>, dumpers: map<nat, Dumper>, resizer: Resizer)

  datatype Action =
    | Read(d: nat) | Inc(d: nat) | Dec(d: nat) | Check(d: nat)
    | Alloc(t: nat) | Mark | Count | Fail | Uncount | DestroyNew | Swap | Sync | DropOld | FreeOld

  const Init: State := State(0, map[0 := Table(false, 0, 0)], map[], Resting)

  /** Every order of accesses that the code allows. */
  predicate Enabled(s: State, a: Action) {
    s.current in s.tables &&
    match a
    case Read(d) => d !in s.dumpers
    case Inc(d) => d in s.dumpers && s.dumpers[d].Reading? && s.dumpers[d].t in s.tables
    case Dec(d) =>
      d in s.dumpers && s.dumpers[d].Holding? && s.dumpers[d].t in s.tables && s.tables[s.dumpers[d].t].uref > 0
    case Check(d) => d in s.dumpers && s.dumpers[d].Deciding? && s.dumpers[d].t in s.tables
    case Alloc(t) => s.resizer.Resting? && t !in s.tables
    case Mark => s.resizer.Allocated?
    case Count => s.resizer.Marked?
    case Fail => s.resizer.Copying?
    case Uncount => s.resizer.Failing? && s.tables[s.current].uref > 0
    case DestroyNew => s.resizer.Destroying? && s.resizer.fresh_ in s.tables
    case Swap => s.resizer.Copying?
    case Sync => s.resizer.Waiting? && !exists d :: d in s.dumpers && s.dumpers[d] == Reading(s.resizer.old_)
    case DropOld => s.resizer.Synced? && s.resizer.old_ in s.tables && s.tables[s.resizer.old_].uref > 0
    case FreeOld => s.resizer.Freeing? && s.resizer.old_ in s.tables
  }

  function Put(s: State, t: nat, x: Table): State {
    s.(tables := s.tables[t := x])
  }

  function Destroy(s: State, t: nat): State
    requires t in s.tables
  {
    Put(s, t, s.tables[t].(frees := s.tables[t].frees + 1))
  }

  function Gone(s: State, d: nat): State {
    s.(dumpers := s.dumpers - {d})
  }

  function Apply(s: State, a: Action): State
    requires Enabled(s, a)
  {
    var cur := s.tables[s.current];
    match a
    case Read(d) => s.(dumpers := s.dumpers[d := Reading(s.current)])
    case Inc(d) =>
      var t := s.dumpers[d].t;
      Put(s, t, s.tables[t].(uref := s.tables[t].uref + 1)).(dumpers := s.dumpers[d := Holding(t)])
    case Dec(d) =>
      var t := s.dumpers[d].t;
      var s' := Put(s, t, s.tables[t].(uref := s.tables[t].uref - 1));
      if s.tables[t].uref == 1 then s'.(dumpers := s.dumpers[d := Deciding(t, t == s.current)]) else Gone(s', d)
    case Check(d) =>
      var t := s.dumpers[d].t;
      Gone(if s.tables[t].ref then Destroy(s, t) else s, d)
    case Alloc(t) => Put(s, t, Table(false, 0, 0)).(resizer := Allocated(t))
    case Mark => Put(s, s.current, cur.(ref := true)).(resizer := Marked(s.resizer.fresh_))
    case Count => Put(s, s.current, cur.(uref := cur.uref + 1)).(resizer := Copying(s.resizer.fresh_))
    case Fail => Put(s, s.current, cur.(ref := false)).(resizer := Failing(s.resizer.fresh_))
    case Uncount => Put(s, s.current, cur.(uref := cur.uref - 1)).(resizer := Destroying(s.resizer.fresh_))
    case DestroyNew => Destroy(s, s.resizer.fresh_).(resizer := Resting)
    case Swap => s.(current := s.resizer.fresh_, resizer := Waiting(s.current))
    case Sync => s.(resizer := Synced(s.resizer.old_))
    case DropOld =>
      var t := s.resizer.old_;
      Put(s, t, s.tables[t].(uref := s.tables[t].uref - 1)).(
        resizer := if s.tables[t].uref == 1 then Freeing(t) else Resting)
    case FreeOld => Destroy(s, s.resizer.old_).(resizer := Resting)
  }

  predicate RunOk(s: State, acts: seq<Action>)
    decreases |acts|
  {
    acts == [] || (Enabled(s, acts[0]) && RunOk(Apply(s, acts[0]), acts[1..]))
  }

  function After(s: State, acts: seq<Action>): State
    requires RunOk(s, acts)
    decreases |acts|
  {
    if acts == [] then s else After(Apply(s, acts[0]), acts[1..])
  }

  /** Does the resizer still use table t? */
  predicate ResizerUses(r: Resizer, current: nat, t: nat) {
    match r
    case Resting => false
    case Allocated(n) => t == n
    case Marked(n) => t == n || t == current
    case Copying(n) => t == n || t == current
    case Failing(n) => t == n || t == current
    case Destroying(n) => t == n
    case Waiting(o) => t == o
    case Synced(o) => t == o
    case Freeing(o) => t == o
  }

  /** No table is destroyed twice, or while it is current or anybody still uses it. */
  predicate Safe(s: State) {
    forall t :: t in s.tables && s.tables[t].frees > 0 ==>
      && s.tables[t].frees == 1
      && t != s.current
      && (forall d :: d in s.dumpers ==> s.dumpers[d].t != t)
      && !ResizerUses(s.resizer, s.current, t)
  }

  /** Every state of a run is safe. */
  ghost predicate AlwaysSafe(s: State, acts: seq<Action>)
    requires RunOk(s, acts)
    decreases |acts|
  {
    Safe(s) && (acts != [] ==> AlwaysSafe(Apply(s, acts[0]), acts[1..]))
  }

  /** The step destroys table t. */
  predicate Destroys(s: State, a: Action, t: nat)
    requires Enabled(s, a)
  {
    match a
    case Check(d) => s.dumpers[d].t == t && s.tables[t].ref
    case DestroyNew => s.resizer.fresh_ == t
    case FreeOld => s.resizer.old_ == t
    case _ => false
  }

  /** The step destroys a table while a dumper that let go of it before it was replaced has not yet read ref. */
  ghost predicate Overtakes(s: State, a: Action)
    requires Enabled(s, a)
  {
    exists d :: d in s.dumpers && s.dumpers[d].Deciding? && s.dumpers[d].early && Destroys(s, a, s.dumpers[d].t)
  }

  ghost predicate NeverOvertaken(s: State, acts: seq<Action>)
    requires RunOk(s, acts)
    decreases |acts|
  {
    acts != [] ==> !Overtakes(s, acts[0]) && NeverOvertaken(Apply(s, acts[0]), acts[1..])
  }

  // ---------------------------------------------------------------- counting dumpers

  ghost function At(ds: map<nat, Dumper>, x: Dumper): set<nat> {
    set d | d in ds && ds[d] == x
  }

  /** How many dumpers are in position x. */
  ghost function Cnt(ds: map<nat, Dumper>, x: Dumper): nat {
    |At(ds, x)|
  }

  lemma AtPut(ds: map<nat, Dumper>, d: nat, y: Dumper, x: Dumper)
    ensures At(ds[d := y], x) - {d} == At(ds, x) - {d}
    ensures d in At(ds[d := y], x) <==> x == y
    ensures d in At(ds, x) <==> d in ds && ds[d] == x
  {
  }

  lemma CntPut(ds: map<nat, Dumper>, d: nat, y: Dumper, x: Dumper)
    ensures Cnt(ds[d := y], x) == Cnt(ds, x) - (if d in ds && ds[d] == x then 1 else 0) + (if x == y then 1 else 0)
  {
    AtPut(ds, d, y, x);
    hide At;
    CardWithout(At(ds, x), d);
    CardWithout(At(ds[d := y], x), d);
  }

  lemma CntRemove(ds: map<nat, Dumper>, d: nat, x: Dumper)
    ensures Cnt(ds - {d}, x) == Cnt(ds, x) - (if d in ds && ds[d] == x then 1 else 0)
  {
    assert At(ds - {d}, x) == At(ds, x) - {d};
    CardWithout(At(ds, x), d);
  }

  lemma CntPositive(ds: map<nat, Dumper>, d: nat)
    requires d in ds
    ensures Cnt(ds, ds[d]) >= 1
  {
    assert d in At(ds, ds[d]);
  }

  lemma CntAbsent(ds: map<nat, Dumper>, x: Dumper)
    requires forall d :: d in ds ==> ds[d] != x
    ensures Cnt(ds, x) == 0
  {
    assert At(ds, x) == {};
  }

  lemma CntSome(ds: map<nat, Dumper>, x: Dumper) returns (d: nat)
    requires Cnt(ds, x) > 0
    ensures d in ds && ds[d] == x
  {
    assert At(ds, x) != {};
    d :| d in At(ds, x);
  }

  // ---------------------------------------------------------------- what every interleaving keeps

  /** The resizer's own count on t. */
  function ResizerCount(s: State, t: nat): nat {
    if t == s.current then (if s.resizer.Copying? || s.resizer.Failing? then 1 else 0)
    else if s.resizer == Waiting(t) || s.resizer == Synced(t) then 1 else 0
  }

  /** The table being built and not published. */
  predicate Private(r: Resizer, t: nat) {
    (r.Allocated? || r.Marked? || r.Copying? || r.Failing? || r.Destroying?) && r.fresh_ == t
  }

  /** A replaced table has been destroyed, or somebody is left who will find ref set and nobody else on it. */
  ghost predicate TableKept(s: State, t: nat)
    requires t in s.tables
  {
    var x := s.tables[t];
    && x.uref == Cnt(s.dumpers, Holding(t)) + ResizerCount(s, t)
    && if Private(s.resizer, t) then x == Table(false, 0, 0) && t != s.current
       else if t == s.current then x.ref <==> s.resizer.Marked? || s.resizer.Copying?
       else x.frees > 0
            || (x.ref && (x.uref > 0 || Cnt(s.dumpers, Deciding(t, false)) > 0 || s.resizer == Freeing(t)))
  }

  ghost predicate DumperKept(s: State, d: nat)
    requires d in s.dumpers
  {
    var x := s.dumpers[d];
    && x.t in s.tables && !Private(s.resizer, x.t)
    && (x.Reading? ==> x.t == s.current || s.resizer == Waiting(x.t))
    && (x.Deciding? && !x.early ==> x.t != s.current)
  }

  ghost predicate Kept(s: State) {
    && s.current in s.tables
    && (forall t :: t in s.tables ==> TableKept(s, t))
    && (forall d :: d in s.dumpers ==> DumperKept(s, d))
    && (forall t :: ResizerUses(s.resizer, s.current, t) ==> t in s.tables)
    && (s.resizer.Waiting? || s.resizer.Synced? || s.resizer.Freeing? ==> s.resizer.old_ != s.current)
  }

  lemma DumperStepKept(s: State, a: Action)
    requires Kept(s) && Enabled(s, a) && (a.Read? || a.Inc? || a.Dec? || a.Check?)
    ensures Kept(Apply(s, a))
  {
    hide Cnt;
    DumperTablesKept(s, a);
    var s' := Apply(s, a);
    assert TableKept(s, s.current);
    hide TableKept;
    if !a.Read? {
      assert DumperKept(s, a.d);
    }
    forall e | e in s'.dumpers ensures DumperKept(s', e) {
      assert e in s.dumpers ==> DumperKept(s, e);
    }
  }

  lemma DumperTablesKept(s: State, a: Action)
    requires Kept(s) && Enabled(s, a) && (a.Read? || a.Inc? || a.Dec? || a.Check?)
    ensures forall t :: t in Apply(s, a).tables ==> TableKept(Apply(s, a), t)
  {
    hide Cnt;
    var s' := Apply(s, a);
    if !a.Read? {
      assert DumperKept(s, a.d);
      CntPositive(s.dumpers, a.d);
    }
    forall t | t in s'.tables ensures TableKept(s', t) {
      DumperCounts(s, a, t);
      assert TableKept(s, t);
    }
  }

  /** How a dumper's step moves the counts. */
  lemma DumperCounts(s: State, a: Action, t: nat)
    requires Enabled(s, a) && (a.Read? || a.Inc? || a.Dec? || a.Check?)
    ensures var s' := Apply(s, a);
            var was := if a.Read? then Reading(s.current) else s.dumpers[a.d];
            && Cnt(s'.dumpers, Holding(t)) == Cnt(s.dumpers, Holding(t))
                 - (if was == Holding(t) then 1 else 0) + (if a.Inc? && was == Reading(t) then 1 else 0)
            && Cnt(s'.dumpers, Deciding(t, false)) == Cnt(s.dumpers, Deciding(t, false))
                 - (if was == Deciding(t, false) then 1 else 0)
                 + (if a.Dec? && was == Holding(t) && s.tables[was.t].uref == 1 && t != s.current then 1 else 0)
  {
    hide Cnt;
    var ds, d := s.dumpers, a.d;
    CntRemove(ds, d, Holding(t));
    CntRemove(ds, d, Deciding(t, false));
    match a
    case Read(_) =>
      CntPut(ds, d, Reading(s.current), Holding(t));
      CntPut(ds, d, Reading(s.current), Deciding(t, false));
    case Inc(_) =>
      CntPut(ds, d, Holding(ds[d].t), Holding(t));
      CntPut(ds, d, Holding(ds[d].t), Deciding(t, false));
    case Dec(_) =>
      CntPut(ds, d, Deciding(ds[d].t, ds[d].t == s.current), Holding(t));
      CntPut(ds, d, Deciding(ds[d].t, ds[d].t == s.current), Deciding(t, false));
    case Check(_) =>
  }

  lemma BuildKept(s: State, a: Action)
    requires Kept(s) && Enabled(s, a) && (a.Alloc? || a.Mark? || a.Count?)
    ensures Kept(Apply(s, a))
  {
    hide Cnt;
    var s' := Apply(s, a);
    if a.Alloc? {
      assert forall d :: d in s.dumpers ==> DumperKept(s, d);
      CntAbsent(s.dumpers, Holding(a.t));
    }
    forall t | t in s'.tables ensures TableKept(s', t) {
      assert t in s.tables ==> TableKept(s, t);
    }
    forall e | e in s'.dumpers ensures DumperKept(s', e) { assert DumperKept(s, e); }
  }

  lemma AbandonKept(s: State, a: Action)
    requires Kept(s) && Enabled(s, a) && (a.Fail? || a.Uncount? || a.DestroyNew?)
    ensures Kept(Apply(s, a))
  {
    hide Cnt;
    var s' := Apply(s, a);
    forall t | t in s'.tables ensures TableKept(s', t) { assert TableKept(s, t); }
    forall e | e in s'.dumpers ensures DumperKept(s', e) { assert DumperKept(s, e); }
  }

  lemma ReplaceKept(s: State, a: Action)
    requires Kept(s) && Enabled(s, a) && (a.Swap? || a.Sync?)
    ensures Kept(Apply(s, a))
  {
    hide Cnt;
    var s' := Apply(s, a);
    forall t | t in s'.tables ensures TableKept(s', t) { assert TableKept(s, t); }
    forall e | e in s'.dumpers ensures DumperKept(s', e) { assert DumperKept(s, e); }
  }

  lemma DropKept(s: State, a: Action)
    requires Kept(s) && Enabled(s, a) && (a.DropOld? || a.FreeOld?)
    ensures Kept(Apply(s, a))
  {
    hide Cnt;
    var s' := Apply(s, a);
    forall t | t in s'.tables ensures TableKept(s', t) { assert TableKept(s, t); }
    forall e | e in s'.dumpers ensures DumperKept(s', e) { assert DumperKept(s, e); }
  }

  lemma StepKept(s: State, a: Action)
    requires Kept(s) && Enabled(s, a)
    ensures Kept(Apply(s, a))
  {
    match a
    case Alloc(_) => BuildKept(s, a);
    case Mark => BuildKept(s, a);
    case Count => BuildKept(s, a);
    case Fail => AbandonKept(s, a);
    case Uncount => AbandonKept(s, a);
    case DestroyNew => AbandonKept(s, a);
    case Swap => ReplaceKept(s, a);
    case Sync => ReplaceKept(s, a);
    case DropOld => DropKept(s, a);
    case FreeOld => DropKept(s, a);
    case _ => DumperStepKept(s, a);
  }

  /** Nobody is ever stuck: in every state that is kept a dumper can start, and every dumper can take its next
      access. */
  lemma DumperNeverStuck(s: State, d: nat)
    requires Kept(s)
    ensures d !in s.dumpers <==> Enabled(s, Read(d))
    ensures d in s.dumpers ==> Enabled(s, Inc(d)) || Enabled(s, Dec(d)) || Enabled(s, Check(d))
  {
    if d in s.dumpers {
      assert DumperKept(s, d);
      assert TableKept(s, s.dumpers[d].t);
      CntPositive(s.dumpers, d);
    }
    hide Cnt;
  }

  /** And the resizer can take its next, except that the end of the grace period waits for the readers of the replaced
      table. */
  lemma ResizerNeverStuck(s: State, t: nat)
    requires Kept(s)
    ensures s.resizer.Resting? && t !in s.tables ==> Enabled(s, Alloc(t))
    ensures s.resizer.Allocated? ==> Enabled(s, Mark)
    ensures s.resizer.Marked? ==> Enabled(s, Count)
    ensures s.resizer.Copying? ==> Enabled(s, Swap) && Enabled(s, Fail)
    ensures s.resizer.Failing? ==> Enabled(s, Uncount)
    ensures s.resizer.Destroying? ==> Enabled(s, DestroyNew)
    ensures s.resizer.Waiting? ==>
              (Enabled(s, Sync) <==> forall e :: e in s.dumpers ==> s.dumpers[e] != Reading(s.resizer.old_))
    ensures s.resizer.Synced? ==> Enabled(s, DropOld)
    ensures s.resizer.Freeing? ==> Enabled(s, FreeOld)
  {
    hide Cnt;
    assert TableKept(s, s.current);
    if s.resizer.Synced? {
      assert ResizerUses(s.resizer, s.current, s.resizer.old_);
      assert TableKept(s, s.resizer.old_);
    }
    if s.resizer.Freeing? {
      assert ResizerUses(s.resizer, s.current, s.resizer.old_);
    }
    if s.resizer.Destroying? {
      assert ResizerUses(s.resizer, s.current, s.resizer.fresh_);
    }
  }

  lemma {:induction false} RunKept(s: State, acts: seq<Action>)
    requires Kept(s) && RunOk(s, acts)
    ensures Kept(After(s, acts))
    decreases |acts|
  {
    if acts != [] {
      StepKept(s, acts[0]);
      hide Kept;
      RunKept(Apply(s, acts[0]), acts[1..]);
    }
  }

  lemma InitKept()
    ensures Kept(Init) && Clean(Init) && EarlyUnmarked(Init) && RefStays(Init)
  {
    hide Kept, Clean, EarlyUnmarked, RefStays;
    EmptyKept(Init);
    NoDumpers(Init);
  }

  lemma NoDumpers(s: State)
    requires s.dumpers == map[]
    ensures EarlyUnmarked(s) && RefStays(s)
  {
  }

  lemma EmptyKept(s: State)
    requires s.dumpers == map[] && s.resizer.Resting? && s.current in s.tables
    requires forall t :: t in s.tables ==> t == s.current && s.tables[t] == Table(false, 0, 0)
    ensures Kept(s) && Clean(s)
  {
    CntAbsent(s.dumpers, Holding(s.current));
    CntAbsent(s.dumpers, Deciding(s.current, false));
  }

  /** In every interleaving, once all dumpers have finished and no resize is under way, every table but the current
      one has been destroyed. */
  lemma NoLeak(acts: seq<Action>)
    requires RunOk(Init, acts)
    ensures var s := After(Init, acts);
            s.dumpers == map[] && s.resizer.Resting? ==>
              forall t :: t in s.tables && t != s.current ==> s.tables[t].frees > 0
  {
    hide Cnt, RunOk, TableKept;
    InitKept();
    RunKept(Init, acts);
    var s := After(Init, acts);
    if s.dumpers == map[] && s.resizer.Resting? {
      forall t | t in s.tables && t != s.current ensures s.tables[t].frees > 0 {
        QuietTable(s, t);
      }
    }
  }

  lemma QuietTable(s: State, t: nat)
    requires t in s.tables && TableKept(s, t) && s.dumpers == map[] && s.resizer.Resting? && t != s.current
    ensures s.tables[t].frees > 0
  {
    CntAbsent(s.dumpers, Holding(t));
    CntAbsent(s.dumpers, Deciding(t, false));
  }

  // ---------------------------------------------------------------- what a run keeps until a dumper is overtaken

  /** For a replaced table the destructions done and still due add up to one as soon as the last count is gone. */
  ghost predicate TableClean(s: State, t: nat)
    requires t in s.tables
  {
    var x := s.tables[t];
    && (x.frees > 0 ==> forall d :: d in s.dumpers ==> s.dumpers[d] != Deciding(t, true))
    && if Private(s.resizer, t) || t == s.current then x.frees == 0
       else
         && (x.ref || x.frees > 0)
         && x.frees + Cnt(s.dumpers, Deciding(t, false)) + (if s.resizer == Freeing(t) then 1 else 0)
            == (if x.uref == 0 then 1 else 0)
  }

  ghost predicate Clean(s: State) {
    forall t :: t in s.tables ==> TableClean(s, t)
  }

  lemma LateAbsent(s: State, t: nat)
    requires Kept(s) && t == s.current
    ensures Cnt(s.dumpers, Deciding(t, false)) == 0
  {
    forall d | d in s.dumpers ensures s.dumpers[d] != Deciding(t, false) { assert DumperKept(s, d); }
    CntAbsent(s.dumpers, Deciding(t, false));
  }

  lemma DumperStepClean(s: State, a: Action)
    requires Kept(s) && Clean(s) && Enabled(s, a) && !Overtakes(s, a) && (a.Read? || a.Inc? || a.Dec? || a.Check?)
    ensures Clean(Apply(s, a))
  {
    hide Cnt;
    var s' := Apply(s, a);
    if !a.Read? {
      assert DumperKept(s, a.d);
      CntPositive(s.dumpers, a.d);
    }
    forall t | t in s'.tables ensures TableClean(s', t) {
      DumperCounts(s, a, t);
      assert TableKept(s, t) && TableClean(s, t);
    }
  }

  lemma BuildClean(s: State, a: Action)
    requires Kept(s) && Clean(s) && Enabled(s, a) && !Overtakes(s, a) && (a.Alloc? || a.Mark? || a.Count?)
    ensures Clean(Apply(s, a))
  {
    hide Cnt;
    var s' := Apply(s, a);
    forall t | t in s'.tables ensures TableClean(s', t) {
      assert t in s.tables ==> TableKept(s, t) && TableClean(s, t);
    }
  }

  lemma AbandonClean(s: State, a: Action)
    requires Kept(s) && Clean(s) && Enabled(s, a) && !Overtakes(s, a) && (a.Fail? || a.Uncount? || a.DestroyNew?)
    ensures Clean(Apply(s, a))
  {
    hide Cnt;
    var s' := Apply(s, a);
    if a.DestroyNew? {
      PrivateUnseen(s, s.resizer.fresh_);
    }
    forall t | t in s'.tables ensures TableClean(s', t) {
      assert t in s.tables ==> TableKept(s, t) && TableClean(s, t);
    }
  }

  lemma ReplaceClean(s: State, a: Action)
    requires Kept(s) && Clean(s) && Enabled(s, a) && !Overtakes(s, a) && (a.Swap? || a.Sync?)
    ensures Clean(Apply(s, a))
  {
    hide Cnt;
    var s' := Apply(s, a);
    LateAbsent(s, s.current);
    forall t | t in s'.tables ensures TableClean(s', t) {
      assert t in s.tables ==> TableKept(s, t) && TableClean(s, t);
    }
  }

  lemma DropClean(s: State, a: Action)
    requires Kept(s) && Clean(s) && Enabled(s, a) && !Overtakes(s, a) && (a.DropOld? || a.FreeOld?)
    ensures Clean(Apply(s, a))
  {
    hide Cnt;
    var s' := Apply(s, a);
    forall t | t in s'.tables ensures TableClean(s', t) {
      assert t in s.tables ==> TableKept(s, t) && TableClean(s, t);
    }
  }

  lemma ResizerStepClean(s: State, a: Action)
    requires Kept(s) && Clean(s) && Enabled(s, a) && !Overtakes(s, a) && !a.Read? && !a.Inc? && !a.Dec? && !a.Check?
    ensures Clean(Apply(s, a))
  {
    hide *;
    if a.Alloc? || a.Mark? || a.Count? {
      BuildClean(s, a);
    } else if a.Swap? || a.Sync? {
      ReplaceClean(s, a);
    } else if a.DropOld? || a.FreeOld? {
      DropClean(s, a);
    } else {
      AbandonClean(s, a);
    }
  }

  lemma PrivateUnseen(s: State, t: nat)
    requires Kept(s) && Private(s.resizer, t)
    ensures forall d :: d in s.dumpers ==> s.dumpers[d].t != t
    ensures Cnt(s.dumpers, Deciding(t, false)) == 0
  {
    assert forall d :: d in s.dumpers ==> DumperKept(s, d);
    CntAbsent(s.dumpers, Deciding(t, false));
  }

  /** The conservation law leaves no room for a user of a destroyed table. */
  lemma CleanSafe(s: State)
    requires Kept(s) && Clean(s)
    ensures Safe(s)
  {
    hide Cnt;
    forall t | t in s.tables && s.tables[t].frees > 0
      ensures s.tables[t].frees == 1 && t != s.current
      ensures forall d :: d in s.dumpers ==> s.dumpers[d].t != t
      ensures !ResizerUses(s.resizer, s.current, t)
    {
      assert TableKept(s, t) && TableClean(s, t);
      forall d | d in s.dumpers ensures s.dumpers[d].t != t {
        assert DumperKept(s, d);
        CntPositive(s.dumpers, d);
      }
    }
  }

  /** Destroying a table over the head of such a dumper is never safe: the table is current, or the resizer still
      uses it, or somebody else does who would destroy it properly. */
  lemma OvertakesUnsafe(s: State, a: Action)
    requires Kept(s) && Clean(s) && Enabled(s, a) && Overtakes(s, a)
    ensures !Safe(Apply(s, a))
  {
    hide Cnt;
    var s' := Apply(s, a);
    var d :| d in s.dumpers && s.dumpers[d].Deciding? && s.dumpers[d].early && Destroys(s, a, s.dumpers[d].t);
    var t := s.dumpers[d].t;
    assert DumperKept(s, d) && TableKept(s, t) && TableClean(s, t);
    assert t in s'.tables && s'.tables[t].frees > 0;
    if d in s'.dumpers {
      assert s'.dumpers[d].t == t;
    } else if t != s.current && !ResizerUses(s.resizer, s.current, t) {
      assert a == Check(d);
      var e;
      if s.tables[t].uref > 0 {
        e := CntSome(s.dumpers, Holding(t));
      } else {
        e := CntSome(s.dumpers, Deciding(t, false));
      }
      assert e in s'.dumpers && s'.dumpers[e].t == t;
    }
  }

  /** An interleaving is safe exactly when no table is destroyed over the head of a dumper that brought its count to
      zero while it was still current and has not yet read ref. */
  lemma {:induction false} SafeFromIff(s: State, acts: seq<Action>)
    requires Kept(s) && Clean(s) && RunOk(s, acts)
    ensures AlwaysSafe(s, acts) <==> NeverOvertaken(s, acts)
    decreases |acts|
  {
    CleanSafe(s);
    if acts != [] {
      var a := acts[0];
      StepKept(s, a);
      if Overtakes(s, a) {
        OvertakesUnsafe(s, a);
      } else {
        if a.Read? || a.Inc? || a.Dec? || a.Check? { DumperStepClean(s, a); } else { ResizerStepClean(s, a); }
        hide Kept, Clean, Safe, Overtakes;
        SafeFromIff(Apply(s, a), acts[1..]);
      }
    }
  }

  lemma SafeIff(acts: seq<Action>)
    requires RunOk(Init, acts)
    ensures AlwaysSafe(Init, acts) <==> NeverOvertaken(Init, acts)
  {
    hide *;
    InitKept();
    SafeFromIff(Init, acts);
  }

  lemma {:induction false} SafeAfter(s: State, acts: seq<Action>)
    requires RunOk(s, acts) && AlwaysSafe(s, acts)
    ensures Safe(After(s, acts))
    decreases |acts|
  {
    hide Safe;
    if acts != [] {
      SafeAfter(Apply(s, acts[0]), acts[1..]);
    }
  }

  /** In a safe interleaving every replaced table is destroyed exactly once, and the current one never. */
  lemma FreedExactlyOnce(acts: seq<Action>)
    requires RunOk(Init, acts) && AlwaysSafe(Init, acts)
    ensures var s := After(Init, acts);
            s.dumpers == map[] && s.resizer.Resting? ==>
              forall t :: t in s.tables ==> s.tables[t].frees == (if t == s.current then 0 else 1)
  {
    hide RunOk, AlwaysSafe;
    NoLeak(acts);
    SafeAfter(Init, acts);
  }

  // ---------------------------------------------------------------- the same condition over reads of ref

  /** A dumper that brought the count of a table to zero before it was replaced finds ref set. */
  predicate StaleRead(s: State, a: Action)
    requires Enabled(s, a)
  {
    a.Check? && s.dumpers[a.d].early && s.tables[s.dumpers[a.d].t].ref
  }

  ghost predicate NoStaleRead(s: State, acts: seq<Action>)
    requires RunOk(s, acts)
    decreases |acts|
  {
    acts != [] ==> !StaleRead(s, acts[0]) && NoStaleRead(Apply(s, acts[0]), acts[1..])
  }

  /** A replaced table that a dumper still knows keeps its mark. */
  ghost predicate RefStays(s: State) {
    forall d :: d in s.dumpers && s.dumpers[d].t != s.current ==>
      s.dumpers[d].t in s.tables && s.tables[s.dumpers[d].t].ref
  }

  lemma StepRefStays(s: State, a: Action)
    requires Kept(s) && RefStays(s) && Enabled(s, a)
    ensures RefStays(Apply(s, a))
  {
    hide Cnt;
    assert TableKept(s, s.current);
    hide TableKept;
    assert forall d :: d in s.dumpers ==> DumperKept(s, d);
  }

  /** Once its table is replaced, such a dumper will find ref set. */
  lemma {:induction false} StaleComes(s: State, acts: seq<Action>, d: nat)
    requires Kept(s) && RefStays(s) && RunOk(s, acts) && d !in After(s, acts).dumpers
    requires d in s.dumpers && s.dumpers[d].Deciding? && s.dumpers[d].early && s.dumpers[d].t != s.current
    ensures !NoStaleRead(s, acts)
    decreases |acts|
  {
    var a := acts[0];
    if a != Check(d) {
      StepKept(s, a);
      StepRefStays(s, a);
      StillDeciding(s, a, d);
      hide Kept, RefStays, StaleRead;
      StaleComes(Apply(s, a), acts[1..], d);
    }
  }

  lemma StillDeciding(s: State, a: Action, d: nat)
    requires Kept(s) && Enabled(s, a) && a != Check(d)
    requires d in s.dumpers && s.dumpers[d].Deciding? && s.dumpers[d].t != s.current
    ensures var s' := Apply(s, a);
            d in s'.dumpers && s'.dumpers[d] == s.dumpers[d] && s'.dumpers[d].t != s'.current
  {
    hide TableKept;
    assert DumperKept(s, d);
  }

  /** A destruction over the head of such a dumper is its own read, another one's, or is followed by its own. */
  lemma OvertakenIsStale(s: State, acts: seq<Action>)
    requires Kept(s) && RefStays(s) && RunOk(s, acts) && After(s, acts).dumpers == map[]
    requires acts != [] && Overtakes(s, acts[0])
    ensures !NoStaleRead(s, acts)
  {
    var a := acts[0];
    var d :| d in s.dumpers && s.dumpers[d].Deciding? && s.dumpers[d].early && Destroys(s, a, s.dumpers[d].t);
    assert DumperKept(s, d);
    if !StaleRead(s, a) {
      assert s.dumpers[d].t != s.current by {
        if a.Check? { assert DumperKept(s, a.d); }
      }
      StepKept(s, a);
      StepRefStays(s, a);
      StillDeciding(s, a, d);
      hide Kept, RefStays, StaleRead, DumperKept, Destroys;
      StaleComes(Apply(s, a), acts[1..], d);
    }
  }

  lemma {:induction false} StaleIff(s: State, acts: seq<Action>)
    requires Kept(s) && RefStays(s) && RunOk(s, acts) && After(s, acts).dumpers == map[]
    ensures NeverOvertaken(s, acts) <==> NoStaleRead(s, acts)
    decreases |acts|
  {
    if acts != [] {
      var a := acts[0];
      if Overtakes(s, a) {
        OvertakenIsStale(s, acts);
      } else {
        assert !StaleRead(s, a);
        StepKept(s, a);
        StepRefStays(s, a);
        hide Kept, RefStays, StaleRead, Overtakes;
        StaleIff(Apply(s, a), acts[1..]);
      }
    }
  }

  /** Over runs in which all dumpers finish, safety can be read off the order of accesses: no dumper whose last
      decrement came before its table was replaced reads ref while it is set. */
  lemma QuietSafeIff(acts: seq<Action>)
    requires RunOk(Init, acts) && After(Init, acts).dumpers == map[]
    ensures AlwaysSafe(Init, acts) <==> NoStaleRead(Init, acts)
  {
    hide *;
    InitKept();
    SafeIff(acts);
    StaleIff(Init, acts);
  }

  // ---------------------------------------------------------------- two windows

  /** A resize does not begin while a dumper of the current table is about to read ref, and between the resizer's two
      writes ref := 1 and uref + 1 no dumper brings the count to zero. */
  ghost predicate Ordered(s: State, a: Action)
    requires Enabled(s, a)
  {
    && (a.Mark? ==> forall d :: d in s.dumpers && s.dumpers[d].Deciding? ==> s.dumpers[d].t != s.current)
    && (a.Dec? && s.resizer.Marked? && s.dumpers[a.d].t == s.current ==> s.tables[s.current].uref > 1)
  }

  /** Every step of the run is ordered, with the possible exception of step k (of none, if k is negative). */
  ghost predicate OrderedBut(s: State, acts: seq<Action>, k: int)
    requires RunOk(s, acts)
    decreases |acts|
  {
    acts != [] ==> (k == 0 || Ordered(s, acts[0])) && OrderedBut(Apply(s, acts[0]), acts[1..], k - 1)
  }

  ghost predicate EarlyUnmarked(s: State) {
    forall d :: d in s.dumpers && s.dumpers[d].Deciding? && s.dumpers[d].early ==>
      s.dumpers[d].t == s.current && s.current in s.tables && !s.tables[s.current].ref
  }

  lemma OrderedStep(s: State, a: Action)
    requires Kept(s) && EarlyUnmarked(s) && Enabled(s, a) && Ordered(s, a)
    ensures !Overtakes(s, a) && EarlyUnmarked(Apply(s, a))
  {
    hide Cnt;
    assert TableKept(s, s.current);
    if a.Dec? {
      CntPositive(s.dumpers, a.d);
    }
  }

  lemma {:induction false} OrderedFrom(s: State, acts: seq<Action>, k: int)
    requires Kept(s) && EarlyUnmarked(s) && RunOk(s, acts) && k < 0 && OrderedBut(s, acts, k)
    ensures NeverOvertaken(s, acts)
    decreases |acts|
  {
    if acts != [] {
      OrderedStep(s, acts[0]);
      StepKept(s, acts[0]);
      hide Kept, EarlyUnmarked, Overtakes, Ordered;
      OrderedFrom(Apply(s, acts[0]), acts[1..], k - 1);
    }
  }

  /** Keeping both windows clear is enough. Neither alone is, as the two runs below show. */
  lemma OrderedSafe(acts: seq<Action>)
    requires RunOk(Init, acts) && OrderedBut(Init, acts, -1)
    ensures AlwaysSafe(Init, acts)
  {
    hide *;
    InitKept();
    OrderedFrom(Init, acts, -1);
    SafeIff(acts);
  }

  /** One dumper holds the first table. */
  const HELD: State := State(0, map[0 := Table(false, 1, 0)], map[1 := Holding(0)], Resting)

  const HOLD: seq<Action> := [Read(1), Inc(1)]

  /** A dumper between its decrement and its read of ref, overtaken by the start of a resize: the read finds the
      mark and destroys the current table. */
  lemma OvertakenCheck() returns (acts: seq<Action>)
    ensures RunOk(Init, acts) && !AlwaysSafe(Init, acts)
    ensures |acts| == 6 && OrderedBut(Init, acts, 4)
  {
    hide Safe, RunOk, AlwaysSafe, OrderedBut;
    var rest := [Dec(1), Alloc(1), Mark, Check(1)];
    var s3 := Apply(HELD, Dec(1));
    var s4 := Apply(s3, Alloc(1));
    var s5 := Apply(s4, Mark);
    var s6 := Apply(s5, Check(1));
    CurrentFreed(s6);
    Unsafe4(HELD, s3, s4, s5, s6, rest);
    acts := FromStart(rest);
  }

  /** A dumper's last decrement between the two writes that claim the table for a resize. */
  lemma SplitClaim() returns (acts: seq<Action>)
    ensures RunOk(Init, acts) && !AlwaysSafe(Init, acts)
    ensures |acts| == 6 && OrderedBut(Init, acts, 4)
  {
    hide Safe, RunOk, AlwaysSafe, OrderedBut;
    var rest := [Alloc(1), Mark, Dec(1), Check(1)];
    var s3 := Apply(HELD, Alloc(1));
    var s4 := Apply(s3, Mark);
    var s5 := Apply(s4, Dec(1));
    var s6 := Apply(s5, Check(1));
    CurrentFreed(s6);
    Unsafe4(HELD, s3, s4, s5, s6, rest);
    acts := FromStart(rest);
  }

  lemma CurrentFreed(s: State)
    requires s.current in s.tables && s.tables[s.current].frees > 0
    ensures !Safe(s)
  {
  }

  lemma FromStart(rest: seq<Action>) returns (acts: seq<Action>)
    requires RunOk(HELD, rest) && !AlwaysSafe(HELD, rest) && OrderedBut(HELD, rest, 2)
    ensures acts == HOLD + rest && RunOk(Init, acts) && !AlwaysSafe(Init, acts) && OrderedBut(Init, acts, 4)
  {
    hide Safe, RunOk, AlwaysSafe, OrderedBut;
    acts := HOLD + rest;
    var s1 := Apply(Init, Read(1));
    assert Apply(s1, Inc(1)) == HELD;
    assert acts[1..] == [Inc(1)] + rest && acts[1..][1..] == rest;
    UnsafeLater(s1, HELD, acts[1..], 3);
    UnsafeLater(Init, s1, acts, 4);
  }

  lemma Unsafe4(s0: State, s1: State, s2: State, s3: State, s4: State, acts: seq<Action>)
    requires |acts| == 4
    requires Enabled(s0, acts[0]) && s1 == Apply(s0, acts[0]) && Ordered(s0, acts[0])
    requires Enabled(s1, acts[1]) && s2 == Apply(s1, acts[1]) && Ordered(s1, acts[1])
    requires Enabled(s2, acts[2]) && s3 == Apply(s2, acts[2])
    requires Enabled(s3, acts[3]) && s4 == Apply(s3, acts[3]) && Ordered(s3, acts[3])
    requires !Safe(s4)
    ensures RunOk(s0, acts) && !AlwaysSafe(s0, acts) && OrderedBut(s0, acts, 2)
  {
    hide Safe, Enabled, Apply, Ordered;
    UnsafeLater(s3, s4, acts[3..], -1);
    UnsafeLater(s2, s3, acts[2..], 0);
    UnsafeLater(s1, s2, acts[1..], 1);
    UnsafeLater(s0, s1, acts, 2);
  }

  lemma UnsafeLater(s: State, s': State, acts: seq<Action>, k: int)
    requires acts != [] && Enabled(s, acts[0]) && s' == Apply(s, acts[0]) && (k == 0 || Ordered(s, acts[0]))
    requires RunOk(s', acts[1..]) && !AlwaysSafe(s', acts[1..]) && OrderedBut(s', acts[1..], k - 1)
    ensures RunOk(s, acts) && !AlwaysSafe(s, acts) && OrderedBut(s, acts, k)
  {
  }
}
