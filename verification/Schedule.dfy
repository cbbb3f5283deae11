/** What the event loop's timer list does, as functions on values.

  `order` is the list of running timers, kept sorted by due time; `st` holds the fields of
  every timer of the loop.  A pass of the ready loop fires the timers that are due at `now`;
  each firing runs a callback, which may perform any list of timer operations.
 */
module Schedule {
  import opened Basics
  import opened Timespec

  datatype TimerState = TimerState(due: Timespec, interval: int, single: bool, active: bool)

  datatype Loop<!T> = Loop(order: seq<T>, st: map<T, TimerState>)

  datatype Action<T> =
    | Start(t: T, msek: int, single: bool, clock: Timespec)
    | StartLong(t: T, seconds: int, clock: Timespec)
    | Stop(t: T)
    | ChangeInterval(t: T, msek: int)

  /** One emission of a timer's signal, with the due time it fired for. */
  datatype Firing<T> = Firing(t: T, due: Timespec)

  ghost predicate Distinct<T>(order: seq<T>) {
    forall i, j :: 0 <= i < j < |order| ==> order[i] != order[j]
  }

  ghost predicate Sorted<T>(order: seq<T>, st: map<T, TimerState>)
    requires forall t :: t in order ==> t in st
  {
    forall i, j :: 0 <= i < j < |order| ==> LessEq(st[order[i]].due, st[order[j]].due)
  }

  /** The list is duplicate-free and sorted, and every listed timer is known.  Due times need not
      be normal. */
  ghost predicate Listed<T>(s: Loop<T>) {
    && Distinct(s.order)
    && (forall t :: t in s.order ==> t in s.st)
    && Sorted(s.order, s.st)
  }

  /** Between two events the list holds exactly the active timers. */
  ghost predicate Valid<T>(s: Loop<T>) {
    Listed(s) && forall t :: t in s.st ==> (s.st[t].active <==> t in s.order)
  }

  // ---------------------------------------------------------------- list operations

  /** The place where std::lower_bound puts a timer: behind all earlier ones, before its equals. */
  function LowerBound<T>(order: seq<T>, st: map<T, TimerState>, due: Timespec): (k: nat)
    requires forall t :: t in order ==> t in st
    ensures k <= |order|
    ensures forall i :: 0 <= i < k ==> Less(st[order[i]].due, due)
    ensures k < |order| ==> !Less(st[order[k]].due, due)
  {
    if order == [] || !Less(st[order[0]].due, due) then 0 else 1 + LowerBound(order[1..], st, due)
  }

  lemma {:induction false} LowerBoundIs<T>(order: seq<T>, st: map<T, TimerState>, due: Timespec, k: nat)
    requires (forall t :: t in order ==> t in st) && k <= |order|
    requires forall i :: 0 <= i < k ==> Less(st[order[i]].due, due)
    requires k < |order| ==> !Less(st[order[k]].due, due)
    ensures LowerBound(order, st, due) == k
  {
    hide Less;
    if k > 0 {
      LowerBoundIs(order[1..], st, due, k - 1);
    }
  }

  function Add<T>(s: Loop<T>, t: T): Loop<T>
    requires t in s.st && forall u :: u in s.order ==> u in s.st
  {
    var k := LowerBound(s.order, s.st, s.st[t].due);
    s.(order := s.order[..k] + [t] + s.order[k..])
  }

  /** The list without its first occurrence of t. */
  function Without<T(==)>(order: seq<T>, t: T): (r: seq<T>)
    ensures forall u :: u in r ==> u in order
  {
    if order == [] then [] else if order[0] == t then order[1..] else [order[0]] + Without(order[1..], t)
  }

  function Remove<T(==)>(s: Loop<T>, t: T): Loop<T> {
    s.(order := Without(s.order, t))
  }

  // ---------------------------------------------------------------- timer operations

  function DoStop<T(==)>(s: Loop<T>, t: T): (r: Loop<T>)
    requires t in s.st && forall u :: u in s.order ==> u in s.st
    ensures r.st.Keys == s.st.Keys && forall u :: u in r.order ==> u in r.st
  {
    if s.st[t].active then Remove(s.(st := s.st[t := s.st[t].(active := false)]), t) else s
  }

  function DoStart<T(==)>(s: Loop<T>, t: T, msek: int, single: bool, clock: Timespec): Loop<T>
    requires t in s.st && forall u :: u in s.order ==> u in s.st
  {
    var s1 := DoStop(s, t);
    var ts := TimerState(AddMs(clock, if msek < 0 then 0 else msek), msek, single, true);
    Add(s1.(st := s1.st[t := ts]), t)
  }

  function DoStartLong<T(==)>(s: Loop<T>, t: T, seconds: int, clock: Timespec): Loop<T>
    requires t in s.st && forall u :: u in s.order ==> u in s.st
  {
    var s1 := DoStop(s, t);
    var due := if seconds > 0 then clock.(sec := clock.sec + seconds) else clock;
    Add(s1.(st := s1.st[t := TimerState(due, 0, true, true)]), t)
  }

  function DoChange<T(==)>(s: Loop<T>, t: T, msek: int): Loop<T>
    requires t in s.st && forall u :: u in s.order ==> u in s.st
  {
    var ts := s.st[t];
    var s1 := if ts.active then Remove(s, t) else s;
    var due := if ts.active then SubMs(ts.due, ts.interval) else ts.due;
    Add(s1.(st := s1.st[t := TimerState(AddMs(due, msek), msek, ts.single, true)]), t)
  }

  /** The part of activate before the signal: re-arm a periodic timer, retire a single-shot. */
  function DoActivate<T(==)>(s: Loop<T>, t: T): Loop<T>
    requires t in s.st && forall u :: u in s.order ==> u in s.st
  {
    var ts := s.st[t];
    if ts.single then s.(st := s.st[t := ts.(active := false)])
    else Add(s.(st := s.st[t := ts.(due := AddMs(ts.due, ts.interval))]), t)
  }

  function Do<T(==)>(s: Loop<T>, a: Action<T>): Loop<T>
    requires a.t in s.st && forall u :: u in s.order ==> u in s.st
  {
    match a
    case Start(t, msek, single, clock) => DoStart(s, t, msek, single, clock)
    case StartLong(t, seconds, clock) => DoStartLong(s, t, seconds, clock)
    case Stop(t) => DoStop(s, t)
    case ChangeInterval(t, msek) => DoChange(s, t, msek)
  }

  predicate IsDue(ts: TimerState, now: Timespec) { LessEq(ts.due, now) }

  /** An operation a callback may perform: it leaves its timer stopped, or due later than now. */
  predicate Harmless<T(==)>(s: Loop<T>, a: Action<T>, now: Timespec)
    requires forall u :: u in s.order ==> u in s.st
  {
    a.t in s.st && a.t in Do(s, a).st &&
    var ts := Do(s, a).st[a.t];
    !ts.active || !IsDue(ts, now)
  }

  /** Stopping is one, and so is any start, or change of interval, by which the timer is due later. */
  lemma HarmlessAre<T>(s: Loop<T>, t: T, a: Action<T>, now: Timespec)
    requires Valid(s) && t in s.st && a.t == t && !a.Stop?
    ensures t in Do(s, a).st
    ensures Harmless(s, Stop(t), now)
    ensures Harmless(s, a, now) <==> !LessEq(Do(s, a).st[t].due, now)
  {
    StopFacts(s, t);
    DoKeepsValid(s, a);
    match a
    case Start(_, msek, single, clock) => StartIsDue(s, t, msek, single, clock);
    case StartLong(_, seconds, clock) => StartLongIsDue(s, t, seconds, clock);
    case ChangeInterval(_, msek) => ChangeIsDue(s, t, msek);
  }

  /** A callback: its operations in order.  Operations that would make a timer due again are
      left out, so the scripts range over exactly the callbacks that never do that. */
  function Perform<T(==)>(s: Loop<T>, actions: seq<Action<T>>, now: Timespec): Loop<T>
    requires Valid(s)
    decreases actions
  {
    if actions == [] then s
    else if Harmless(s, actions[0], now) then
      DoKeepsValid(s, actions[0]);
      Perform(Do(s, actions[0]), actions[1..], now)
    else Perform(s, actions[1..], now)
  }

  // ---------------------------------------------------------------- operations keep the list valid

  lemma InsertedAt<T>(order: seq<T>, t: T, k: nat)
    requires k <= |order| && Distinct(order) && t !in order
    ensures Distinct(order[..k] + [t] + order[k..])
    ensures forall u :: u in order[..k] + [t] + order[k..] <==> u in order || u == t
  {
    var r := order[..k] + [t] + order[k..];
    assert r[k] == t;
    forall u | u in order
      ensures u in r
    {
      var i :| 0 <= i < |order| && order[i] == u;
      assert r[if i < k then i else i + 1] == u;
    }
  }

  lemma InsertedSorted<T>(order: seq<T>, st: map<T, TimerState>, t: T, k: nat)
    requires (forall u :: u in order ==> u in st) && t in st && k <= |order| && Sorted(order, st)
    requires forall i :: 0 <= i < k ==> LessEq(st[order[i]].due, st[t].due)
    requires forall i :: k <= i < |order| ==> LessEq(st[t].due, st[order[i]].due)
    ensures Sorted(order[..k] + [t] + order[k..], st)
  {
    hide LessEq;
    var r := order[..k] + [t] + order[k..];
    assert forall i :: 0 <= i < k ==> r[i] == order[i];
    assert forall i :: k < i < |r| ==> r[i] == order[i - 1];
    assert r[k] == t;
  }

  lemma AddFacts<T>(s: Loop<T>, t: T)
    requires Listed(s) && t in s.st && t !in s.order
    ensures Listed(Add(s, t)) && Add(s, t).st == s.st
    ensures forall u :: u in Add(s, t).order <==> u in s.order || u == t
  {
    var k := LowerBound(s.order, s.st, s.st[t].due);
    InsertedAt(s.order, t, k);
    InsertedSorted(s.order, s.st, t, k);
  }

  lemma {:induction false} WithoutFacts<T>(order: seq<T>, t: T)
    requires Distinct(order)
    ensures Distinct(Without(order, t))
    ensures forall u :: u in Without(order, t) <==> u in order && u != t
    ensures t !in order ==> Without(order, t) == order
  {
    if order != [] {
      var rest := order[1..];
      WithoutFacts(rest, t);
      assert order == [order[0]] + rest;
      assert order[0] !in rest;
    }
  }

  lemma {:induction false} WithoutAt<T>(order: seq<T>, t: T, i: nat)
    requires i <= |order| && t !in order[..i] && (i < |order| ==> order[i] == t)
    ensures Without(order, t) == if i < |order| then order[..i] + order[i + 1..] else order
  {
    if i > 0 {
      var rest := order[1..];
      assert order[..i] == [order[0]] + rest[..i - 1];
      WithoutAt(rest, t, i - 1);
      assert order == [order[0]] + rest;
    }
  }

  lemma {:induction false} WithoutSorted<T>(order: seq<T>, st: map<T, TimerState>, t: T)
    requires (forall u :: u in order ==> u in st) && Sorted(order, st) && Distinct(order)
    ensures Sorted(Without(order, t), st)
  {
    hide LessEq;
    if order != [] && order[0] != t {
      var rest, w := order[1..], Without(order[1..], t);
      assert forall u :: u in rest ==> u in order;
      WithoutSorted(rest, st, t);
      forall i | 0 <= i < |w|
        ensures LessEq(st[order[0]].due, st[w[i]].due)
      {
        assert w[i] in rest;
        var j :| 0 <= j < |rest| && rest[j] == w[i];
        assert order[j + 1] == w[i];
      }
      hide Without;
      SortedCons(order[0], w, st);
    }
  }

  lemma SortedCons<T>(t: T, order: seq<T>, st: map<T, TimerState>)
    requires t in st && (forall u :: u in order ==> u in st) && Sorted(order, st)
    requires forall i :: 0 <= i < |order| ==> LessEq(st[t].due, st[order[i]].due)
    ensures Sorted([t] + order, st)
  {
    hide LessEq;
  }

  lemma RemoveFacts<T>(s: Loop<T>, t: T)
    requires Listed(s)
    ensures Listed(Remove(s, t)) && t !in Remove(s, t).order
    ensures forall u :: u in Remove(s, t).order <==> u in s.order && u != t
  {
    WithoutFacts(s.order, t);
    WithoutSorted(s.order, s.st, t);
  }

  /** Changing the fields of a timer that is not listed. */
  lemma SetUnlisted<T>(s: Loop<T>, t: T, ts: TimerState)
    requires Listed(s) && t !in s.order
    ensures Listed(s.(st := s.st[t := ts]))
  {
    var r := s.(st := s.st[t := ts]);
    forall i | 0 <= i < |s.order|
      ensures r.st[s.order[i]] == s.st[s.order[i]]
    {
      assert s.order[i] in s.order;
    }
  }

  lemma ValidIsListed<T>(s: Loop<T>)
    requires Valid(s)
    ensures Listed(s) && forall t :: t in s.order ==> t in s.st
  {
  }

  lemma StopInactive<T>(s: Loop<T>, t: T)
    requires t in s.st && (forall u :: u in s.order ==> u in s.st) && !s.st[t].active
    ensures DoStop(s, t) == s
  {
  }

  lemma StopFacts<T>(s: Loop<T>, t: T)
    requires Valid(s) && t in s.st
    ensures Valid(DoStop(s, t)) && !DoStop(s, t).st[t].active && t !in DoStop(s, t).order
    ensures forall u :: u in s.st && u != t ==> DoStop(s, t).st[u] == s.st[u]
    ensures DoStop(s, t).order == Without(s.order, t)
  {
    if s.st[t].active {
      RemoveFacts(s, t);
      SetUnlisted(Remove(s, t), t, s.st[t].(active := false));
    } else {
      WithoutFacts(s.order, t);
    }
  }

  /** Setting a stopped timer's fields and listing it. */
  lemma ArmFacts<T>(s: Loop<T>, t: T, ts: TimerState)
    requires Listed(s) && t !in s.order && ts.active && t in s.st
    requires forall u :: u in s.st && u != t ==> (s.st[u].active <==> u in s.order)
    ensures Valid(Add(s.(st := s.st[t := ts]), t))
  {
    SetUnlisted(s, t, ts);
    AddFacts(s.(st := s.st[t := ts]), t);
  }

  lemma StartFacts<T>(s: Loop<T>, t: T, ts: TimerState)
    requires Valid(s) && t in s.st && ts.active
    ensures var s1 := DoStop(s, t); var r := Add(s1.(st := s1.st[t := ts]), t);
            && Valid(r) && r.st == s.st[t := ts]
            && forall u :: u in r.order <==> u in s.order || u == t
  {
    StopFacts(s, t);
    var s1 := DoStop(s, t);
    WithoutFacts(s.order, t);
    ArmFacts(s1, t, ts);
    SetUnlisted(s1, t, ts);
    AddFacts(s1.(st := s1.st[t := ts]), t);
    assert s1.st[t := ts] == s.st[t := ts];
  }

  lemma ChangeFacts<T>(s: Loop<T>, t: T, msek: int)
    requires Valid(s) && t in s.st
    ensures Valid(DoChange(s, t, msek)) && DoChange(s, t, msek).st.Keys == s.st.Keys
    ensures forall u :: u in s.st && u != t ==> DoChange(s, t, msek).st[u] == s.st[u]
    ensures var ts := s.st[t]; var r := DoChange(s, t, msek).st[t];
            r.active && r.interval == msek && r.single == ts.single
            && Ns(r.due) == Ns(ts.due) - (if ts.active then ts.interval * MS else 0) + msek * MS
  {
    var ts := s.st[t];
    RemoveFacts(s, t);
    SubMsIsExact(ts.due, ts.interval);
    var due := if ts.active then SubMs(ts.due, ts.interval) else ts.due;
    AddMsIsExact(due, msek);
    var s1 := if ts.active then Remove(s, t) else s;
    hide AddMs, SubMs, Add;
    var ts' := TimerState(AddMs(due, msek), msek, ts.single, true);
    ArmFacts(s1, t, ts');
    SetUnlisted(s1, t, ts');
    AddFacts(s1.(st := s1.st[t := ts']), t);
  }

  lemma AddIsAfter(due: Timespec, msek: int)
    ensures LaterBy(AddMs(due, msek), due, msek * 1_000_000)
  {
    AddMsIsExact(due, msek);
    hide AddMs;
  }

  /** A started timer runs, and is due a positive count of milliseconds after the clock, or at once;
      its interval is the count itself. */
  lemma StartIsDue<T>(s: Loop<T>, t: T, msek: int, single: bool, clock: Timespec)
    requires Valid(s) && t in s.st
    ensures t in DoStart(s, t, msek, single, clock).st
    ensures var ts := DoStart(s, t, msek, single, clock).st[t];
      && LaterBy(ts.due, clock, if msek > 0 then msek * 1_000_000 else 0)
      && ts.interval == msek && ts.single == single && ts.active && (Normal(clock) ==> Normal(ts.due))
  {
    var ms := if msek < 0 then 0 else msek;
    AddIsAfter(clock, ms);
    AddMsIsExact(clock, ms);
    StartFacts(s, t, TimerState(AddMs(clock, ms), msek, single, true));
    hide Valid, Add, DoStop, AddMs, Ns;
  }

  /** And one started for seconds is a single-shot due so many of them later. */
  lemma StartLongIsDue<T>(s: Loop<T>, t: T, seconds: int, clock: Timespec)
    requires Valid(s) && t in s.st
    ensures t in DoStartLong(s, t, seconds, clock).st
    ensures var ts := DoStartLong(s, t, seconds, clock).st[t];
      && LaterBy(ts.due, clock, if seconds > 0 then seconds * 1_000_000_000 else 0)
      && ts.interval == 0 && ts.single && ts.active && (Normal(clock) ==> Normal(ts.due))
  {
    var due := if seconds > 0 then clock.(sec := clock.sec + seconds) else clock;
    StartFacts(s, t, TimerState(due, 0, true, true));
    hide Valid, Add, DoStop;
  }

  /** A changed interval moves the due time of a running timer by the difference, and starts a stopped
      one from where it was last due. */
  lemma ChangeIsDue<T>(s: Loop<T>, t: T, msek: int)
    requires Valid(s) && t in s.st
    ensures t in DoChange(s, t, msek).st
    ensures var was, ts := s.st[t], DoChange(s, t, msek).st[t];
      && LaterBy(ts.due, was.due, (if was.active then msek - was.interval else msek) * 1_000_000)
      && ts.interval == msek && ts.single == was.single && ts.active
  {
    ChangeFacts(s, t, msek);
    hide Valid, DoChange;
  }

  lemma ChangeUnfolds<T>(s: Loop<T>, t: T, msek: int)
    requires Valid(s) && t in s.st
    ensures var ts, s1 := s.st[t], if s.st[t].active then Remove(s, t) else s;
      var due := if ts.active then SubMs(ts.due, ts.interval) else ts.due;
      var ts' := TimerState(AddMs(due, msek), msek, ts.single, true);
      && (forall u :: u in s1.order ==> u in s1.st) && s1.st == s.st && t !in s1.order && Listed(s1)
      && Listed(s1.(st := s1.st[t := ts'])) && DoChange(s, t, msek) == Add(s1.(st := s1.st[t := ts']), t)
      && t in DoChange(s, t, msek).order && Valid(DoChange(s, t, msek))
  {
    ChangeFacts(s, t, msek);
    RemoveFacts(s, t);
    var ts, s1 := s.st[t], if s.st[t].active then Remove(s, t) else s;
    var due := if ts.active then SubMs(ts.due, ts.interval) else ts.due;
    SetUnlisted(s1, t, TimerState(AddMs(due, msek), msek, ts.single, true));
    hide Add, AddMs, SubMs, Without;
  }

  lemma DoKeepsValid<T>(s: Loop<T>, a: Action<T>)
    requires Valid(s) && a.t in s.st
    ensures Valid(Do(s, a)) && Do(s, a).st.Keys == s.st.Keys
    ensures forall u :: u in s.st && u != a.t ==> Do(s, a).st[u] == s.st[u]
  {
    var t := a.t;
    hide Valid, Add, DoStop, DoChange, AddMs;
    match a
    case Start(_, msek, single, clock) =>
      StartFacts(s, t, TimerState(AddMs(clock, if msek < 0 then 0 else msek), msek, single, true));
    case StartLong(_, seconds, clock) =>
      var due := if seconds > 0 then clock.(sec := clock.sec + seconds) else clock;
      StartFacts(s, t, TimerState(due, 0, true, true));
    case Stop(_) =>
      StopFacts(s, t);
    case ChangeInterval(_, msek) =>
      ChangeFacts(s, t, msek);
  }

  // ---------------------------------------------------------------- how much a pass has to do

  /** What a firing does to the fields of a timer. */
  function Fired(ts: TimerState): TimerState {
    if ts.single then ts.(active := false) else ts.(due := AddMs(ts.due, ts.interval))
  }

  /** A periodic timer whose due time a firing does not move on. */
  predicate Stands(ts: TimerState) { !ts.single && LessEq(Fired(ts).due, ts.due) }

  /** What is left of the time up to now, in seconds and within the second. */
  function Ahead(due: Timespec, now: Timespec): (nat, nat) {
    (if due.sec <= now.sec then now.sec - due.sec else 0, if due.nsec < NS then NS - due.nsec else 0)
  }

  predicate Before(a: (nat, nat), b: (nat, nat)) { a.0 < b.0 || (a.0 == b.0 && a.1 < b.1) }

  lemma FiringMovesOn(ts: TimerState, now: Timespec)
    requires IsDue(ts, now) && !ts.single && !Stands(ts)
    ensures Less(ts.due, Fired(ts).due) && (IsDue(Fired(ts), now) ==> Before(Ahead(Fired(ts).due, now), Ahead(ts.due, now)))
  {
    if ts.interval >= 1 {
      AddMovesOn(ts.due, ts.interval);
    } else {
      AddStays(ts.due, ts.interval);
    }
    hide AddMs;
  }

  /** A due periodic timer that stays due for good: sooner or later a firing does not move its due
      time on. */
  predicate Lasting(ts: TimerState, now: Timespec)
    decreases Ahead(ts.due, now).0, Ahead(ts.due, now).1
  {
    IsDue(ts, now) && !ts.single
    && (Stands(ts) || (FiringMovesOn(ts, now); IsDue(Fired(ts), now) && Lasting(Fired(ts), now)))
  }

  /** How often a timer fires in a pass at `now`: a single-shot once, a periodic timer until its
      due time has moved beyond now. */
  function Ticks(ts: TimerState, now: Timespec): nat
    decreases Ahead(ts.due, now).0, Ahead(ts.due, now).1
  {
    if !IsDue(ts, now) then 0
    else if ts.single || Stands(ts) then 1
    else
      FiringMovesOn(ts, now);
      1 + if IsDue(Fired(ts), now) then Ticks(Fired(ts), now) else 0
  }

  /** Whether it stays due can be read off its interval, unless its due time has more nanoseconds
      than a second. */
  lemma LastingIff(ts: TimerState, now: Timespec)
    ensures ts.interval >= 1 ==> !Lasting(ts, now)
    ensures ts.due.nsec < NS ==> (Lasting(ts, now) <==> IsDue(ts, now) && !ts.single && ts.interval <= 0)
  {
    if ts.interval >= 1 {
      PositiveMovesOn(ts, now);
    } else {
      AddStays(ts.due, ts.interval);
    }
    hide AddMs;
  }

  lemma {:induction false} PositiveMovesOn(ts: TimerState, now: Timespec)
    requires ts.interval >= 1
    ensures !Lasting(ts, now)
    decreases Ahead(ts.due, now).0, Ahead(ts.due, now).1
  {
    AddMovesOn(ts.due, ts.interval);
    hide AddMs;
    if IsDue(ts, now) && !ts.single {
      FiringMovesOn(ts, now);
      if IsDue(Fired(ts), now) {
        PositiveMovesOn(Fired(ts), now);
      }
    }
  }

  lemma LastingStays(ts: TimerState, now: Timespec)
    requires Lasting(ts, now)
    ensures Lasting(Fired(ts), now)
  {
    if Stands(ts) {
      if ts.interval >= 1 {
        AddMovesOn(ts.due, ts.interval);
      } else {
        AddStays(ts.due, ts.interval);
      }
      hide AddMs;
    }
  }

  /** Whole intervals in a span of nanoseconds. */
  function Periods(span: int, interval: int): nat
    requires interval > 0
  {
    if span < 0 then 0 else span / (interval * MS)
  }

  lemma PeriodsStep(span: int, interval: int)
    requires interval > 0 && span >= 0
    ensures var rest := span - interval * MS;
            Periods(span, interval) == if rest >= 0 then Periods(rest, interval) + 1 else 0
  {
    var d := interval * MS;
    DivStep(span, d);
  }

  lemma DivStep(a: int, d: int)
    requires d > 0 && a >= 0
    ensures a / d == if a - d >= 0 then (a - d) / d + 1 else 0
  {
    if a >= d {
      var q := (a - d) / d;
      assert q * d <= a - d < q * d + d;
      assert (q + 1) * d == q * d + d;
      DivUnique(a, d, q + 1);
    } else {
      DivUnique(a, d, 0);
    }
  }

  /** Once for the due time and once for every whole interval gone by since. */
  lemma {:induction false} PeriodicTicks(ts: TimerState, now: Timespec)
    requires Normal(ts.due) && Normal(now) && IsDue(ts, now) && !ts.single && ts.interval >= 1
    ensures Ticks(ts, now) == Periods(Ns(now) - Ns(ts.due), ts.interval) + 1
    decreases Ahead(ts.due, now).0, Ahead(ts.due, now).1
  {
    var next := Fired(ts);
    AddMsIsExact(ts.due, ts.interval);
    AddMovesOn(ts.due, ts.interval);
    FiringMovesOn(ts, now);
    ComparisonIsByInstant(ts.due, now);
    ComparisonIsByInstant(next.due, now);
    PeriodsStep(Ns(now) - Ns(ts.due), ts.interval);
    assert Ticks(ts, now) == 1 + if IsDue(next, now) then Ticks(next, now) else 0 by {
      hide AddMs, Ns, Periods;
    }
    hide AddMs, Periods, Ticks, Less, Before, Ns;
    if IsDue(next, now) {
      PeriodicTicks(next, now);
    }
  }

  function Work<T>(order: seq<T>, st: map<T, TimerState>, now: Timespec): nat
    requires forall t :: t in order ==> t in st
  {
    if order == [] then 0 else Ticks(st[order[0]], now) + Work(order[1..], st, now)
  }

  /** No listed timer stays due for good. */
  ghost predicate GoodDue<T>(s: Loop<T>, now: Timespec)
    requires forall t :: t in s.order ==> t in s.st
  {
    forall t :: t in s.order ==> !Lasting(s.st[t], now)
  }

  lemma {:induction false} WorkWithout<T>(order: seq<T>, st: map<T, TimerState>, now: Timespec, t: T)
    requires (forall u :: u in order ==> u in st) && Distinct(order)
    ensures Work(order, st, now)
         == Work(Without(order, t), st, now) + if t in order then Ticks(st[t], now) else 0
  {
    hide Ticks;
    if order != [] {
      assert order == [order[0]] + order[1..];
      if order[0] == t {
        assert t !in order[1..];
      } else {
        WorkWithout(order[1..], st, now, t);
        var w := Without(order[1..], t);
        assert Without(order, t) == [order[0]] + w;
        assert ([order[0]] + w)[1..] == w;
      }
    }
  }

  lemma {:induction false} WorkSame<T>(order: seq<T>, st: map<T, TimerState>, st': map<T, TimerState>, now: Timespec)
    requires forall u :: u in order ==> u in st && u in st' && st[u] == st'[u]
    ensures Work(order, st, now) == Work(order, st', now)
  {
    hide Ticks;
    if order != [] {
      WorkSame(order[1..], st, st', now);
    }
  }

  lemma {:induction false} WithoutInserted<T>(order: seq<T>, t: T, k: nat)
    requires k <= |order| && t !in order
    ensures Without(order[..k] + [t] + order[k..], t) == order
  {
    var r := order[..k] + [t] + order[k..];
    assert t !in r[..k] by {
      assert r[..k] == order[..k];
    }
    WithoutAt(r, t, k);
    hide Without;
    assert r[..k] + r[k + 1..] == order;
  }

  lemma {:induction false} WithoutTwice<T>(order: seq<T>, t: T)
    requires Distinct(order)
    ensures Without(Without(order, t), t) == Without(order, t)
  {
    WithoutFacts(order, t);
    WithoutFacts(Without(order, t), t);
  }

  lemma ArmMovesOne<T>(s: Loop<T>, t: T, ts: TimerState)
    requires (forall u :: u in s.order ==> u in s.st) && t !in s.order && t in s.st
    ensures Without(Add(s.(st := s.st[t := ts]), t).order, t) == s.order
  {
    WithoutInserted(s.order, t, LowerBound(s.order, s.st[t := ts], ts.due));
  }

  lemma StopMovesOne<T>(s: Loop<T>, t: T)
    requires Valid(s) && t in s.st
    ensures DoStop(s, t).order == Without(s.order, t) == Without(Without(s.order, t), t)
    ensures t !in DoStop(s, t).order
  {
    StopFacts(s, t);
    WithoutTwice(s.order, t);
  }

  lemma ChangeMovesOne<T>(s: Loop<T>, t: T, msek: int)
    requires Valid(s) && t in s.st
    ensures Without(DoChange(s, t, msek).order, t) == Without(s.order, t)
  {
    var ts := s.st[t];
    var s1 := if ts.active then Remove(s, t) else s;
    WithoutFacts(s.order, t);
    hide AddMs, SubMs, Add, Valid;
    var due := AddMs(if ts.active then SubMs(ts.due, ts.interval) else ts.due, msek);
    assert t !in s1.order by {
      ListedIffActive(s, t);
    }
    ArmMovesOne(s1, t, TimerState(due, msek, ts.single, true));
  }

  lemma StartMovesOne<T>(s: Loop<T>, t: T, ts: TimerState)
    requires Valid(s) && t in s.st
    ensures var s1 := DoStop(s, t); Without(Add(s1.(st := s1.st[t := ts]), t).order, t) == Without(s.order, t)
  {
    StopMovesOne(s, t);
    hide Valid, Add, Without, DoStop;
    ArmMovesOne(DoStop(s, t), t, ts);
  }

  /** An operation moves no timer but its own. */
  lemma DoMovesOne<T>(s: Loop<T>, a: Action<T>)
    requires Valid(s) && a.t in s.st
    ensures Without(Do(s, a).order, a.t) == Without(s.order, a.t)
  {
    var t := a.t;
    hide Valid, DoStop, Add, AddMs, DoChange, Without;
    match a
    case Start(_, msek, single, clock) =>
      StartMovesOne(s, t, TimerState(AddMs(clock, if msek < 0 then 0 else msek), msek, single, true));
    case StartLong(_, seconds, clock) =>
      var due := if seconds > 0 then clock.(sec := clock.sec + seconds) else clock;
      StartMovesOne(s, t, TimerState(due, 0, true, true));
    case Stop(_) =>
      StopMovesOne(s, t);
    case ChangeInterval(_, msek) =>
      ChangeMovesOne(s, t, msek);
  }

  lemma ListedIffActive<T>(s: Loop<T>, t: T)
    requires Valid(s) && t in s.st
    ensures s.st[t].active <==> t in s.order
  {
  }

  // ---------------------------------------------------------------- callbacks add no work

  /** Everything due afterwards was due before, unchanged. */
  ghost predicate NothingNewDue<T>(s: Loop<T>, r: Loop<T>, now: Timespec) {
    && s.st.Keys == r.st.Keys
    && forall u :: u in r.st && u in r.order && IsDue(r.st[u], now) ==> u in s.order && u in s.st && r.st[u] == s.st[u]
  }

  /** r is s with timer t put elsewhere, or off the list, and not due. */
  ghost predicate PutAside<T>(s: Loop<T>, r: Loop<T>, t: T, now: Timespec) {
    && Valid(s) && Valid(r) && s.st.Keys == r.st.Keys && t in s.st
    && (forall u :: u in s.st && u != t ==> r.st[u] == s.st[u])
    && Without(r.order, t) == Without(s.order, t)
    && (t in r.order ==> !IsDue(r.st[t], now))
  }

  lemma HarmlessPutsAside<T>(s: Loop<T>, a: Action<T>, now: Timespec)
    requires Valid(s) && Harmless(s, a, now)
    ensures PutAside(s, Do(s, a), a.t, now)
  {
    DoKeepsValid(s, a);
    DoMovesOne(s, a);
    ListedIffActive(Do(s, a), a.t);
    hide Do, Valid, IsDue, Without;
  }

  lemma AsideAddsNoWork<T>(s: Loop<T>, r: Loop<T>, t: T, now: Timespec)
    requires PutAside(s, r, t, now)
    ensures NothingNewDue(s, r, now) && Work(r.order, r.st, now) <= Work(s.order, s.st, now)
  {
    ValidIsListed(s);
    ValidIsListed(r);
    WorkWithout(s.order, s.st, now, t);
    WorkWithout(r.order, r.st, now, t);
    WithoutFacts(s.order, t);
    WithoutFacts(r.order, t);
    WorkSame(Without(s.order, t), s.st, r.st, now);
    assert t in r.order ==> Ticks(r.st[t], now) == 0 by {
      NoTicks(r.st[t], now);
    }
    hide Ticks, IsDue, Without, Work, Distinct, Sorted;
  }

  lemma HarmlessStep<T>(s: Loop<T>, a: Action<T>, now: Timespec)
    requires Valid(s) && Harmless(s, a, now)
    ensures var r := Do(s, a);
            Valid(r) && NothingNewDue(s, r, now) && Work(r.order, r.st, now) <= Work(s.order, s.st, now)
    ensures s.st.Keys == Do(s, a).st.Keys && forall u :: u in s.st && u != a.t ==> Do(s, a).st[u] == s.st[u]
  {
    HarmlessPutsAside(s, a, now);
    AsideAddsNoWork(s, Do(s, a), a.t, now);
    hide Do, IsDue, Without, Work, NothingNewDue, Harmless, Valid;
  }

  lemma NoTicks(ts: TimerState, now: Timespec)
    ensures !IsDue(ts, now) ==> Ticks(ts, now) == 0
  {
  }

  ghost predicate Targets<T>(actions: seq<Action<T>>, t: T) {
    exists i :: 0 <= i < |actions| && actions[i].t == t
  }

  /** A callback keeps the list valid, makes nothing due, adds no work, and leaves alone the
      timers it does not name. */
  lemma {:induction false} PerformFacts<T>(s: Loop<T>, actions: seq<Action<T>>, now: Timespec)
    requires Valid(s)
    ensures var r := Perform(s, actions, now);
            && Valid(r) && NothingNewDue(s, r, now)
            && Work(r.order, r.st, now) <= Work(s.order, s.st, now)
            && (forall u :: u in s.st && !Targets(actions, u) ==> r.st[u] == s.st[u])
    decreases actions
  {
    hide Perform, Valid, Targets, Do, Work, IsDue, Harmless;
    ValidIsListed(s);
    PerformStep(s, actions, now);
    if actions != [] {
      var a, rest := actions[0], actions[1..];
      TargetsCons(actions);
      if Harmless(s, a, now) {
        HarmlessStep(s, a, now);
        PerformFacts(Do(s, a), rest, now);
      } else {
        PerformFacts(s, rest, now);
      }
    }
  }

  lemma PerformStep<T>(s: Loop<T>, actions: seq<Action<T>>, now: Timespec)
    requires Valid(s)
    ensures actions == [] ==> Perform(s, actions, now) == s
    ensures actions != [] && !Harmless(s, actions[0], now) ==> Perform(s, actions, now) == Perform(s, actions[1..], now)
    ensures actions != [] && Harmless(s, actions[0], now) ==>
      && actions[0].t in s.st && Valid(Do(s, actions[0]))
      && Perform(s, actions, now) == Perform(Do(s, actions[0]), actions[1..], now)
  {
    if actions != [] && Harmless(s, actions[0], now) {
      DoKeepsValid(s, actions[0]);
    }
    hide Valid, Do, IsDue;
  }

  lemma TargetsCons<T>(actions: seq<Action<T>>)
    requires actions != []
    ensures Targets(actions, actions[0].t)
    ensures forall u :: Targets(actions[1..], u) ==> Targets(actions, u)
  {
    forall u | Targets(actions[1..], u)
      ensures Targets(actions, u)
    {
      var i :| 0 <= i < |actions| - 1 && actions[1..][i].t == u;
      assert actions[i + 1].t == u;
    }
  }

  // ---------------------------------------------------------------- one firing

  ghost predicate HeadDue<T>(s: Loop<T>, now: Timespec)
    requires forall t :: t in s.order ==> t in s.st
  {
    s.order != [] && IsDue(s.st[s.order[0]], now)
  }

  /** Take the head off the list and activate it. */
  function Rearm<T(==)>(s: Loop<T>): Loop<T>
    requires s.order != [] && forall u :: u in s.order ==> u in s.st
  {
    assert forall u :: u in s.order[1..] ==> u in s.order;
    DoActivate(s.(order := s.order[1..]), s.order[0])
  }

  lemma RearmFacts<T>(s: Loop<T>)
    requires Valid(s) && s.order != []
    ensures var t, r := s.order[0], Rearm(s);
            && Valid(r) && r.st == s.st[t := Fired(s.st[t])]
            && Without(r.order, t) == s.order[1..]
            && (t in r.order <==> !s.st[t].single)
  {
    var t, rest := s.order[0], s.order[1..];
    var s1 := s.(order := rest);
    assert s.order == [t] + rest;
    assert t !in rest;
    var ts := Fired(s.st[t]);
    hide AddMs;
    SetUnlisted(s1, t, ts);
    WithoutFacts(rest, t);
    if !s.st[t].single {
      var s2 := s1.(st := s1.st[t := ts]);
      AddFacts(s2, t);
      ArmFacts(s1, t, ts);
      WithoutInserted(rest, t, LowerBound(rest, s2.st, ts.due));
    }
  }

  lemma FiredTicks(ts: TimerState, now: Timespec)
    requires IsDue(ts, now) && !Lasting(ts, now)
    ensures Ticks(ts, now) == 1 + (if ts.single then 0 else Ticks(Fired(ts), now))
    ensures !Lasting(Fired(ts), now) && (!ts.single ==> Less(ts.due, Fired(ts).due))
  {
    if !ts.single {
      FiringMovesOn(ts, now);
    }
    hide AddMs, Less;
  }

  /** Each firing uses up exactly one unit of work. */
  lemma RearmWork<T>(s: Loop<T>, now: Timespec)
    requires Valid(s) && HeadDue(s, now) && GoodDue(s, now)
    ensures var r := Rearm(s); Work(r.order, r.st, now) == Work(s.order, s.st, now) - 1
  {
    var t, r := s.order[0], Rearm(s);
    RearmFacts(s);
    assert t in s.order;
    FiredTicks(s.st[t], now);
    assert t !in s.order[1..];
    hide Ticks, Rearm, Fired;
    WorkWithout(r.order, r.st, now, t);
    WorkSame(s.order[1..], s.st, r.st, now);
  }

  // ---------------------------------------------------------------- the ready pass

  /** One round of the ready loop: the head fires, then its callback runs. */
  function FireHead<T(==)>(s: Loop<T>, actions: seq<Action<T>>, now: Timespec): Loop<T>
    requires Valid(s) && s.order != []
  {
    RearmFacts(s);
    Perform(Rearm(s), actions, now)
  }

  /** After the head has fired, whatever is due is good and was listed before. */
  lemma RearmGood<T>(s: Loop<T>, now: Timespec)
    requires Valid(s) && s.order != [] && HeadDue(s, now) && GoodDue(s, now)
    ensures Valid(Rearm(s)) && GoodDue(Rearm(s), now) && Rearm(s).st.Keys == s.st.Keys
    ensures forall u :: u in Rearm(s).order ==> u in s.order
  {
    var t, m := s.order[0], Rearm(s);
    RearmFacts(s);
    assert t in s.order;
    FiredTicks(s.st[t], now);
    ValidIsListed(s);
    RearmedWere(s, m);
    hide Rearm, IsDue, Valid, Lasting, Ticks, Fired;
  }

  lemma RearmedWere<T>(s: Loop<T>, m: Loop<T>)
    requires Valid(m) && s.order != [] && Without(m.order, s.order[0]) == s.order[1..]
    ensures forall u :: u in m.order ==> u in s.order
  {
    WithoutFacts(m.order, s.order[0]);
    assert forall u :: u in s.order[1..] ==> u in s.order;
  }

  lemma GoodStays<T>(s: Loop<T>, r: Loop<T>, now: Timespec)
    requires (forall u :: u in s.order ==> u in s.st) && (forall u :: u in r.order ==> u in r.st)
    requires GoodDue(s, now) && NothingNewDue(s, r, now)
    ensures GoodDue(r, now)
  {
  }

  lemma FireHeadFacts<T>(s: Loop<T>, actions: seq<Action<T>>, now: Timespec)
    requires Valid(s) && HeadDue(s, now) && GoodDue(s, now)
    ensures var r := FireHead(s, actions, now);
            && Valid(r) && GoodDue(r, now) && r.st.Keys == s.st.Keys
            && Work(r.order, r.st, now) < Work(s.order, s.st, now)
  {
    var m := Rearm(s);
    RearmGood(s, now);
    RearmWork(s, now);
    PerformFacts(m, actions, now);
    GoodStays(m, Perform(m, actions, now), now);
  }

  /** The whole pass: fire while the head is due.  `script(k)` is what the callback of the k-th
      firing does.  The result is the loop afterwards and the signals emitted, in order. */
  function RunReady<T(==)>(s: Loop<T>, now: Timespec, script: nat -> seq<Action<T>>, k: nat): (Loop<T>, seq<Firing<T>>)
    requires Valid(s) && GoodDue(s, now)
    decreases Work(s.order, s.st, now)
  {
    if s.order == [] || !IsDue(s.st[s.order[0]], now) then (s, [])
    else
      FireHeadFacts(s, script(k), now);
      var (r, log) := RunReady(FireHead(s, script(k), now), now, script, k + 1);
      (r, [Firing(s.order[0], s.st[s.order[0]].due)] + log)
  }

  lemma RunReadyStep<T>(s: Loop<T>, now: Timespec, script: nat -> seq<Action<T>>, k: nat)
    requires Valid(s) && GoodDue(s, now)
    ensures !HeadDue(s, now) ==> RunReady(s, now, script, k) == (s, [])
    ensures HeadDue(s, now) ==>
              var s' := FireHead(s, script(k), now);
              && Valid(s') && GoodDue(s', now) && Work(s'.order, s'.st, now) < Work(s.order, s.st, now)
              && RunReady(s, now, script, k)
                 == (RunReady(s', now, script, k + 1).0,
                     [Firing(s.order[0], s.st[s.order[0]].due)] + RunReady(s', now, script, k + 1).1)
  {
    if HeadDue(s, now) {
      FireHeadFacts(s, script(k), now);
    }
  }

  // ---------------------------------------------------------------- what a pass achieves

  /** Nothing on the list is due any more. */
  ghost predicate NothingDue<T>(s: Loop<T>, now: Timespec)
    requires forall t :: t in s.order ==> t in s.st
  {
    forall t :: t in s.order ==> !IsDue(s.st[t], now)
  }

  /** Every listed timer is due at m or later. */
  ghost predicate NotBefore<T>(s: Loop<T>, m: Timespec)
    requires forall t :: t in s.order ==> t in s.st
  {
    forall t :: t in s.order ==> LessEq(m, s.st[t].due)
  }

  ghost predicate Ascending<T>(log: seq<Firing<T>>, m: Timespec, now: Timespec) {
    && (forall i :: 0 <= i < |log| ==> LessEq(m, log[i].due) && LessEq(log[i].due, now))
    && (forall i, j :: 0 <= i < j < |log| ==> LessEq(log[i].due, log[j].due))
  }

  lemma HeadIsFirst<T>(s: Loop<T>)
    requires Valid(s) && s.order != []
    ensures NotBefore(s, s.st[s.order[0]].due)
  {
  }

  /** After a round nothing is due earlier than the timer that fired. */
  lemma RoundNotBefore<T>(s: Loop<T>, actions: seq<Action<T>>, now: Timespec)
    requires Valid(s) && HeadDue(s, now) && GoodDue(s, now)
    ensures Valid(FireHead(s, actions, now))
    ensures NotBefore(FireHead(s, actions, now), s.st[s.order[0]].due)
  {
    var t, m, r := s.order[0], Rearm(s), FireHead(s, actions, now);
    var first := s.st[t].due;
    RearmFacts(s);
    RearmGood(s, now);
    PerformFacts(m, actions, now);
    HeadIsFirst(s);
    assert t in s.order;
    FiredTicks(s.st[t], now);
    hide Perform, Rearm, AddMs, GoodDue, HeadDue, Lasting, Ticks;
    forall u | u in r.order
      ensures LessEq(first, r.st[u].due)
    {
    }
  }

  lemma HeadNotDue<T>(s: Loop<T>, now: Timespec)
    requires Valid(s) && !HeadDue(s, now)
    ensures NothingDue(s, now)
  {
    forall t | t in s.order
      ensures !IsDue(s.st[t], now)
    {
      var i :| 0 <= i < |s.order| && s.order[i] == t;
    }
  }

  /** A pass ends with nothing due and the list still valid, and it fires in the order of the
      due times, no more often than there was work to do. */
  lemma {:induction false} ReadyPassOutcome<T>(s: Loop<T>, now: Timespec, script: nat -> seq<Action<T>>, k: nat, m: Timespec)
    requires Valid(s) && GoodDue(s, now) && NotBefore(s, m)
    ensures var (r, log) := RunReady(s, now, script, k);
            && Valid(r) && NothingDue(r, now) && r.st.Keys == s.st.Keys
            && Ascending(log, m, now) && |log| <= Work(s.order, s.st, now)
    decreases Work(s.order, s.st, now)
  {
    var due := HeadDue(s, now);
    assert forall t :: t in s.order ==> t in s.st;
    hide Work, Valid, GoodDue, NotBefore, NothingDue, FireHead, IsDue, Ascending;
    if !due {
      HeadNotDue(s, now);
      NoFirings<T>(m, now);
    } else {
      var t, s' := s.order[0], FireHead(s, script(k), now);
      var first := s.st[t].due;
      FireHeadFacts(s, script(k), now);
      RoundNotBefore(s, script(k), now);
      FirstDue(s, now, m);
      ReadyPassOutcome(s', now, script, k + 1, first);
      AscendingCons(Firing(t, s.st[t].due), RunReady(s', now, script, k + 1).1, m, now);
    }
  }

  lemma FirstDue<T>(s: Loop<T>, now: Timespec, m: Timespec)
    requires Valid(s) && HeadDue(s, now) && NotBefore(s, m)
    ensures LessEq(m, s.st[s.order[0]].due) && LessEq(s.st[s.order[0]].due, now)
  {
    assert s.order[0] in s.order;
  }

  lemma NoFirings<T>(m: Timespec, now: Timespec)
    ensures Ascending<T>([], m, now)
  {
  }

  lemma AscendingCons<T>(f: Firing<T>, log: seq<Firing<T>>, m: Timespec, now: Timespec)
    requires LessEq(m, f.due) && LessEq(f.due, now) && Ascending(log, f.due, now)
    ensures Ascending([f] + log, m, now)
  {
  }

  function Count<T(==)>(log: seq<Firing<T>>, t: T): nat {
    if log == [] then 0 else (if log[0].t == t then 1 else 0) + Count(log[1..], t)
  }

  /** The fields of an undisturbed timer after n firings. */
  ghost predicate Advanced(was: TimerState, cur: TimerState, n: nat) {
    && cur.interval == was.interval && cur.single == was.single
    && (if n == 0 then cur == was
        else if was.single then cur == was.(active := false)
        else cur.active == was.active && Ns(cur.due) == Ns(was.due) + n * (was.interval * MS))
  }

  lemma AdvancedStep(was: TimerState, cur: TimerState, n: nat)
    requires Advanced(Fired(was), cur, n) && (was.single ==> n == 0)
    ensures Advanced(was, cur, n + 1)
  {
    AddMsIsExact(was.due, was.interval);
    assert (n + 1) * (was.interval * MS) == n * (was.interval * MS) + was.interval * MS;
  }

  /** Exact firing counts: a timer that no callback of the pass touches fires once for a due
      single-shot, and for a due periodic timer once plus once per whole interval gone by; its
      next due time has moved by that many intervals. */
  lemma {:induction false} ReadyPassCounts<T>(s: Loop<T>, now: Timespec, script: nat -> seq<Action<T>>, k: nat, t: T)
    requires Valid(s) && GoodDue(s, now) && t in s.st
    requires forall j :: k <= j < k + |RunReady(s, now, script, k).1| ==> !Targets(script(j), t)
    ensures var (r, log) := RunReady(s, now, script, k);
            && t in r.st
            && Count(log, t) == (if s.st[t].active then Ticks(s.st[t], now) else 0)
            && Advanced(s.st[t], r.st[t], Count(log, t))
    decreases Work(s.order, s.st, now)
  {
    hide RunReady, FireHead, Ticks, Targets, Advanced, Fired, Valid, GoodDue, Lasting, Work, Count, IsDue;
    ValidIsListed(s);
    RunReadyStep(s, now, script, k);
    ListedIffActive(s, t);
    if !HeadDue(s, now) {
      Resting(s, now, t);
    } else {
      var h, s' := s.order[0], FireHead(s, script(k), now);
      var (r', log') := RunReady(s', now, script, k + 1);
      RoundLeaves(s, script(k), now, t);
      ReadyPassCounts(s', now, script, k + 1, t);
      CountCons(Firing(h, s.st[h].due), log', t);
      if t == h {
        HeadTicks(s, now);
        AdvancedStep(s.st[t], r'.st[t], Count(log', t));
      }
    }
  }

  lemma Resting<T>(s: Loop<T>, now: Timespec, t: T)
    requires Valid(s) && !HeadDue(s, now) && t in s.st
    ensures s.st[t].active ==> Ticks(s.st[t], now) == 0
    ensures Advanced(s.st[t], s.st[t], 0) && Count<T>([], t) == 0
  {
    HeadNotDue(s, now);
    NoTicks(s.st[t], now);
  }

  lemma CountCons<T>(f: Firing<T>, log: seq<Firing<T>>, t: T)
    ensures Count([f] + log, t) == (if f.t == t then 1 else 0) + Count(log, t)
  {
  }

  /** A round changes an untouched timer only by firing it. */
  lemma RoundLeaves<T>(s: Loop<T>, actions: seq<Action<T>>, now: Timespec, t: T)
    requires Valid(s) && s.order != [] && t in s.st && !Targets(actions, t)
    ensures t in FireHead(s, actions, now).st
    ensures FireHead(s, actions, now).st[t] == if t == s.order[0] then Fired(s.st[t]) else s.st[t]
  {
    RearmFacts(s);
    hide AddMs, Rearm;
    PerformFacts(Rearm(s), actions, now);
  }

  lemma HeadTicks<T>(s: Loop<T>, now: Timespec)
    requires Valid(s) && HeadDue(s, now) && GoodDue(s, now)
    ensures var ts := s.st[s.order[0]];
            && ts.active && Fired(ts).active == !ts.single
            && Ticks(ts, now) == 1 + if ts.single then 0 else Ticks(Fired(ts), now)
  {
    assert s.order[0] in s.order;
    FiredTicks(s.st[s.order[0]], now);
  }

  /** Spelled out: the count of a due periodic timer. */
  lemma PeriodicCount<T>(s: Loop<T>, now: Timespec, script: nat -> seq<Action<T>>, t: T)
    requires Valid(s) && GoodDue(s, now) && t in s.order && Normal(s.st[t].due) && Normal(now)
    requires IsDue(s.st[t], now) && !s.st[t].single
    requires forall j :: 0 <= j < |RunReady(s, now, script, 0).1| ==> !Targets(script(j), t)
    ensures s.st[t].interval >= 1
    ensures Count(RunReady(s, now, script, 0).1, t)
         == (Ns(now) - Ns(s.st[t].due)) / (s.st[t].interval * MS) + 1
  {
    hide RunReady, Targets, Advanced, Count, Valid, GoodDue, Ticks, Lasting, IsDue;
    DuePeriodic(s, now, t);
    LastingIff(s.st[t], now);
    PeriodicTicks(s.st[t], now);
    ComparisonIsByInstant(s.st[t].due, now);
    ReadyPassCounts(s, now, script, 0, t);
  }

  lemma DuePeriodic<T>(s: Loop<T>, now: Timespec, t: T)
    requires Valid(s) && GoodDue(s, now) && t in s.order && IsDue(s.st[t], now)
    ensures t in s.st && s.st[t].active && !Lasting(s.st[t], now) && LessEq(s.st[t].due, now)
  {
  }

  /** From the start of a timer to its signals: before the instant that is msek milliseconds after the
      clock it does not fire; from then on a single-shot fires once, and a periodic timer once for
      that instant and once for every interval gone by since. */
  lemma StartedFires<T>(s: Loop<T>, t: T, msek: int, single: bool, clock: Timespec,
                        r: Loop<T>, now: Timespec, script: nat -> seq<Action<T>>)
    requires Valid(s) && t in s.st && msek >= 1 && Normal(clock) && Normal(now)
    requires r == DoStart(s, t, msek, single, clock) && Valid(r) && GoodDue(r, now)
    requires forall j :: 0 <= j < |RunReady(r, now, script, 0).1| ==> !Targets(script(j), t)
    ensures var late := (now.sec - clock.sec) * 1_000_000_000 + (now.nsec - clock.nsec) - msek * 1_000_000;
      Count(RunReady(r, now, script, 0).1, t)
      == if late < 0 then 0 else if single then 1 else late / (msek * 1_000_000) + 1
  {
    hide RunReady, Targets, Advanced, Count, Valid, GoodDue, Ticks, Lasting, IsDue, DoStart, Normal;
    StartIsDue(s, t, msek, single, clock);
    ValidIsListed(r);
    ReadyPassCounts(r, now, script, 0, t);
    TicksOf(r.st[t], clock, msek, now);
  }

  lemma TicksOf(ts: TimerState, clock: Timespec, msek: int, now: Timespec)
    requires LaterBy(ts.due, clock, msek * 1_000_000) && ts.interval == msek >= 1 && Normal(ts.due) && Normal(now)
    ensures var late := (now.sec - clock.sec) * 1_000_000_000 + (now.nsec - clock.nsec) - msek * 1_000_000;
      Ticks(ts, now) == if late < 0 then 0 else if ts.single then 1 else late / (msek * 1_000_000) + 1
  {
    ComparisonIsByInstant(ts.due, now);
    if IsDue(ts, now) && !ts.single {
      PeriodicTicks(ts, now);
    }
  }

  // ---------------------------------------------------------------- when the loop ends

  /** One round with a callback that does nothing; no round when the head is not due. */
  function SilentRound<T>(s: Loop<T>, now: Timespec): (r: Loop<T>)
    requires Valid(s)
    ensures Valid(r)
  {
    if s.order != [] && IsDue(s.st[s.order[0]], now) then
      RearmFacts(s);
      Rearm(s)
    else s
  }

  ghost function Rounds<T>(s: Loop<T>, now: Timespec, n: nat): (r: Loop<T>)
    requires Valid(s)
    ensures Valid(r)
  {
    if n == 0 then s else SilentRound(Rounds(s, now, n - 1), now)
  }

  ghost predicate Ends<T>(s: Loop<T>, now: Timespec)
    requires Valid(s)
  {
    exists n: nat :: !HeadDue(Rounds(s, now, n), now)
  }

  /** Some listed timer stays due for good. */
  ghost predicate Spinning<T>(s: Loop<T>, now: Timespec)
    requires forall t :: t in s.order ==> t in s.st
  {
    exists t :: t in s.order && Lasting(s.st[t], now)
  }

  lemma SpinningStays<T>(s: Loop<T>, now: Timespec)
    requires Valid(s) && Spinning(s, now)
    ensures Spinning(SilentRound(s, now), now)
  {
    SpinningIsDue(s, now);
    var t, h := s.order[0], Rearm(s);
    RearmFacts(s);
    WithoutFacts(h.order, t);
    hide Rearm, Distinct, Sorted, Fired;
    var z :| z in s.order && Lasting(s.st[z], now);
    assert s.order == [t] + s.order[1..];
    if z == t {
      LastingStays(s.st[t], now);
    } else {
      assert z in s.order[1..];
    }
    assert z in h.order && Lasting(h.st[z], now);
  }

  lemma SpinningIsDue<T>(s: Loop<T>, now: Timespec)
    requires Valid(s) && Spinning(s, now)
    ensures HeadDue(s, now)
  {
    if !HeadDue(s, now) {
      HeadNotDue(s, now);
    }
  }

  lemma {:induction false} SpinsForever<T>(s: Loop<T>, now: Timespec, n: nat)
    requires Valid(s) && Spinning(s, now)
    ensures Spinning(Rounds(s, now, n), now) && HeadDue(Rounds(s, now, n), now)
  {
    hide Valid, Spinning, SilentRound;
    if n > 0 {
      SpinsForever(s, now, n - 1);
      SpinningStays(Rounds(s, now, n - 1), now);
    }
    SpinningIsDue(Rounds(s, now, n), now);
  }

  lemma SilentRoundWork<T>(s: Loop<T>, now: Timespec)
    requires Valid(s) && HeadDue(s, now) && GoodDue(s, now)
    ensures var r := SilentRound(s, now);
            GoodDue(r, now) && Work(r.order, r.st, now) == Work(s.order, s.st, now) - 1
  {
    RearmGood(s, now);
    RearmWork(s, now);
  }

  lemma {:induction false} RoundsUseWork<T>(s: Loop<T>, now: Timespec, n: nat)
    requires Valid(s) && GoodDue(s, now)
    requires forall i: nat :: i < n ==> HeadDue(Rounds(s, now, i), now)
    ensures GoodDue(Rounds(s, now, n), now)
    ensures var r := Rounds(s, now, n); Work(r.order, r.st, now) == Work(s.order, s.st, now) - n
  {
    hide Valid, GoodDue, SilentRound, Work, HeadDue;
    if n > 0 {
      RoundsUseWork(s, now, n - 1);
      SilentRoundWork(Rounds(s, now, n - 1), now);
    }
  }

  /** A pass with callbacks that do nothing ends exactly when no listed timer stays due for good. */
  lemma PassEndsIffNoneLasts<T>(s: Loop<T>, now: Timespec)
    requires Valid(s)
    ensures Ends(s, now) <==> !Spinning(s, now)
  {
    if Spinning(s, now) {
      forall n: nat
        ensures HeadDue(Rounds(s, now, n), now)
      {
        SpinsForever(s, now, n);
      }
    } else {
      assert GoodDue(s, now);
      var w := Work(s.order, s.st, now);
      if forall i: nat :: i < w + 1 ==> HeadDue(Rounds(s, now, i), now) {
        RoundsUseWork(s, now, w + 1);
        assert false;
      }
    }
  }

  // --------------------------------------------------------- which timers keep the loop from ending

  /** The nanoseconds of the due time are fewer than a second has, once those that the interval
      has added are taken off. */
  predicate InStep(ts: TimerState) {
    var r := Rem(ts.interval, 1000);
    ts.due.nsec - (if r > 0 then r * MS else 0) < NS
  }

  ghost predicate AllInStep<T>(s: Loop<T>) {
    forall t :: t in s.st ==> InStep(s.st[t])
  }

  /** What can happen to a loop: an operation on one of its timers, or a round of the ready loop
      up to the callback, whose operations follow it. */
  datatype Event<T> = Operation(a: Action<T>) | Round

  function React<T(==)>(s: Loop<T>, e: Event<T>): (r: Loop<T>)
    requires Valid(s)
    ensures Valid(r)
  {
    match e
    case Operation(a) =>
      if a.t in s.st then
        DoKeepsValid(s, a);
        Do(s, a)
      else s
    case Round =>
      if s.order == [] then s
      else
        RearmFacts(s);
        Rearm(s)
  }

  /** The clock that an operation reads shows a normal time. */
  predicate ClockIsNormal<T>(e: Event<T>) {
    e.Operation? && (e.a.Start? || e.a.StartLong?) ==> Normal(e.a.clock)
  }

  lemma AddKeepsInStep(due: Timespec, was: int, interval: int)
    requires InStep(TimerState(due, was, false, true))
    ensures InStep(TimerState(AddMs(due, interval), interval, false, true))
    ensures InStep(TimerState(AddMs(SubMs(due, was), interval), interval, false, true))
  {
    QuotRem(was);
    QuotRem(interval);
    hide Quot, Rem;
  }

  lemma DoKeepsInStep<T>(s: Loop<T>, a: Action<T>)
    requires Valid(s) && AllInStep(s) && a.t in s.st && ClockIsNormal(Operation(a))
    ensures AllInStep(Do(s, a))
  {
    var ts := s.st[a.t];
    match a {
      case Start(_, msek, _, clock) =>
        AddMsIsExact(clock, if msek < 0 then 0 else msek);
        StartFacts(s, a.t, TimerState(AddMs(clock, if msek < 0 then 0 else msek), msek, a.single, true));
      case StartLong(_, _, _) =>
      case Stop(_) =>
      case ChangeInterval(_, msek) => AddKeepsInStep(ts.due, ts.interval, msek);
    }
    DoKeepsValid(s, a);
    hide Valid, Add, Remove, AddMs, SubMs, Without, Rem;
  }

  lemma EventKeepsInStep<T>(s: Loop<T>, e: Event<T>)
    requires Valid(s) && AllInStep(s) && ClockIsNormal(e)
    ensures AllInStep(React(s, e))
  {
    hide Valid, Rearm, AddMs, Do, InStep;
    match e
    case Operation(a) =>
      if a.t in s.st {
        DoKeepsInStep(s, a);
      }
    case Round =>
      if s.order != [] {
        ValidIsListed(s);
        assert s.order[0] in s.order;
        RearmFacts(s);
        FiredInStep(s.st[s.order[0]]);
      }
  }

  lemma FiredInStep(ts: TimerState)
    requires InStep(ts)
    ensures InStep(Fired(ts))
  {
    AddKeepsInStep(ts.due, ts.interval, ts.interval);
    hide AddMs, Rem;
  }

  function After<T(==)>(s: Loop<T>, events: seq<Event<T>>): (r: Loop<T>)
    requires Valid(s)
    ensures Valid(r)
    decreases events
  {
    if events == [] then s else After(React(s, events[0]), events[1..])
  }

  lemma {:induction false} RunKeepsInStep<T>(s: Loop<T>, events: seq<Event<T>>)
    requires Valid(s) && AllInStep(s) && forall i :: 0 <= i < |events| ==> ClockIsNormal(events[i])
    ensures AllInStep(After(s, events))
    decreases events
  {
    hide Valid, AllInStep, React, ClockIsNormal;
    if events != [] {
      EventKeepsInStep(s, events[0]);
      RunKeepsInStep(React(s, events[0]), events[1..]);
    }
  }

  /** A loop whose timers have never run. */
  ghost predicate Fresh<T>(s: Loop<T>) {
    s.order == [] && forall t :: t in s.st ==> s.st[t] == TimerState(Timespec(0, 0), 0, false, false)
  }

  /** Any timers as their constructor leaves them. */
  lemma FreshIs<T>(s: Loop<T>)
    requires s.order == [] && forall t :: t in s.st ==> s.st[t] == TimerState(Timespec(0, 0), 0, false, false)
    ensures Fresh(s) && Valid(s)
  {
  }

  /** After any events at all, the ready loop ends exactly when no due periodic timer has an
      interval of zero or less. */
  lemma PassEndsIffPositive<T>(s: Loop<T>, events: seq<Event<T>>, now: Timespec)
    requires Fresh(s) && Valid(s) && forall i :: 0 <= i < |events| ==> ClockIsNormal(events[i])
    ensures var r := After(s, events);
      Ends(r, now)
      <==> forall t :: t in r.order && IsDue(r.st[t], now) && !r.st[t].single ==> r.st[t].interval >= 1
  {
    var r := After(s, events);
    RunKeepsInStep(s, events);
    PassEndsIffNoneLasts(r, now);
    ValidIsListed(r);
    hide Ends, Lasting, IsDue, Valid, After, Rem;
    forall t | t in r.order
      ensures Lasting(r.st[t], now) <==> IsDue(r.st[t], now) && !r.st[t].single && r.st[t].interval <= 0
    {
      QuotRem(r.st[t].interval);
      assert InStep(r.st[t]);
      LastingIff(r.st[t], now);
    }
  }

  /** A periodic timer started with a count that is not positive is due for good. */
  lemma StartedForGood<T>(s: Loop<T>, t: T, msek: int, clock: Timespec, now: Timespec)
    requires Valid(s) && t in s.st && msek <= 0 && Normal(clock) && LessEq(clock, now)
    ensures var r := DoStart(s, t, msek, false, clock); Valid(r) && Spinning(r, now) && !Ends(r, now)
  {
    var ts, r := TimerState(AddMs(clock, 0), msek, false, true), DoStart(s, t, msek, false, clock);
    StartFacts(s, t, ts);
    assert ts.due == clock;
    LastingIff(ts, now);
    hide Lasting, AddMs, Add, DoStop;
    assert t in r.order && r.st[t] == ts;
    PassEndsIffNoneLasts(r, now);
  }
}
