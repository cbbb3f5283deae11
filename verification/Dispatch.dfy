/** What the event loop's poll dispatch does, as functions on values.

  `byFd` is the table of running notifiers; `st` holds the fields of every notifier of the
  loop.  `epoch` counts how often a notifier has been started or stopped: the program does not
  store it, it only lets us say that something has not been touched since.
 */
module Dispatch {
  import opened Basics

  type Events = bv16

  const STOPPED: int := 0
  const IN_POLL: int := 1
  const STARTED: int := 2

  datatype Fields = Fields(fd: int, state: int, requested: Events, refs: int, epoch: nat)

  datatype Loop<!T> = Loop(byFd: map<int, T>, st: map<T, Fields>, current: Option<T>)

  datatype Action<T> =
    | Start(t: T)
    | Stop(t: T)
    | SetRequested(t: T, requested: Events)
    | AddRef(t: T)
    | Release(t: T)

  /** The events in both sets. */
  function Common(a: Events, b: Events): (c: Events)
    ensures c & a == c && c & b == c
  {
    a & b
  }

  /** All that is in both. */
  lemma CommonIsMost(a: Events, b: Events, x: Events)
    requires x & a == x && x & b == x
    ensures x & Common(a, b) == x
  {
    assert x & (a & b) == (x & a) & b;
  }

  /** One call of a notifier's signal. */
  datatype Activation<T> = Activation(t: T, what: Events)

  /** The table maps exactly the running notifiers, each under its own descriptor. */
  ghost predicate Valid<T>(s: Loop<T>) {
    && (forall fd :: fd in s.byFd ==> s.byFd[fd] in s.st && s.st[s.byFd[fd]].fd == fd && s.st[s.byFd[fd]].state != STOPPED)
    && (forall t :: t in s.st && s.st[t].state != STOPPED ==> s.st[t].fd in s.byFd && s.byFd[s.st[t].fd] == t)
    && (s.current.Some? ==> s.current.value in s.st)
  }

  // ---------------------------------------------------------------- notifier operations

  function DoStop<T(==)>(s: Loop<T>, t: T): Loop<T>
    requires t in s.st
  {
    var f := s.st[t];
    if f.state != STOPPED then
      s.(st := s.st[t := f.(state := STOPPED, epoch := f.epoch + 1)], byFd := s.byFd - {f.fd})
    else s
  }

  /** Before a notifier is entered, the one being activated goes if nobody else holds it. */
  function DropCurrent<T(==)>(s: Loop<T>): Loop<T>
    requires s.current.Some? ==> s.current.value in s.st
  {
    if s.current.Some? && s.st[s.current.value].refs == 1 then DoStop(s, s.current.value) else s
  }

  /** The state in which a start enters the notifier into the table. */
  function BeforeEntry<T(==)>(s: Loop<T>, t: T): (r: Loop<T>)
    requires t in s.st && (s.current.Some? ==> s.current.value in s.st)
    ensures r.st.Keys == s.st.Keys
  {
    DropCurrent(DoStop(s, t))
  }

  function DoStart<T(==)>(s: Loop<T>, t: T): Loop<T>
    requires t in s.st && (s.current.Some? ==> s.current.value in s.st)
  {
    var r := BeforeEntry(s, t);
    var f := r.st[t];
    r.(byFd := r.byFd[f.fd := t], st := r.st[t := f.(state := STARTED, epoch := f.epoch + 1)])
  }

  /** Dropping the last reference destroys the notifier, which stops it. */
  function DoRelease<T(==)>(s: Loop<T>, t: T): Loop<T>
    requires t in s.st
  {
    var r := s.(st := s.st[t := s.st[t].(refs := s.st[t].refs - 1)]);
    if s.st[t].refs - 1 == 0 then DoStop(r, t) else r
  }

  function DoAddRef<T(==)>(s: Loop<T>, t: T): Loop<T>
    requires t in s.st
  {
    s.(st := s.st[t := s.st[t].(refs := s.st[t].refs + 1)])
  }

  function Do<T(==)>(s: Loop<T>, a: Action<T>): Loop<T>
    requires a.t in s.st && (s.current.Some? ==> s.current.value in s.st)
  {
    match a
    case Start(t) => DoStart(s, t)
    case Stop(t) => DoStop(s, t)
    case SetRequested(t, req) => s.(st := s.st[t := s.st[t].(requested := req)])
    case AddRef(t) => DoAddRef(s, t)
    case Release(t) => DoRelease(s, t)
  }

  /** Known notifier; and a start finds its descriptor free, where the program asserts it. */
  predicate Allowed<T(==)>(s: Loop<T>, a: Action<T>)
    requires s.current.Some? ==> s.current.value in s.st
  {
    a.t in s.st && (a.Start? ==> s.st[a.t].fd !in BeforeEntry(s, a.t).byFd)
  }

  /** A callback: its operations in order.  A start whose assertion would fail ends the program,
      so such a run goes no further; here it is left out. */
  function Perform<T(==)>(s: Loop<T>, actions: seq<Action<T>>): Loop<T>
    requires Valid(s)
    decreases actions
  {
    if actions == [] then s
    else if Allowed(s, actions[0]) then
      DoFacts(s, actions[0]);
      Perform(Do(s, actions[0]), actions[1..])
    else Perform(s, actions[1..])
  }

  // ---------------------------------------------------------------- facts about the operations

  /** r is a later state of the same notifiers: descriptors and the current notifier are the
      same, epochs only grow, and a notifier is in the poll set of r only if it was in that of
      s and has not been started or stopped in between. */
  ghost predicate Later<T>(s: Loop<T>, r: Loop<T>) {
    && r.st.Keys == s.st.Keys && r.current == s.current
    && forall t :: t in s.st ==>
         && r.st[t].fd == s.st[t].fd && s.st[t].epoch <= r.st[t].epoch
         && (r.st[t].epoch == s.st[t].epoch ==> r.st[t].state == s.st[t].state)
         && (r.st[t].epoch != s.st[t].epoch ==> r.st[t].state != IN_POLL)
  }

  lemma LaterTrans<T>(a: Loop<T>, b: Loop<T>, c: Loop<T>)
    requires Later(a, b) && Later(b, c)
    ensures Later(a, c)
  {
  }

  lemma CurrentIsKnown<T>(s: Loop<T>)
    requires Valid(s)
    ensures s.current.Some? ==> s.current.value in s.st
  {
  }

  lemma StopFacts<T>(s: Loop<T>, t: T)
    requires Valid(s) && t in s.st
    ensures Valid(DoStop(s, t)) && Later(s, DoStop(s, t)) && DoStop(s, t).st[t].state == STOPPED
    ensures forall u :: u in s.st && u != t ==> DoStop(s, t).st[u] == s.st[u]
  {
  }

  lemma BeforeEntryFacts<T>(s: Loop<T>, t: T)
    requires Valid(s) && t in s.st
    ensures var r := BeforeEntry(s, t); Valid(r) && Later(s, r) && r.st[t].state == STOPPED
  {
    var a := DoStop(s, t);
    StopFacts(s, t);
    if a.current.Some? {
      StopFacts(a, a.current.value);
    }
    hide DoStop, Valid;
    LaterTrans(s, a, BeforeEntry(s, t));
  }

  lemma EntryFacts<T>(s: Loop<T>, t: T)
    requires Valid(s) && t in s.st && s.st[t].fd !in s.byFd
    ensures var f := s.st[t];
            var r := s.(byFd := s.byFd[f.fd := t], st := s.st[t := f.(state := STARTED, epoch := f.epoch + 1)]);
            Valid(r) && Later(s, r)
  {
  }

  lemma SameFd<T>(s: Loop<T>, t: T)
    requires Valid(s) && t in s.st
    ensures BeforeEntry(s, t).st[t].fd == s.st[t].fd
  {
    BeforeEntryFacts(s, t);
  }

  lemma FewerRefsFacts<T>(s: Loop<T>, t: T)
    requires Valid(s) && t in s.st
    ensures var r := s.(st := s.st[t := s.st[t].(refs := s.st[t].refs - 1)]); Valid(r) && Later(s, r)
  {
  }

  lemma ReleaseFacts<T>(s: Loop<T>, t: T)
    requires Valid(s) && t in s.st
    ensures Valid(DoRelease(s, t)) && Later(s, DoRelease(s, t))
  {
    hide Valid, Later, DoStop;
    var r := s.(st := s.st[t := s.st[t].(refs := s.st[t].refs - 1)]);
    FewerRefsFacts(s, t);
    StopFacts(r, t);
    LaterTrans(s, r, DoStop(r, t));
  }

  lemma DoFacts<T>(s: Loop<T>, a: Action<T>)
    requires Valid(s) && Allowed(s, a)
    ensures Valid(Do(s, a)) && Later(s, Do(s, a))
  {
    hide Valid, Later;
    CurrentIsKnown(s);
    match a {
      case Start(t) => StartFacts(s, t);
      case Stop(t) => StopFacts(s, t);
      case Release(t) => ReleaseFacts(s, t);
      case _ => RecordFacts(s, a);
    }
  }

  lemma RecordFacts<T>(s: Loop<T>, a: Action<T>)
    requires Valid(s) && Allowed(s, a) && (a.SetRequested? || a.AddRef?)
    ensures Valid(Do(s, a)) && Later(s, Do(s, a))
  {
  }

  lemma StartFacts<T>(s: Loop<T>, t: T)
    requires Valid(s) && Allowed(s, Start(t))
    ensures Valid(DoStart(s, t)) && Later(s, DoStart(s, t))
  {
    hide Valid, Later, BeforeEntry;
    CurrentIsKnown(s);
    BeforeEntryFacts(s, t);
    SameFd(s, t);
    EntryFacts(BeforeEntry(s, t), t);
    LaterTrans(s, BeforeEntry(s, t), DoStart(s, t));
  }

  lemma {:induction false} PerformFacts<T>(s: Loop<T>, actions: seq<Action<T>>)
    requires Valid(s)
    ensures Valid(Perform(s, actions)) && Later(s, Perform(s, actions))
    decreases actions
  {
    CurrentKnown(s);
    hide Valid;
    if actions == [] {
      LaterRefl(s);
    } else if Allowed(s, actions[0]) {
      var s' := Do(s, actions[0]);
      DoFacts(s, actions[0]);
      hide Later, Do;
      PerformFacts(s', actions[1..]);
      LaterTrans(s, s', Perform(s', actions[1..]));
    } else {
      PerformFacts(s, actions[1..]);
    }
  }

  lemma CurrentKnown<T>(s: Loop<T>)
    requires Valid(s)
    ensures s.current.Some? ==> s.current.value in s.st
  {
  }

  lemma LaterRefl<T>(s: Loop<T>)
    ensures Later(s, s)
  {
  }

  // ---------------------------------------------------------------- what each operation does

  /** The entries of all other notifiers. */
  ghost predicate SameEntriesBut<T>(s: Loop<T>, r: Loop<T>, t: T) {
    forall fd :: fd in s.byFd && s.byFd[fd] != t ==> fd in r.byFd && r.byFd[fd] == s.byFd[fd]
  }

  /** A stop leaves the notifier in state 0 and out of the table, and everything else alone. */
  lemma StopIs<T>(s: Loop<T>, t: T)
    requires Valid(s) && t in s.st
    ensures var r, f := DoStop(s, t), s.st[t];
      && t in r.st && r.st[t].state == 0 && r.st[t].(state := f.state, epoch := f.epoch) == f
      && (f.fd in r.byFd ==> r.byFd[f.fd] != t) && SameEntriesBut(s, r, t)
      && (forall u :: u in s.st && u != t ==> u in r.st && r.st[u] == s.st[u])
  {
  }

  /** A start enters the notifier in the table, in state 2, with its old interests and references; the
      only other one it may touch is a current one that nobody else holds, which it stops. */
  lemma StartIs<T>(s: Loop<T>, t: T)
    requires Valid(s) && Allowed(s, Start(t))
    ensures var r, f := DoStart(s, t), s.st[t];
      && t in r.st && r.st[t].state == 2 && r.st[t].(state := f.state, epoch := f.epoch) == f && r.st[t].epoch > f.epoch
      && f.fd in r.byFd && r.byFd[f.fd] == t
      && forall u :: u in s.st && u != t ==>
           && u in r.st
           && if s.current == Some(u) && s.st[u].refs == 1
              then r.st[u].state == 0 && r.st[u].(state := s.st[u].state, epoch := s.st[u].epoch) == s.st[u]
              else r.st[u] == s.st[u]
  {
    var a := DoStop(s, t);
    StopIs(s, t);
    StopFacts(s, t);
    if a.current.Some? && a.st[a.current.value].refs == 1 {
      StopIs(a, a.current.value);
      StopFacts(a, a.current.value);
    }
    hide Valid, DoStop, SameEntriesBut;
  }

  /** The others change one field, but for the release of the last reference, which stops. */
  lemma RecordsAre<T>(s: Loop<T>, t: T, req: Events)
    requires Valid(s) && t in s.st
    ensures Do(s, SetRequested(t, req)) == s.(st := s.st[t := s.st[t].(requested := req)])
    ensures Do(s, AddRef(t)) == s.(st := s.st[t := s.st[t].(refs := s.st[t].refs + 1)])
    ensures var r, f := Do(s, Release(t)), s.st[t];
      && t in r.st && r.st[t].refs == f.refs - 1 && r.st[t].requested == f.requested && r.st[t].fd == f.fd
      && (f.refs != 1 ==> r.st[t].state == f.state && r.byFd == s.byFd)
      && (f.refs == 1 ==> r.st[t].state == 0 && (f.fd in r.byFd ==> r.byFd[f.fd] != t))
      && (forall u :: u in s.st && u != t ==> u in r.st && r.st[u] == s.st[u])
  {
    var q := s.(st := s.st[t := s.st[t].(refs := s.st[t].refs - 1)]);
    FewerRefsFacts(s, t);
    StopIs(q, t);
    hide Valid, SameEntriesBut;
  }

  // ---------------------------------------------------------------- polling and dispatching

  /** Building the poll array marks every running notifier. */
  function MarkPolled<T(==)>(s: Loop<T>): Loop<T> {
    s.(st := map t | t in s.st ::
      if s.st[t].fd in s.byFd && s.byFd[s.st[t].fd] == t then s.st[t].(state := IN_POLL) else s.st[t])
  }

  /** It sets their state to 1 and touches nothing else. */
  lemma PolledIs<T>(s: Loop<T>, t: T)
    requires Valid(s) && t in s.st
    ensures var r := MarkPolled(s);
      r.byFd == s.byFd && t in r.st && r.st[t] == if s.st[t].state != 0 then s.st[t].(state := 1) else s.st[t]
  {
  }

  /** The dispatch pass up to some position: the loop, and how many callbacks have run. */
  datatype Pass<!T> = Pass(s: Loop<T>, calls: nat)

  /** The notifier woken by position i of the poll array, if any. */
  function Woken<T>(s: Loop<T>, fd: int, revents: Events): Option<Activation<T>>
    requires Valid(s)
  {
    if revents != 0 && fd in s.byFd && s.st[s.byFd[fd]].state == IN_POLL
       && Common(revents, s.st[s.byFd[fd]].requested) != 0
    then Some(Activation(s.byFd[fd], Common(revents, s.st[s.byFd[fd]].requested)))
    else None
  }

  /** One activation: hold a reference, run the callback, let go. */
  function Wake<T(==)>(s: Loop<T>, t: T, actions: seq<Action<T>>): (r: Loop<T>)
    requires Valid(s) && t in s.st
    ensures Valid(r) && r.current == None
  {
    var s1 := DoAddRef(s.(current := Some(t)), t);
    WakeStart(s, t);
    PerformFacts(s1, actions);
    var s2 := Perform(s1, actions);
    ReleaseFacts(s2, t);
    DoRelease(s2, t).(current := None)
  }

  /** While the callback runs, one more reference is held and the notifier is the current one; a callback
      that does nothing leaves everything as it was. */
  lemma WakeIdle<T>(s: Loop<T>, t: T)
    requires Valid(s) && t in s.st && s.st[t].refs >= 1
    ensures Wake(s, t, []) == s.(current := None)
  {
    var s1 := DoAddRef(s.(current := Some(t)), t);
    WakeStart(s, t);
    assert s1.st[t].refs == s.st[t].refs + 1;
    var s2 := s1.(st := s1.st[t := s1.st[t].(refs := s1.st[t].refs - 1)]);
    assert s2.st == s.st;
    hide Valid;
  }

  lemma PerformOne<T>(s: Loop<T>, a: Action<T>)
    requires Valid(s)
    ensures s.current.Some? ==> s.current.value in s.st
    ensures Perform(s, [a]) == if Allowed(s, a) then Do(s, a) else s
  {
    assert [a][1..] == [];
    if Allowed(s, a) {
      DoFacts(s, a);
    }
    hide Valid, Do;
  }

  /** The reference that is held keeps the notifier from being stopped as the current one when its own
      callback starts another. */
  lemma HeldWhileWoken<T>(s: Loop<T>, t: T, u: T)
    requires Valid(s) && t in s.st && s.st[t].refs >= 1 && u in s.st && u != t
    ensures t in Wake(s, t, [Start(u)]).st && Wake(s, t, [Start(u)]).st[t] == s.st[t]
  {
    var s1 := DoAddRef(s.(current := Some(t)), t);
    WakeStart(s, t);
    var s2 := Perform(s1, [Start(u)]);
    PerformOne(s1, Start(u));
    if Allowed(s1, Start(u)) {
      StartIs(s1, u);
    }
    assert t in s2.st && s2.st[t] == s1.st[t];
    PerformFacts(s1, [Start(u)]);
    RecordsAre(s2, t, 0);
    hide Valid, DoStart, Allowed;
  }

  lemma WakeStart<T>(s: Loop<T>, t: T)
    requires Valid(s) && t in s.st
    ensures Valid(DoAddRef(s.(current := Some(t)), t))
  {
  }

  /** One position of the dispatch loop. */
  function Turn<T(==)>(p: Pass<T>, fd: int, revents: Events, script: nat -> seq<Action<T>>): (r: Pass<T>)
    requires Valid(p.s)
    ensures Valid(r.s)
  {
    match Woken(p.s, fd, revents)
    case None => if revents != 0 && fd in p.s.byFd && p.s.st[p.s.byFd[fd]].state == IN_POLL
                 then p.(s := p.s.(current := None)) else p
    case Some(a) => Pass(Wake(p.s, a.t, script(p.calls)), p.calls + 1)
  }

  /** A position that wakes nobody changes no notifier and no entry; the current one is forgotten when
      a polled notifier was found that does not want what was reported. */
  lemma TurnWithoutWake<T>(p: Pass<T>, fd: int, revents: Events, script: nat -> seq<Action<T>>)
    requires Valid(p.s) && Woken(p.s, fd, revents) == None
    ensures var r := Turn(p, fd, revents, script);
      && r.calls == p.calls && r.s.byFd == p.s.byFd && r.s.st == p.s.st
      && r.s.current == if revents != 0 && fd in p.s.byFd && p.s.st[p.s.byFd[fd]].state == 1 then None else p.s.current
  {
  }

  /** The pass before position i.  `fds` is the poll array, `reported` what poll returned. */
  function Before<T(==)>(s: Loop<T>, fds: seq<int>, reported: int -> Events, script: nat -> seq<Action<T>>, i: nat): (p: Pass<T>)
    requires Valid(s) && i <= |fds|
    ensures Valid(p.s)
  {
    if i == 0 then Pass(s, 0)
    else Turn(Before(s, fds, reported, script, i - 1), fds[i - 1], reported(i - 1), script)
  }

  /** What position i of the pass wakes. */
  function WokenAt<T(==)>(s: Loop<T>, fds: seq<int>, reported: int -> Events, script: nat -> seq<Action<T>>, i: nat): Option<Activation<T>>
    requires Valid(s) && i < |fds|
  {
    Woken(Before(s, fds, reported, script, i).s, fds[i], reported(i))
  }

  /** The signals emitted by the positions before i, in order. */
  function Signals<T(==)>(s: Loop<T>, fds: seq<int>, reported: int -> Events, script: nat -> seq<Action<T>>, i: nat): seq<Activation<T>>
    requires Valid(s) && i <= |fds|
  {
    if i == 0 then []
    else
      var w := WokenAt(s, fds, reported, script, i - 1);
      Signals(s, fds, reported, script, i - 1) + if w.Some? then [w.value] else []
  }

  // ---------------------------------------------------------------- no stale activation

  /** Later, whatever the current notifier is. */
  ghost predicate Follows<T>(s: Loop<T>, r: Loop<T>) {
    Later(s, r.(current := s.current))
  }

  lemma FollowsTrans<T>(a: Loop<T>, b: Loop<T>, c: Loop<T>)
    requires Follows(a, b) && Follows(b, c)
    ensures Follows(a, c)
  {
  }

  lemma WakeFollows<T>(s: Loop<T>, t: T, actions: seq<Action<T>>)
    requires Valid(s) && t in s.st
    ensures Follows(s, Wake(s, t, actions))
  {
    var s1 := DoAddRef(s.(current := Some(t)), t);
    WakeStart(s, t);
    assert Follows(s, s1);
    PerformFacts(s1, actions);
    var s2 := Perform(s1, actions);
    ReleaseFacts(s2, t);
    hide Perform, DoRelease, Valid;
    assert Follows(s1, s2) && Follows(s2, Wake(s, t, actions));
    FollowsTrans(s, s1, s2);
    FollowsTrans(s, s2, Wake(s, t, actions));
  }

  lemma {:induction false} BeforeFollows<T>(s: Loop<T>, fds: seq<int>, reported: int -> Events,
                                           script: nat -> seq<Action<T>>, i: nat)
    requires Valid(s) && i <= |fds|
    ensures Follows(s, Before(s, fds, reported, script, i).s)
  {
    if i > 0 {
      var p := Before(s, fds, reported, script, i - 1);
      BeforeFollows(s, fds, reported, script, i - 1);
      var w := Woken(p.s, fds[i - 1], reported(i - 1));
      if w.Some? {
        WakeFollows(p.s, w.value.t, script(p.calls));
      }
      hide Wake;
      assert Follows(p.s, Before(s, fds, reported, script, i).s);
      FollowsTrans(s, p.s, Before(s, fds, reported, script, i).s);
    }
  }

  lemma MarkPolledFacts<T>(s: Loop<T>)
    requires Valid(s)
    ensures Valid(MarkPolled(s)) && MarkPolled(s).byFd == s.byFd && MarkPolled(s).st.Keys == s.st.Keys
    ensures forall t :: t in s.st ==>
              && MarkPolled(s).st[t].fd == s.st[t].fd && MarkPolled(s).st[t].epoch == s.st[t].epoch
              && (MarkPolled(s).st[t].state == IN_POLL <==> s.st[t].state != STOPPED)
  {
  }

  /** The notifier t polled on a descriptor is woken exactly when it has not been started or
      stopped since and is still interested in something reported; nobody else is woken, and it
      hears exactly the reported events it asks for. */
  ghost predicate HearsExactly<T>(s: Loop<T>, now: Loop<T>, t: T, revents: Events, woken: Option<Activation<T>>)
    requires t in s.st && t in now.st
  {
    && (woken.Some? <==> now.st[t].epoch == s.st[t].epoch && Common(revents, now.st[t].requested) != 0)
    && (woken.Some? ==> woken.value == Activation(t, Common(revents, now.st[t].requested)))
  }

  /** No stale activation, and no lost one, at any position of the poll array. */
  lemma NoStaleActivation<T>(s: Loop<T>, fds: seq<int>, reported: int -> Events, script: nat -> seq<Action<T>>, i: nat)
    requires Valid(s) && i < |fds| && fds[i] in s.byFd
    ensures Valid(MarkPolled(s))
    ensures var now, t := Before(MarkPolled(s), fds, reported, script, i).s, s.byFd[fds[i]];
            && t in now.st
            && HearsExactly(s, now, t, reported(i), WokenAt(MarkPolled(s), fds, reported, script, i))
  {
    MarkPolledFacts(s);
    hide Before, MarkPolled, Woken, Valid, Follows, HearsExactly;
    var m := MarkPolled(s);
    BeforeFollows(m, fds, reported, script, i);
    WokenIsPolled(s, m, Before(m, fds, reported, script, i).s, fds[i], reported(i));
  }

  /** In a state that follows the poll, a descriptor wakes its polled notifier or nobody. */
  lemma WokenIsPolled<T>(s: Loop<T>, m: Loop<T>, now: Loop<T>, fd: int, revents: Events)
    requires Valid(s) && Valid(now) && m == MarkPolled(s) && Follows(m, now) && fd in s.byFd
    ensures s.byFd[fd] in s.st && s.byFd[fd] in now.st
    ensures HearsExactly(s, now, s.byFd[fd], revents, Woken(now, fd, revents))
  {
    PolledOwner(s, m, now, fd);
    hide Follows, MarkPolled, Valid, Common;
    NothingReported(revents, now.st[s.byFd[fd]].requested);
  }

  lemma PolledOwner<T>(s: Loop<T>, m: Loop<T>, now: Loop<T>, fd: int)
    requires Valid(s) && Valid(now) && m == MarkPolled(s) && Follows(m, now) && fd in s.byFd
    ensures var t := s.byFd[fd];
            && t in now.st && t in s.st
            && (fd in now.byFd && now.st[now.byFd[fd]].state == IN_POLL <==> now.st[t].epoch == s.st[t].epoch)
            && (now.st[t].epoch == s.st[t].epoch ==> now.byFd[fd] == t)
  {
    var t := s.byFd[fd];
    InPollIffUntouched(s, m, now, t);
    hide Follows, MarkPolled;
    if fd in now.byFd && now.byFd[fd] != t {
      var u := now.byFd[fd];
      InPollIffUntouched(s, m, now, u);
      assert s.st[u].fd == fd;
    }
  }

  lemma InPollIffUntouched<T>(s: Loop<T>, m: Loop<T>, now: Loop<T>, t: T)
    requires Valid(s) && m == MarkPolled(s) && Follows(m, now) && t in s.st
    ensures t in now.st && now.st[t].fd == s.st[t].fd
    ensures now.st[t].state == IN_POLL <==> s.st[t].state != STOPPED && now.st[t].epoch == s.st[t].epoch
  {
    MarkPolledFacts(s);
  }

  lemma NothingReported(a: Events, b: Events)
    ensures a == 0 ==> Common(a, b) == 0
  {
  }

  /** A notifier is woken at most once in a pass. */
  lemma AtMostOnce<T>(s: Loop<T>, fds: seq<int>, reported: int -> Events, script: nat -> seq<Action<T>>, i: nat, j: nat)
    requires Valid(s) && i < j < |fds| && forall k :: 0 <= k < |fds| ==> fds[k] in s.byFd
    requires forall a, b :: 0 <= a < b < |fds| ==> fds[a] != fds[b]
    ensures Valid(MarkPolled(s))
    ensures var a, b := WokenAt(MarkPolled(s), fds, reported, script, i), WokenAt(MarkPolled(s), fds, reported, script, j);
            a.Some? && b.Some? ==> a.value.t != b.value.t
  {
    hide Before, Woken;
    NoStaleActivation(s, fds, reported, script, i);
    NoStaleActivation(s, fds, reported, script, j);
    assert s.st[s.byFd[fds[i]]].fd == fds[i] && s.st[s.byFd[fds[j]]].fd == fds[j];
  }
}
