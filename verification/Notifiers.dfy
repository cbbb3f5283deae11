/** Socket notifiers and the poll half of the main loop, as the objects that change in place.
  Every method is tied to the functions of Dispatch through the loop's view. */
module Notifiers {
  import opened Basics
  import opened Dispatch

  class SocketNotifier {
    const context: Mainloop
    const fd: int
    var state: int
    var requested: Events
    var refs: int
    /** Number of starts and stops so far; the program keeps no such count. */
    var epoch: nat

    constructor (context: Mainloop, fd: int, requested: Events)
      ensures this.context == context && this.fd == fd && this.requested == requested
      ensures state == STOPPED && refs == 1
    {
      this.context, this.fd, this.requested := context, fd, requested;
      state, refs, epoch := STOPPED, 1, 0;
    }

    function View(): Fields
      reads this
    {
      Fields(fd, state, requested, refs, epoch)
    }

    /** eSocketNotifier::start. */
    method Start()
      requires context.Ready() && this in context.own && Valid(context.View())
      requires Allowed(context.View(), Action.Start(this))
      modifies context.own, context`notifiers
      ensures context.Ready() && Valid(context.View()) && context.View() == DoStart(old(context.View()), this)
    {
      hide Valid, DropCurrent, Later, BeforeEntry, DoStart, Allowed;
      ghost var s := context.View();
      StopFacts(s, this);
      StartSteps(s, this);
      if state != STOPPED {
        Stop();
      } else {
        StoppedAlready(s, this);
      }
      hide DoStop;
      context.AddSocketNotifier(this);
      Switch(STARTED);
    }

    /** Writing the state field, counted as a start or stop. */
    method Switch(next: int)
      requires context.Ready() && this in context.own
      modifies this`state, this`epoch
      ensures context.Ready()
      ensures var s := old(context.View()); var f := s.st[this];
              context.View() == s.(st := s.st[this := f.(state := next, epoch := f.epoch + 1)])
    {
      ghost var s := context.View();
      state, epoch := next, epoch + 1;
      context.SetField(s, this);
    }

    /** eSocketNotifier::stop. */
    method Stop()
      requires context.Ready() && this in context.own && Valid(context.View())
      modifies this`state, this`epoch, context`notifiers
      ensures context.Ready() && Valid(context.View()) && context.View() == DoStop(old(context.View()), this)
    {
      ghost var s := context.View();
      StopFacts(s, this);
      TableEntry(s, this);
      hide Valid, Later;
      if state != STOPPED {
        Switch(STOPPED);
        context.RemoveSocketNotifier(this);
      }
    }

    method AddRef()
      requires context.Ready() && this in context.own
      modifies this`refs
      ensures context.Ready() && context.View() == DoAddRef(old(context.View()), this)
    {
      ghost var s := context.View();
      refs := refs + 1;
      context.SetField(s, this);
    }

    /** Letting go of a reference; the last one destroys the notifier, which stops it. */
    method Release()
      requires context.Ready() && this in context.own && Valid(context.View())
      modifies this, context`notifiers
      ensures context.Ready() && Valid(context.View()) && context.View() == DoRelease(old(context.View()), this)
    {
      ghost var s := context.View();
      ReleaseFacts(s, this);
      FewerRefs(s, this);
      refs := refs - 1;
      context.SetField(s, this);
      hide Valid;
      if refs == 0 {
        Stop();
      }
    }

    method SetRequested(req: Events)
      requires context.Ready() && this in context.own
      modifies this`requested
      ensures context.Ready() && context.View() == Do(old(context.View()), Action.SetRequested(this, req))
    {
      ghost var s := context.View();
      requested := req;
      context.SetField(s, this);
    }
  }

  /** A start, step by step. */
  lemma StartSteps(s: Loop<SocketNotifier>, t: SocketNotifier)
    requires Valid(s) && t in s.st && Allowed(s, Action.Start(t))
    ensures Valid(DoStop(s, t)) && Valid(DoStart(s, t))
    ensures DropCurrent(DoStop(s, t)) == BeforeEntry(s, t) && s.st[t].fd !in BeforeEntry(s, t).byFd
    ensures var r := BeforeEntry(s, t); var f := r.st[t];
            && f.fd == s.st[t].fd
            && DoStart(s, t) == r.(byFd := r.byFd[f.fd := t]).(st := r.st[t := f.(state := STARTED, epoch := f.epoch + 1)])
  {
    StopFacts(s, t);
    BeforeEntryFacts(s, t);
    DoFacts(s, Action.Start(t));
  }

  lemma TableEntry(s: Loop<SocketNotifier>, t: SocketNotifier)
    requires Valid(s) && t in s.st
    ensures s.st[t].state != STOPPED ==> s.st[t].fd in s.byFd
  {
  }

  lemma StoppedAlready(s: Loop<SocketNotifier>, t: SocketNotifier)
    requires t in s.st && s.st[t].state == STOPPED
    ensures DoStop(s, t) == s
  {
  }

  lemma FewerRefs(s: Loop<SocketNotifier>, t: SocketNotifier)
    requires Valid(s) && t in s.st
    ensures Valid(s.(st := s.st[t := s.st[t].(refs := s.st[t].refs - 1)]))
  {
  }

  class Mainloop {
    var notifiers: map<int, SocketNotifier>
    var inActivate: Option<SocketNotifier>
    /** All notifiers created for this loop. */
    var own: set<SocketNotifier>

    constructor ()
      ensures notifiers == map[] && inActivate == None && own == {}
    {
      notifiers, inActivate, own := map[], None, {};
    }

    ghost predicate Ready()
      reads this, own
    {
      && (forall t :: t in own ==> t.context == this)
      && (forall fd :: fd in notifiers ==> notifiers[fd] in own)
      && (inActivate.Some? ==> inActivate.value in own)
    }

    function View(): (s: Loop<SocketNotifier>)
      reads this, own
      ensures s.byFd == notifiers && s.st.Keys == own && s.current == inActivate
      ensures forall t :: t in own ==> s.st[t] == t.View()
    {
      Loop(notifiers, map t | t in own :: t.View(), inActivate)
    }

    /** What writing one notifier's fields does to the view. */
    ghost method SetField(s: Loop<SocketNotifier>, t: SocketNotifier)
      requires s.byFd == notifiers && s.current == inActivate && s.st.Keys == own && t in own
      requires forall u :: u in own && u != t ==> s.st[u] == u.View()
      ensures View() == s.(st := s.st[t := t.View()])
    {
      assert View().st == s.st[t := t.View()];
    }

    /** eMainloop::addSocketNotifier. */
    method AddSocketNotifier(sn: SocketNotifier)
      requires Ready() && sn in own && Valid(View())
      requires sn.fd !in DropCurrent(View()).byFd
      modifies own, `notifiers
      ensures Ready() && View() == (var r := DropCurrent(old(View())); r.(byFd := r.byFd[sn.fd := sn]))
    {
      if inActivate.Some? && inActivate.value.refs == 1 {
        inActivate.value.Stop();
      }
      assert sn.fd !in notifiers;
      ghost var r := View();
      notifiers := notifiers[sn.fd := sn];
      assert View().st == r.st;
    }

    /** eMainloop::removeSocketNotifier, for a notifier that is in the table. */
    method RemoveSocketNotifier(sn: SocketNotifier)
      requires Ready() && sn in own && sn.fd in notifiers
      modifies `notifiers
      ensures Ready() && View() == old(View()).(byFd := old(notifiers) - {sn.fd})
    {
      ghost var r := View();
      notifiers := notifiers - {sn.fd};
      assert View().st == r.st;
    }

    method Execute(a: Action<SocketNotifier>)
      requires Ready() && Valid(View()) && Allowed(View(), a)
      modifies own, `notifiers
      ensures Ready() && Valid(View()) && View() == Do(old(View()), a)
    {
      DoFacts(View(), a);
      hide Valid, DoStart, DoStop, DoRelease, DoAddRef, Allowed;
      match a
      case Start(t) => t.Start();
      case Stop(t) => t.Stop();
      case SetRequested(t, req) => t.SetRequested(req);
      case AddRef(t) => t.AddRef();
      case Release(t) => t.Release();
    }

    /** A callback. */
    method Callback(actions: seq<Action<SocketNotifier>>)
      requires Ready() && Valid(View())
      modifies own, `notifiers
      ensures Ready() && Valid(View()) && View() == Perform(old(View()), actions)
    {
      hide Do;
      ghost var s := View();
      var i := 0;
      assert actions[0..] == actions;
      while i < |actions|
        invariant 0 <= i <= |actions| && Ready() && Valid(View())
        invariant Perform(View(), actions[i..]) == Perform(s, actions)
      {
        assert actions[i..][1..] == actions[i + 1..];
        if Allowed(View(), actions[i]) {
          Execute(actions[i]);
        }
        i := i + 1;
      }
    }

    /** Filling the poll array: ascending descriptors, every running notifier marked. */
    method BuildPoll() returns (fds: seq<int>)
      requires Ready() && Valid(View())
      modifies own
      ensures Ready() && Valid(View()) && View() == MarkPolled(old(View()))
      ensures Ascending(fds) && Lists(fds, notifiers.Keys)
    {
      ghost var s := View();
      MarkPolledFacts(s);
      MarkedAll(s);
      hide Valid, MarkPolled, MarkedBut, Ascending, Rest, Lists;
      fds := KeysInOrder(notifiers.Keys);
      var i := 0;
      RestAll(fds, notifiers.Keys);
      while i < |fds|
        invariant 0 <= i <= |fds| && Ready() && notifiers == s.byFd
        invariant View() == MarkedBut(s, Rest(fds, i))
      {
        var fd := fds[i];
        RestStep(fds, i, notifiers.Keys);
        MarkOne(s, Rest(fds, i), fd);
        Mark(fd);
        i := i + 1;
      }
    }

    method Mark(fd: int)
      requires Ready() && fd in notifiers
      modifies own
      ensures Ready()
      ensures var v, t := old(View()), notifiers[fd];
              t in v.st && View() == v.(st := v.st[t := v.st[t].(state := IN_POLL)])
    {
      ghost var v := View();
      notifiers[fd].state := IN_POLL;
      SetField(v, notifiers[fd]);
    }

    /** The dispatch loop of eMainloop::processOneEvent over the poll array.  `reported` is what
        the poll call returned for each position, `log` the signals emitted. */
    method DispatchPass(fds: seq<int>, reported: int -> Events, script: nat -> seq<Action<SocketNotifier>>)
      returns (log: seq<Activation<SocketNotifier>>)
      requires Ready() && Valid(View())
      modifies own, this`notifiers, this`inActivate
      ensures Ready() && Valid(View()) && View() == Before(old(View()), fds, reported, script, |fds|).s
      ensures log == Signals(old(View()), fds, reported, script, |fds|)
    {
      hide Valid, Wake, Common;
      ghost var s := View();
      var i, calls := 0, 0;
      log := [];
      while i < |fds|
        invariant 0 <= i <= |fds| && Ready() && Valid(View())
        invariant Pass(View(), calls) == Before(s, fds, reported, script, i)
        invariant log == Signals(s, fds, reported, script, i)
      {
        var fd, revents := fds[i], reported(i);
        if revents != 0 && fd in notifiers && notifiers[fd].state == IN_POLL {
          var t := notifiers[fd];
          var what := Common(revents, t.requested);
          if what != 0 {
            log := log + [Activation(t, what)];
            WakeOne(t, script(calls));
            calls := calls + 1;
          } else {
            ClearCurrent();
          }
        }
        i := i + 1;
      }
    }

    /** Nobody is being activated. */
    method ClearCurrent()
      requires Ready() && Valid(View())
      modifies `inActivate
      ensures Ready() && Valid(View()) && View() == old(View()).(current := None)
    {
      ghost var r := View();
      inActivate := None;
      assert View().st == r.st;
    }

    /** One activation. */
    method WakeOne(t: SocketNotifier, actions: seq<Action<SocketNotifier>>)
      requires Ready() && Valid(View()) && t in own
      modifies own, this`notifiers, this`inActivate
      ensures Ready() && Valid(View()) && View() == Wake(old(View()), t, actions)
    {
      ghost var s := View();
      WakeStart(s, t);
      inActivate := Some(t);
      assert View() == s.(current := Some(t)) by {
        assert View().st == s.st;
      }
      t.AddRef();
      hide Valid, Perform, DoRelease, DoAddRef;
      Callback(actions);
      t.Release();
      ClearCurrent();
    }
  }

  /** The poll marks, with the descriptors of `rest` still to come. */
  ghost function MarkedBut(s: Loop<SocketNotifier>, rest: set<int>): Loop<SocketNotifier> {
    s.(st := map t | t in s.st ::
      if s.st[t].fd in s.byFd && s.byFd[s.st[t].fd] == t && s.st[t].fd !in rest
      then s.st[t].(state := IN_POLL) else s.st[t])
  }

  lemma MarkOne(s: Loop<SocketNotifier>, rest: set<int>, fd: int)
    requires Valid(s) && fd in rest && fd in s.byFd
    ensures s.byFd[fd] in s.st && s.st[s.byFd[fd]].fd == fd
    ensures var m, t := MarkedBut(s, rest), s.byFd[fd];
            MarkedBut(s, rest - {fd}) == m.(st := m.st[t := m.st[t].(state := IN_POLL)])
  {
    var m, t := MarkedBut(s, rest), s.byFd[fd];
    assert MarkedBut(s, rest - {fd}).st == m.st[t := m.st[t].(state := IN_POLL)];
  }

  lemma MarkedAll(s: Loop<SocketNotifier>)
    ensures MarkedBut(s, {}) == MarkPolled(s)
    ensures Valid(s) ==> MarkedBut(s, s.byFd.Keys) == s
  {
    assert MarkedBut(s, {}).st == MarkPolled(s).st;
    if Valid(s) {
      assert MarkedBut(s, s.byFd.Keys).st == s.st;
    }
  }

  ghost predicate Lists(fds: seq<int>, keys: set<int>) {
    forall fd :: fd in fds <==> fd in keys
  }

  ghost predicate Ascending(fds: seq<int>) {
    forall i, j :: 0 <= i < j < |fds| ==> fds[i] < fds[j]
  }

  /** The descriptors from position i on. */
  ghost function Rest(fds: seq<int>, i: nat): set<int>
    requires i <= |fds|
  {
    set j | i <= j < |fds| :: fds[j]
  }

  lemma RestAll(fds: seq<int>, keys: set<int>)
    requires Lists(fds, keys)
    ensures Rest(fds, 0) == keys && Rest(fds, |fds|) == {}
  {
    forall fd
      ensures fd in Rest(fds, 0) <==> fd in keys
    {
      if fd in fds {
        var j :| 0 <= j < |fds| && fds[j] == fd;
        assert fd in Rest(fds, 0);
      }
    }
    assert Rest(fds, 0) == keys;
    assert Rest(fds, |fds|) == {};
  }

  lemma RestStep(fds: seq<int>, i: nat, keys: set<int>)
    requires Ascending(fds) && i < |fds|
    ensures Lists(fds, keys) ==> fds[i] in keys
    ensures fds[i] in Rest(fds, i) && Rest(fds, i + 1) == Rest(fds, i) - {fds[i]}
  {
    assert fds[i] in Rest(fds, i);
    forall fd
      ensures fd in Rest(fds, i + 1) <==> fd in Rest(fds, i) && fd != fds[i]
    {
      if fd in Rest(fds, i + 1) {
        var j :| i + 1 <= j < |fds| && fds[j] == fd;
        assert fd in Rest(fds, i);
      } else if fd in Rest(fds, i) {
        var j :| i <= j < |fds| && fds[j] == fd;
      }
    }
    assert Rest(fds, i + 1) == Rest(fds, i) - {fds[i]};
  }

  /** The keys of an ordered map, as its iterator visits them. */
  method KeysInOrder(keys: set<int>) returns (fds: seq<int>)
    ensures Ascending(fds) && Lists(fds, keys)
  {
    fds := [];
    var rest := keys;
    while rest != {}
      invariant rest <= keys && Ascending(fds)
      invariant forall fd :: fd in fds <==> fd in keys && fd !in rest
      invariant forall fd, i :: fd in rest && 0 <= i < |fds| ==> fds[i] < fd
      decreases |rest|
    {
      var fd := MinOf(rest);
      fds, rest := fds + [fd], rest - {fd};
    }
  }

  lemma MinExists(keys: set<int>)
    requires keys != {}
    ensures exists m :: m in keys && forall k :: k in keys ==> m <= k
  {
    if forall x :: x !in keys {
      assert false;
    }
    var x :| x in keys;
    if keys == {x} {
      assert x in keys && forall k :: k in keys ==> x <= k;
    } else {
      var rest := keys - {x};
      MinExists(rest);
      var m :| m in rest && forall k :: k in rest ==> m <= k;
      var least := if x < m then x else m;
      forall k | k in keys
        ensures least <= k
      {
        assert k == x || k in rest;
      }
      assert least in keys;
    }
  }

  /** The next key of an ordered map. */
  method MinOf(keys: set<int>) returns (m: int)
    requires keys != {}
    ensures m in keys && forall k :: k in keys ==> m <= k
  {
    MinExists(keys);
    m :| m in keys && forall k :: k in keys ==> m <= k;
  }
}
