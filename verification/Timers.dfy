/** Timers and the timer half of the main loop, as the objects that change in place.  Every
  method is tied to the functions of Schedule through the loop's view. */
module Timers {
  import opened Timespec
  import opened Schedule

  class Timer {
    const context: Mainloop
    var due: Timespec
    var interval: int
    var single: bool
    var active: bool

    constructor (context: Mainloop)
      ensures this.context == context && !active && due == Timespec(0, 0) && interval == 0
    {
      this.context := context;
      due, interval, single, active := Timespec(0, 0), 0, false, false;
    }

    function State(): TimerState
      reads this
    {
      TimerState(due, interval, single, active)
    }

    predicate NeedsActivation(now: Timespec)
      reads this
    {
      LessEq(due, now)
    }

    /** eTimer::start.  `clock` is the time that the monotonic clock shows during the call. */
    method Start(msek: int, singleShot: bool, clock: Timespec)
      requires context.Ready() && this in context.own && Valid(context.View())
      modifies this, context`timers
      ensures context.Ready() && context.View() == DoStart(old(context.View()), this, msek, singleShot, clock)
      ensures LaterBy(due, clock, if msek > 0 then msek * 1_000_000 else 0)
      ensures interval == msek && single == singleShot && active && this in context.timers
      ensures Valid(context.View())
    {
      hide Valid, Add, DoStop, AddMs;
      var next := clock;
      next := AddMs(next, if msek < 0 then 0 else msek);
      AddIsAfter(clock, if msek < 0 then 0 else msek);
      Arm(next, msek, singleShot);
    }

    /** eTimer::startLongTimer. */
    method StartLongTimer(seconds: int, clock: Timespec)
      requires context.Ready() && this in context.own && Valid(context.View())
      modifies this, context`timers
      ensures context.Ready() && context.View() == DoStartLong(old(context.View()), this, seconds, clock)
      ensures LaterBy(due, clock, if seconds > 0 then seconds * 1_000_000_000 else 0)
      ensures interval == 0 && single && active && this in context.timers
      ensures Valid(context.View())
    {
      hide Valid, Add, DoStop;
      var next := clock;
      if seconds > 0 {
        next := next.(sec := next.sec + seconds);
      }
      Arm(next, 0, true);
    }

    /** The common part of the two: stop if running, set the fields, list the timer. */
    method Arm(next: Timespec, msek: int, singleShot: bool)
      requires context.Ready() && this in context.own && Valid(context.View())
      modifies this, context`timers
      ensures var s1 := DoStop(old(context.View()), this);
              context.Ready() && context.View() == Add(s1.(st := s1.st[this := TimerState(next, msek, singleShot, true)]), this)
      ensures due == next && interval == msek && single == singleShot && active && this in context.timers
      ensures Valid(context.View())
    {
      hide Valid, Listed, Add, Remove;
      ghost var s, ts := context.View(), TimerState(next, msek, singleShot, true);
      StopFacts(s, this);
      StartFacts(s, this, ts);
      ghost var s1 := DoStop(s, this);
      ValidIsListed(s1);
      if active {
        Stop();
      } else {
        StopInactive(s, this);
      }
      hide DoStop;
      active, single, interval, due := true, singleShot, msek, next;
      context.SetField(s1, this);
      SetUnlisted(s1, this, ts);
      context.AddTimer(this);
    }

    /** eTimer::stop. */
    method Stop()
      requires context.Ready() && this in context.own && Valid(context.View())
      modifies this`active, context`timers
      ensures context.Ready() && context.View() == DoStop(old(context.View()), this)
      ensures !active && this !in context.timers
      ensures Valid(context.View())
    {
      ghost var s := context.View();
      StopFacts(s, this);
      if active {
        active := false;
        context.SetField(s, this);
        context.RemoveTimer(this);
      }
    }

    /** eTimer::changeInterval. */
    method ChangeInterval(msek: int)
      requires context.Ready() && this in context.own && Valid(context.View())
      modifies this, context`timers
      ensures context.Ready() && context.View() == DoChange(old(context.View()), this, msek)
      ensures LaterBy(due, old(due), old(if active then msek - interval else msek) * 1_000_000)
      ensures interval == msek && single == old(single) && active && this in context.timers
      ensures Valid(context.View())
    {
      hide Valid, Listed, Add, Remove, SubMs, AddMs, LaterBy, DoChange;
      ghost var s := context.View();
      ChangeUnfolds(s, this, msek);
      ChangeIsDue(s, this, msek);
      if active {
        context.RemoveTimer(this);
        due := SubMs(due, interval);
      } else {
        active := true;
      }
      ghost var s1 := if s.st[this].active then Remove(s, this) else s;
      interval := msek;
      due := AddMs(due, interval);
      context.SetField(s1, this);
      context.AddTimer(this);
    }

    /** eTimer::activate up to the signal; the main loop has already unlinked the timer. */
    method Activate()
      requires context.Ready() && this in context.own
      requires Listed(context.View()) && this !in context.timers
      modifies this, context`timers
      ensures context.Ready() && context.View() == DoActivate(old(context.View()), this)
      ensures interval == old(interval) && single == old(single)
      ensures if single then due == old(due) && !active && this !in context.timers
              else LaterBy(due, old(due), interval * 1_000_000) && active == old(active) && this in context.timers
    {
      ghost var s := context.View();
      if !single {
        due := AddMs(due, interval);
        context.SetField(s, this);
        SetUnlisted(s, this, State());
        context.AddTimer(this);
      } else {
        active := false;
        context.SetField(s, this);
      }
    }
  }

  class Mainloop {
    var timers: seq<Timer>
    /** All timers created for this loop. */
    var own: set<Timer>

    constructor ()
      ensures timers == [] && own == {}
    {
      timers, own := [], {};
    }

    ghost predicate Ready()
      reads this, own
    {
      && (forall t :: t in own ==> t.context == this)
      && (forall t :: t in timers ==> t in own)
    }

    function View(): (s: Loop<Timer>)
      reads this, own
      ensures s.order == timers && s.st.Keys == own
      ensures forall t :: t in own ==> s.st[t] == t.State()
    {
      Loop(timers, map t | t in own :: t.State())
    }

    /** What writing one timer's fields does to the view. */
    ghost method SetField(s: Loop<Timer>, t: Timer)
      requires s.order == timers && s.st.Keys == own && t in own
      requires forall u :: u in own && u != t ==> s.st[u] == u.State()
      ensures View() == s.(st := s.st[t := t.State()])
    {
      assert View().st == s.st[t := t.State()];
    }

    /** eMainloop::addTimer: insert_in_order, with the halving search of std::lower_bound. */
    method AddTimer(t: Timer)
      requires Ready() && t in own && Listed(View())
      modifies `timers
      ensures Ready() && View() == Add(old(View()), t)
    {
      hide Less, Listed, LowerBound;
      ghost var s := View();
      var first, count := 0, |timers|;
      while count > 0
        invariant timers == s.order && 0 <= first <= first + count <= |timers|
        invariant forall i :: 0 <= i < first ==> Less(timers[i].due, t.due)
        invariant forall i :: first + count <= i < |timers| ==> !Less(timers[i].due, t.due)
        decreases count
      {
        var step := count / 2;
        SortedSplit(s, t, first + step);
        if Less(timers[first + step].due, t.due) {
          first := first + step + 1;
          count := count - step - 1;
        } else {
          count := step;
        }
      }
      LowerBoundIs(timers, s.st, t.due, first);
      timers := timers[..first] + [t] + timers[first..];
      assert View().st == s.st;
    }

    lemma SortedSplit(s: Loop<Timer>, t: Timer, k: nat)
      requires Listed(s) && t in s.st && k < |s.order|
      ensures forall u :: u in s.order ==> u in s.st
      ensures Less(s.st[s.order[k]].due, s.st[t].due) ==>
                forall i :: 0 <= i <= k ==> Less(s.st[s.order[i]].due, s.st[t].due)
      ensures !Less(s.st[s.order[k]].due, s.st[t].due) ==>
                forall i :: k <= i < |s.order| ==> !Less(s.st[s.order[i]].due, s.st[t].due)
    {
    }

    /** eMainloop::removeTimer: drop the first occurrence. */
    method RemoveTimer(t: Timer)
      requires Ready()
      modifies `timers
      ensures Ready() && View() == Remove(old(View()), t)
    {
      ghost var s := View();
      var i := 0;
      while i < |timers| && timers[i] != t
        invariant 0 <= i <= |timers| && timers == s.order
        invariant t !in timers[..i]
      {
        i := i + 1;
      }
      WithoutAt(timers, t, i);
      hide Without;
      if i < |timers| {
        timers := timers[..i] + timers[i + 1..];
      }
      assert View().st == s.st;
    }

    /** One operation of a callback. */
    method Execute(a: Action<Timer>)
      requires Ready() && Valid(View()) && a.t in own
      modifies own, `timers
      ensures Ready() && Valid(View()) && View() == Do(old(View()), a)
    {
      match a
      case Start(t, msek, single, clock) => t.Start(msek, single, clock);
      case StartLong(t, seconds, clock) => t.StartLongTimer(seconds, clock);
      case Stop(t) => t.Stop();
      case ChangeInterval(t, msek) => t.ChangeInterval(msek);
    }

    /** A callback, without the operations that would make a timer due again. */
    method Callback(actions: seq<Action<Timer>>, now: Timespec)
      requires Ready() && Valid(View())
      modifies own, `timers
      ensures Ready() && Valid(View()) && View() == Perform(old(View()), actions, now)
    {
      hide Valid, Perform, Do, Harmless;
      ghost var s := View();
      var i := 0;
      assert actions[0..] == actions;
      while i < |actions|
        invariant 0 <= i <= |actions| && Ready() && Valid(View())
        invariant Perform(View(), actions[i..], now) == Perform(s, actions, now)
      {
        ValidIsListed(View());
        assert actions[i..][1..] == actions[i + 1..];
        PerformStep(View(), actions[i..], now);
        if Harmless(View(), actions[i], now) {
          Execute(actions[i]);
        }
        i := i + 1;
      }
      PerformStep(View(), actions[i..], now);
    }

    /** Unlink the head, activate it, run its callback. */
    method FireOne(actions: seq<Action<Timer>>, now: Timespec)
      requires Ready() && Valid(View()) && timers != []
      modifies own, `timers
      ensures Ready() && Valid(View()) && View() == FireHead(old(View()), actions, now)
    {
      hide Valid, Listed, DoActivate, Perform;
      var tmr := timers[0];
      ghost var v := View();
      RearmFacts(v);
      Unlinked(v);
      timers := timers[1..];
      assert View() == v.(order := v.order[1..]);
      tmr.Activate();
      Callback(actions, now);
    }

    /** The timer part of eMainloop::processOneEvent.  `log` lists the emitted signals. */
    method ProcessReady(now: Timespec, script: nat -> seq<Action<Timer>>) returns (log: seq<Firing<Timer>>)
      requires Ready() && Valid(View()) && GoodDue(View(), now)
      modifies own, `timers
      ensures Ready() && (View(), log) == RunReady(old(View()), now, script, 0)
      ensures Valid(View()) && NothingDue(View(), now)
    {
      hide Valid, GoodDue, FireHead, RunReady, Work, NothingDue;
      ghost var result := RunReady(View(), now, script, 0);
      var k := 0;
      log := [];
      while timers != [] && timers[0].NeedsActivation(now)
        invariant Ready() && Valid(View()) && GoodDue(View(), now)
        invariant RunReady(View(), now, script, k).0 == result.0
        invariant log + RunReady(View(), now, script, k).1 == result.1
        decreases Work(View().order, View().st, now)
      {
        ghost var v := View();
        RunReadyStep(v, now, script, k);
        log := log + [Firing(timers[0], timers[0].due)];
        FireOne(script(k), now);
        k := k + 1;
      }
      RunReadyStep(View(), now, script, k);
      assert log + [] == log;
      HeadNotDue(View(), now);
    }

    lemma Unlinked(v: Loop<Timer>)
      requires Valid(v) && v.order != []
      ensures Listed(v.(order := v.order[1..])) && v.order[0] !in v.order[1..]
    {
      assert forall u :: u in v.order[1..] ==> u in v.order;
    }
  }
}
