/** eSemaphore: a count guarded by a mutex, and a condition on which `down` waits for it to be
    positive.

  Any number of threads may be in `down` and `up` at once.  Threads in the same place behave
  alike, so the state holds how many stand where; the mutex says what its one holder is doing.
 */
module Semaphore {

  datatype Mutex =
    | Free
    | Testing        // in down, about to test the count
    | Taken          // in down, has taken one
    | Raising        // in up, about to add one
    | Raised         // in up, has added one

  datatype State = State(
    v: int, mutex: Mutex,
    waiting: nat,      // in down, in pthread_cond_wait
    woken: nat,        // in down, awake, wanting the mutex back
    signalling: nat)   // in up, past the unlock, about to signal

  datatype Step =
    | DownLock | Wait | Take | DownUnlock
    | UpLock | Raise | UpUnlock | Signal
    | SpuriousWakeup | Relock

  predicate Initial(s: State) { s == State(1, Free, 0, 0, 0) }

  predicate Enabled(s: State, step: Step) {
    match step
    case DownLock => s.mutex.Free?
    case Wait => s.mutex.Testing? && s.v <= 0
    case Take => s.mutex.Testing? && s.v > 0
    case DownUnlock => s.mutex.Taken?
    case UpLock => s.mutex.Free?
    case Raise => s.mutex.Raising?
    case UpUnlock => s.mutex.Raised?
    case Signal => s.signalling > 0
    case SpuriousWakeup => s.waiting > 0
    case Relock => s.woken > 0 && s.mutex.Free?
  }

  function Apply(s: State, step: Step): State
    requires Enabled(s, step)
  {
    match step
    case DownLock => s.(mutex := Testing)
    case Wait => s.(mutex := Free, waiting := s.waiting + 1)
    case Take => s.(mutex := Taken, v := s.v - 1)
    case DownUnlock => s.(mutex := Free)
    case UpLock => s.(mutex := Raising)
    case Raise => s.(mutex := Raised, v := s.v + 1)
    case UpUnlock => s.(mutex := Free, signalling := s.signalling + 1)
    case Signal =>
      if s.waiting == 0 then s.(signalling := s.signalling - 1)
      else s.(signalling := s.signalling - 1, waiting := s.waiting - 1, woken := s.woken + 1)
    case SpuriousWakeup => s.(waiting := s.waiting - 1, woken := s.woken + 1)
    case Relock => s.(woken := s.woken - 1, mutex := Testing)
  }

  ghost predicate Runs(s: State, steps: seq<Step>, t: State)
    decreases steps
  {
    if steps == [] then t == s
    else Enabled(s, steps[0]) && Runs(Apply(s, steps[0]), steps[1..], t)
  }

  function Count(steps: seq<Step>, step: Step): (n: nat)
    ensures n <= |steps|
  {
    if steps == [] then 0 else (if steps[0] == step then 1 else 0) + Count(steps[1..], step)
  }

  /** Threads that will still act on the count: they signal, or test it again. */
  function Alert(s: State): nat {
    s.signalling + s.woken + (if s.mutex.Raised? || s.mutex.Testing? then 1 else 0)
  }

  /** Threads in down that have not taken one. */
  function Wanting(s: State): nat { s.waiting + s.woken + (if s.mutex.Testing? then 1 else 0) }

  /** The count is never negative, and for each unit of it that a thread in down wants there is a
      thread that will see to it. */
  predicate Inv(s: State) { s.v >= 0 && (Alert(s) >= s.v || Alert(s) >= Wanting(s)) }

  lemma {:induction false} RunKeepsInv(s: State, steps: seq<Step>, t: State)
    requires Inv(s) && Runs(s, steps, t)
    ensures Inv(t) && t.v == s.v + Count(steps, Raise) - Count(steps, Take)
    decreases steps
  {
    if steps != [] {
      RunKeepsInv(Apply(s, steps[0]), steps[1..], t);
    }
  }

  /** Every thread in the semaphore is asleep in down: only new calls, or a wakeup for no reason,
      make anything happen. */
  predicate Asleep(s: State) { s.mutex.Free? && s.woken == 0 && s.signalling == 0 }

  /** The semaphore as two atomic operations: in every interleaving of any number of threads the
      count is 1 plus the completed ups less the completed downs and never negative, so a down
      takes one only when there is one; and no wakeup is lost, for when all is quiet a thread is
      still waiting only if the count is 0. */
  lemma DownAndUpAreAtomic(s: State, steps: seq<Step>, t: State)
    requires Initial(s) && Runs(s, steps, t)
    ensures 0 <= t.v == 1 + Count(steps, Raise) - Count(steps, Take)
    ensures Asleep(t) && t.waiting > 0 ==> t.v == 0
  {
    RunKeepsInv(s, steps, t);
  }

  /** Until then some thread can go on. */
  lemma SomebodyMoves(s: State)
    requires !Asleep(s)
    ensures exists step | Enabled(s, step) :: step !in {DownLock, UpLock, SpuriousWakeup}
  {
    var step :=
      match s.mutex
      case Free => if s.woken > 0 then Relock else Signal
      case Testing => if s.v > 0 then Take else Wait
      case Taken => DownUnlock
      case Raising => Raise
      case Raised => UpUnlock;
    assert Enabled(s, step);
  }

  lemma {:induction false} CallsAreCounted(s: State, steps: seq<Step>, t: State)
    requires Runs(s, steps, t)
    ensures Wanting(s) + Count(steps, DownLock) == Wanting(t) + Count(steps, Take)
    ensures s.signalling + Count(steps, UpUnlock) == t.signalling + Count(steps, Signal)
    decreases steps
  {
    if steps != [] {
      CallsAreCounted(Apply(s, steps[0]), steps[1..], t);
    }
  }

  /** Nobody is lost: whoever has called down has taken one or still wants to, and every up that has given
      back the mutex has signalled or is about to. */
  lemma NobodyIsLost(s: State, steps: seq<Step>, t: State)
    requires Initial(s) && Runs(s, steps, t)
    ensures Count(steps, DownLock) == Count(steps, Take) + Wanting(t)
    ensures Count(steps, UpUnlock) == Count(steps, Signal) + t.signalling
  {
    CallsAreCounted(s, steps, t);
  }
}
