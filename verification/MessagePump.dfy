/** eFixedMessagePump: many threads send, one thread receives, in any interleaving.

  The queue is guarded by a lock; a byte in a pipe announces each message.  One step is one
  action of one thread that the others can tell apart: taking or giving up the lock, changing the
  queue, writing or reading a byte, calling the receiver's slots.
 */
module MessagePump {
  import opened Basics

  /** Messages are only copied, so any value type would do. */
  type Message = int

  /** Where a sending thread stands in `send`. */
  datatype Sender =
    | Idle
    | Entered(msg: Message)   // holds the lock, has not pushed
    | Pushed                  // holds the lock, has pushed
    | MustWrite               // has given up the lock, has not written its byte

  /** Where the receiving thread stands in `do_recv`. */
  datatype Receiver =
    | Waiting
    | GotByte                 // has read a byte, does not hold the lock
    | Looking                 // holds the lock, has not looked at the queue
    | Took(msg: Message)      // holds the lock, has popped the message
    | FoundEmpty              // holds the lock, has seen an empty queue
    | Emitting(msg: Message)  // has given up the lock, has not emitted

  datatype Holder = Nobody | BySender(i: nat) | ByReceiver

  datatype State = State(
    queue: seq<Message>, pipe: nat, lock: Holder,
    senders: seq<Sender>, receiver: Receiver,
    delivered: seq<Message>)

  datatype Step =
    | Enter(i: nat, msg: Message)
    | Push(i: nat)
    | Leave(i: nat)
    | WriteByte(i: nat)
    | ReadByte
    | Lock
    | Pop
    | FindEmpty
    | Unlock
    | Emit

  /** Nothing sent yet, any number of senders. */
  predicate Initial(s: State) {
    && s.queue == [] && s.pipe == 0 && s.lock == Nobody && s.delivered == []
    && s.receiver == Waiting && forall i :: 0 <= i < |s.senders| ==> s.senders[i] == Idle
  }

  /** A write to the pipe waits while `capacity` bytes are in it; a read waits for a byte; the
      lock waits for its holder. */
  predicate Enabled(s: State, capacity: nat, step: Step) {
    match step
    case Enter(i, _) => i < |s.senders| && s.senders[i].Idle? && s.lock.Nobody?
    case Push(i) => i < |s.senders| && s.senders[i].Entered?
    case Leave(i) => i < |s.senders| && s.senders[i].Pushed?
    case WriteByte(i) => i < |s.senders| && s.senders[i].MustWrite? && s.pipe < capacity
    case ReadByte => s.receiver.Waiting? && s.pipe > 0
    case Lock => s.receiver.GotByte? && s.lock.Nobody?
    case Pop => s.receiver.Looking? && s.queue != []
    case FindEmpty => s.receiver.Looking? && s.queue == []
    case Unlock => s.receiver.Took? || s.receiver.FoundEmpty?
    case Emit => s.receiver.Emitting?
  }

  function Apply(s: State, capacity: nat, step: Step): State
    requires Enabled(s, capacity, step)
  {
    match step
    case Enter(i, msg) => s.(lock := BySender(i), senders := s.senders[i := Entered(msg)])
    case Push(i) => s.(queue := s.queue + [s.senders[i].msg], senders := s.senders[i := Pushed])
    case Leave(i) => s.(lock := Nobody, senders := s.senders[i := MustWrite])
    case WriteByte(i) => s.(pipe := s.pipe + 1, senders := s.senders[i := Idle])
    case ReadByte => s.(pipe := s.pipe - 1, receiver := GotByte)
    case Lock => s.(lock := ByReceiver, receiver := Looking)
    case Pop => s.(queue := s.queue[1..], receiver := Took(s.queue[0]))
    case FindEmpty => s.(receiver := FoundEmpty)
    case Unlock =>
      s.(lock := Nobody, receiver := if s.receiver.Took? then Emitting(s.receiver.msg) else Waiting)
    case Emit => s.(delivered := s.delivered + [s.receiver.msg], receiver := Waiting)
  }

  /** The state after a run, if each of its steps was possible in its turn. */
  ghost predicate Runs(s: State, capacity: nat, steps: seq<Step>, t: State)
    decreases steps
  {
    if steps == [] then t == s
    else Enabled(s, capacity, steps[0]) && Runs(Apply(s, capacity, steps[0]), capacity, steps[1..], t)
  }

  /** The messages given to `send`, in the order in which the senders got the lock. */
  function Sent(steps: seq<Step>): seq<Message> {
    if steps == [] then []
    else SentBy(steps[0]) + Sent(steps[1..])
  }

  function SentBy(step: Step): seq<Message> { if step.Enter? then [step.msg] else [] }

  // ------------------------------------------------------------------------------- the invariant

  /** Adding up a number per sender. */
  function Sum(senders: seq<Sender>, f: Sender -> nat): nat {
    if senders == [] then 0 else f(senders[0]) + Sum(senders[1..], f)
  }

  lemma {:induction false} SumUpdate(senders: seq<Sender>, f: Sender -> nat, i: nat, x: Sender)
    requires i < |senders|
    ensures Sum(senders[i := x], f) + f(senders[i]) == Sum(senders, f) + f(x)
  {
    var t := senders[i := x];
    if i > 0 {
      assert t[1..] == senders[1..][i - 1 := x];
      SumUpdate(senders[1..], f, i - 1, x);
    } else {
      assert t[1..] == senders[1..];
    }
  }

  lemma {:induction false} SumAtLeast(senders: seq<Sender>, f: Sender -> nat, i: nat)
    requires i < |senders|
    ensures Sum(senders, f) >= f(senders[i])
  {
    if i > 0 {
      SumAtLeast(senders[1..], f, i - 1);
    }
  }

  lemma {:induction false} SumZero(senders: seq<Sender>, f: Sender -> nat)
    requires forall i :: 0 <= i < |senders| ==> f(senders[i]) == 0
    ensures Sum(senders, f) == 0
  {
    if senders != [] {
      forall i | 0 <= i < |senders[1..]| ensures f(senders[1..][i]) == 0 {
        assert senders[1..][i] == senders[i + 1];
      }
      SumZero(senders[1..], f);
    }
  }

  /** A sender that has pushed owes a byte. */
  function Owes(x: Sender): nat { if x.Pushed? || x.MustWrite? then 1 else 0 }

  /** The receiver owes a pop for the byte it has read. */
  function OwesPop(r: Receiver): nat { if r.GotByte? || r.Looking? then 1 else 0 }

  ghost predicate LockRespected(s: State) {
    && (forall i :: 0 <= i < |s.senders| ==>
          ((s.senders[i].Entered? || s.senders[i].Pushed?) <==> s.lock == BySender(i)))
    && (s.lock.BySender? ==> s.lock.i < |s.senders|)
    && ((s.receiver.Looking? || s.receiver.Took? || s.receiver.FoundEmpty?) <==> s.lock == ByReceiver)
  }

  /** Queue length = bytes in the pipe + senders between push and write + receiver between read
      and pop; the lock is held by exactly the thread inside it; the else branch was not taken. */
  ghost predicate Inv(s: State) {
    && LockRespected(s)
    && !s.receiver.FoundEmpty?
    && |s.queue| == s.pipe + Sum(s.senders, Owes) + OwesPop(s.receiver)
  }

  /** The message that the receiver has popped and not emitted. */
  function InHand(s: State): seq<Message> {
    if s.receiver.Took? || s.receiver.Emitting? then [s.receiver.msg] else []
  }

  /** The message whose sender has the lock and has not pushed. */
  function Coming(s: State): seq<Message> {
    if s.lock.BySender? && s.lock.i < |s.senders| && s.senders[s.lock.i].Entered?
    then [s.senders[s.lock.i].msg] else []
  }

  /** Where every message ever sent is: delivered, in the receiver's hand, queued or coming, and
      in the order in which they were sent. */
  ghost predicate Accounted(s: State, sent: seq<Message>) {
    sent == s.delivered + InHand(s) + s.queue + Coming(s)
  }

  lemma InitialInv(s: State)
    requires Initial(s)
    ensures Inv(s) && Accounted(s, [])
  {
    SumZero(s.senders, Owes);
  }

  lemma StepKeepsInv(s: State, capacity: nat, step: Step)
    requires Inv(s) && Enabled(s, capacity, step)
    ensures step != FindEmpty && Inv(Apply(s, capacity, step))
  {
    if step.Enter? || step.Push? || step.Leave? || step.WriteByte? {
      var t := Apply(s, capacity, step);
      SumUpdate(s.senders, Owes, step.i, t.senders[step.i]);
    }
  }

  lemma StepKeepsAccount(s: State, capacity: nat, step: Step, sent: seq<Message>)
    requires Inv(s) && Enabled(s, capacity, step) && Accounted(s, sent)
    ensures Accounted(Apply(s, capacity, step), sent + SentBy(step))
  {
    var t := Apply(s, capacity, step);
    var now := t.delivered + InHand(t) + t.queue + Coming(t);
    match step {
      case Enter(i, msg) =>
        assert Coming(s) == [] && Coming(t) == [msg];
      case Push(i) =>
        assert Coming(s) == [s.senders[i].msg] && Coming(t) == [];
      case Pop =>
        assert s.queue == [s.queue[0]] + s.queue[1..] && Coming(s) == Coming(t) == [];
      case FindEmpty =>
        assert false;
      case _ =>
        assert t.queue == s.queue && Coming(t) == Coming(s);
        assert t.delivered + InHand(t) == s.delivered + InHand(s);
    }
  }

  /** A write waits for room in the pipe, so there are never more bytes in it than fit. */
  lemma {:induction false} PipeNeverOverflows(s: State, capacity: nat, steps: seq<Step>, t: State)
    requires Initial(s) || s.pipe <= capacity
    requires Runs(s, capacity, steps, t)
    ensures t.pipe <= capacity
    decreases steps
  {
    if steps != [] {
      PipeNeverOverflows(Apply(s, capacity, steps[0]), capacity, steps[1..], t);
    }
  }

  lemma InTail(steps: seq<Step>, step: Step)
    requires steps != [] && step != steps[0] && step !in steps[1..]
    ensures step !in steps
  {
    assert steps == [steps[0]] + steps[1..];
  }

  lemma {:induction false} RunKeepsInv(s: State, capacity: nat, steps: seq<Step>, t: State, sent: seq<Message>)
    requires Inv(s) && Accounted(s, sent) && Runs(s, capacity, steps, t)
    ensures Inv(t) && Accounted(t, sent + Sent(steps)) && FindEmpty !in steps
    decreases steps
  {
    hide Inv, Accounted, Enabled, Apply;
    if steps == [] {
      assert sent + [] == sent;
    } else {
      StepKeepsInv(s, capacity, steps[0]);
      StepKeepsAccount(s, capacity, steps[0], sent);
      RunKeepsInv(Apply(s, capacity, steps[0]), capacity, steps[1..], t, sent + SentBy(steps[0]));
      Regroup(sent, SentBy(steps[0]), Sent(steps[1..]));
      InTail(steps, FindEmpty);
    }
  }

  /** In every interleaving the queue is never found empty by a receiver that has read a byte, and
      what was sent is what was delivered, then what is on its way, in order. */
  lemma ExactlyOnceInOrder(s: State, capacity: nat, steps: seq<Step>, t: State)
    requires Initial(s) && Runs(s, capacity, steps, t)
    ensures FindEmpty !in steps && Inv(t)
    ensures Sent(steps) == t.delivered + InHand(t) + t.queue + Coming(t)
  {
    InitialInv(s);
    RunKeepsInv(s, capacity, steps, t, []);
    assert [] + Sent(steps) == Sent(steps);
  }

  // -------------------------------------------------------------------- nothing is left behind

  /** No thread is in the pump and no byte is in the pipe. */
  predicate Quiet(s: State) {
    && s.pipe == 0 && s.receiver.Waiting?
    && forall i :: 0 <= i < |s.senders| ==> s.senders[i].Idle?
  }

  /** A thread can move without anybody sending anything new. */
  ghost predicate CanMove(s: State, capacity: nat) {
    exists step: Step :: !step.Enter? && Enabled(s, capacity, step)
  }

  /** The pump never gets stuck: it stops only when it is quiet. */
  lemma NoDeadlock(s: State, capacity: nat)
    requires Inv(s) && capacity > 0
    ensures CanMove(s, capacity) <==> !Quiet(s)
  {
    if !Quiet(s) {
      var step := Move(s);
      assert Enabled(s, capacity, step);
    }
  }

  /** A thread that can move: the holder of the lock, else the receiver, else a sender whose byte
      fits the pipe. */
  ghost function Move(s: State): (step: Step)
    requires Inv(s) && !Quiet(s)
    ensures !step.Enter? && forall capacity: nat | capacity > 0 :: Enabled(s, capacity, step)
  {
    match s.lock
    case BySender(i) => if s.senders[i].Entered? then Push(i) else Leave(i)
    case ByReceiver =>
      if s.receiver.Looking? then Pop else Unlock
    case Nobody =>
      if s.receiver.GotByte? then Lock
      else if s.receiver.Emitting? then Emit
      else if s.pipe > 0 then ReadByte
      else
        var i :| 0 <= i < |s.senders| && !s.senders[i].Idle?;
        WriteByte(i)
  }

  /** How many steps a sender's message is away from its delivery. */
  function SenderWork(x: Sender): nat {
    match x
    case Idle => 0
    case Entered(_) => 8
    case Pushed => 7
    case MustWrite => 6
  }

  function ReceiverWork(r: Receiver): nat {
    match r
    case Waiting => 0
    case GotByte => 4
    case Looking => 3
    case Took(_) => 2
    case FoundEmpty => 1
    case Emitting(_) => 1
  }

  function Work(s: State): nat { Sum(s.senders, SenderWork) + 5 * s.pipe + ReceiverWork(s.receiver) }

  lemma StepWorks(s: State, capacity: nat, step: Step)
    requires Inv(s) && Enabled(s, capacity, step) && !step.Enter?
    ensures Work(Apply(s, capacity, step)) == Work(s) - 1
  {
    if step.Push? || step.Leave? || step.WriteByte? {
      var t := Apply(s, capacity, step);
      SumUpdate(s.senders, SenderWork, step.i, t.senders[step.i]);
    }
  }

  /** When nobody sends any more, every run ends after exactly the work that was left or fewer
      steps, and a run that cannot go on has delivered everything. */
  lemma {:induction false} DrainsFrom(s: State, capacity: nat, steps: seq<Step>, t: State)
    requires Inv(s) && capacity > 0 && Runs(s, capacity, steps, t)
    requires forall step: Step :: step in steps ==> !step.Enter?
    ensures Inv(t) && |steps| + Work(t) == Work(s)
    decreases steps
  {
    if steps != [] {
      StepKeepsInv(s, capacity, steps[0]);
      StepWorks(s, capacity, steps[0]);
      DrainsFrom(Apply(s, capacity, steps[0]), capacity, steps[1..], t);
    }
  }

  /** A quiet pump has delivered every message sent, once and in order. */
  lemma QuietDelivered(t: State, sent: seq<Message>)
    requires Inv(t) && Accounted(t, sent) && Quiet(t)
    ensures t.queue == [] && t.delivered == sent
  {
    SumZero(t.senders, Owes);
    assert t.lock.Nobody?;
  }

  /** Exactly-once delivery: after any interleaving `sends`, any further run `rest` in which no new
      message is sent has a bounded length, and when it can go no further all the messages of
      `sends` have been delivered, each once, in the order in which they were sent. */
  lemma EverythingIsDelivered(s: State, capacity: nat, sends: seq<Step>, t: State, rest: seq<Step>, u: State)
    requires Initial(s) && capacity > 0 && Runs(s, capacity, sends, t) && Runs(t, capacity, rest, u)
    requires forall step: Step :: step in rest ==> !step.Enter?
    ensures |rest| <= Work(t)
    ensures !CanMove(u, capacity) ==> u.delivered == Sent(sends) && u.queue == []
  {
    ExactlyOnceInOrder(s, capacity, sends, t);
    DrainsFrom(t, capacity, rest, u);
    RunKeepsInv(t, capacity, rest, u, Sent(sends));
    NothingSent(rest);
    assert Sent(sends) + [] == Sent(sends);
    if !CanMove(u, capacity) {
      NoDeadlock(u, capacity);
      QuietDelivered(u, Sent(sends));
    }
  }

  lemma {:induction false} NothingSent(steps: seq<Step>)
    requires forall step: Step :: step in steps ==> !step.Enter?
    ensures Sent(steps) == []
  {
    if steps != [] {
      NothingSent(steps[1..]);
    }
  }
}
