/**
 Threads that post messages to one pipe and take them from it, step by step: the lock, the test for an empty queue with
 the wake byte, the change of the list, and the unlock are separate steps, and any thread may come between.
 */
module PipeThreads {
  import opened Wrappers
  import opened MessagePipes

  /** The message with this number among those its sender posts. */
  datatype Message = Message(sender: nat, number: nat)

  /** Where a thread is in the locked section of js_worker_postMessage or handle_posted_message. */
  datatype Phase =
    | Outside
    | SendLocked(m: Message)
    | SendSignaled(m: Message)
    | SendAdded
    | ReceiveLocked
    | ReceiveRemoved(m: Message)
    | ReceiveCleared(m: Message)

  /** posted: the messages in the order they were added; taken: those that receivers left with; sent: how many each thread began to post. */
  datatype Pipe = Pipe(holder: Option<nat>, phases: seq<Phase>, queue: seq<Message>, pending: nat,
                       posted: seq<Message>, taken: seq<Message>, sent: seq<nat>)

  /** Interrupted is a signal whose write fails. */
  datatype Event = StartSend(i: nat) | StartReceive(i: nat) | Continue(i: nat) | Interrupted(i: nat)

  function WithPhase(s: Pipe, i: nat, p: Phase): Pipe
    requires i < |s.phases|
  {
    s.(phases := s.phases[i := p])
  }

  /** One step of thread i; none if it has to wait. */
  function Next(s: Pipe, e: Event): Option<Pipe> {
    if e.i >= |s.phases| || e.i >= |s.sent| then None
    else
      var i := e.i;
      match e
      case StartSend(_) =>
        if s.phases[i].Outside? && s.holder.None? then
          Some(WithPhase(s, i, SendLocked(Message(i, s.sent[i]))).(holder := Some(i), sent := s.sent[i := s.sent[i] + 1]))
        else None
      case StartReceive(_) =>
        if s.phases[i].Outside? && s.holder.None? then Some(WithPhase(s, i, ReceiveLocked).(holder := Some(i))) else None
      case Interrupted(_) =>
        if s.phases[i].SendLocked? && s.queue == [] then Some(WithPhase(s, i, SendSignaled(s.phases[i].m))) else None
      case Continue(_) => Continued(s, i)
  }

  function Continued(s: Pipe, i: nat): Option<Pipe>
    requires i < |s.phases|
  {
    match s.phases[i]
    case Outside => None
    case SendLocked(m) =>
      Some(WithPhase(s, i, SendSignaled(m)).(pending := if s.queue == [] then s.pending + 1 else s.pending))
    case SendSignaled(m) =>
      Some(WithPhase(s, i, SendAdded).(queue := s.queue + [m], posted := s.posted + [m]))
    case SendAdded => Some(WithPhase(s, i, Outside).(holder := None))
    case ReceiveLocked =>
      if s.queue == [] then Some(WithPhase(s, i, Outside).(holder := None))
      else Some(WithPhase(s, i, ReceiveRemoved(s.queue[0])).(queue := s.queue[1..]))
    case ReceiveRemoved(m) =>
      if s.queue != [] then Some(WithPhase(s, i, ReceiveCleared(m)))
      else if s.pending == 0 then None
      else Some(WithPhase(s, i, ReceiveCleared(m)).(pending := if s.pending <= 16 then 0 else s.pending - 16))
    case ReceiveCleared(m) => Some(WithPhase(s, i, Outside).(holder := None, taken := s.taken + [m]))
  }

  function Start(n: nat): Pipe {
    Pipe(None, seq(n, _ => Outside), [], 0, [], [], seq(n, _ => 0))
  }

  /** The states reached by a sequence of steps of any threads. */
  ghost predicate Run(s: Pipe, es: seq<Event>, s': Pipe)
    decreases |es|
  {
    if es == [] then s' == s else Next(s, es[0]).Some? && Run(Next(s, es[0]).value, es[1..], s')
  }

  // ----- the invariant -----

  /** The lock: only the thread that holds it is in a locked section. */
  ghost predicate Exclusive(s: Pipe) {
    && |s.phases| == |s.sent|
    && (forall j: nat | j < |s.phases| && !s.phases[j].Outside? :: s.holder == Some(j))
    && (s.holder.Some? ==> s.holder.value < |s.phases| && !s.phases[s.holder.value].Outside?)
  }

  /** The phase of the thread that holds the lock. */
  function Inside(s: Pipe): Phase {
    if s.holder.Some? && s.holder.value < |s.phases| then s.phases[s.holder.value] else Outside
  }

  /** The wake byte, between any two steps; lost: a write of it was interrupted. */
  predicate WakeByte(s: Pipe, lost: bool) {
    if lost then
      s.pending == 0 && (Inside(s).SendSignaled? || Inside(s).ReceiveRemoved? || s.queue != [])
    else
      match Inside(s)
      case SendSignaled(_) => s.pending == 1
      case ReceiveRemoved(_) => s.pending == 1
      case SendAdded => s.queue != [] && s.pending == 1
      case _ => s.pending == Wake(|s.queue|)
  }

  /** The message that a receiver is leaving with. */
  function InHand(s: Pipe): seq<Message> {
    match Inside(s)
    case ReceiveRemoved(m) => [m]
    case ReceiveCleared(m) => [m]
    case _ => []
  }

  /** Every message that was added is taken, in somebody's hand, or still queued, in that order. */
  predicate Conserved(s: Pipe) {
    s.posted == s.taken + InHand(s) + s.queue
  }

  /** How many messages thread i has added. */
  function Added(s: Pipe, i: nat): int
    requires i < |s.sent|
  {
    s.sent[i] as int - Underway(s, i)
  }

  function Underway(s: Pipe, i: nat): int {
    match Inside(s)
    case SendLocked(m) => if m.sender == i then 1 else 0
    case SendSignaled(m) => if m.sender == i then 1 else 0
    case _ => 0
  }

  /** The messages of one sender, as they occur in a list. */
  function Numbers(ms: seq<Message>, i: nat): seq<nat> {
    if ms == [] then [] else (if ms[0].sender == i then [ms[0].number] else []) + Numbers(ms[1..], i)
  }

  function UpTo(n: nat): seq<nat> {
    seq(n, k requires 0 <= k < n => k)
  }

  /** Each sender's messages were added once each, in the order it posted them. */
  ghost predicate InOrder(s: Pipe) {
    && (match Inside(s)
        case SendLocked(m) => m.sender < |s.sent| && m.number + 1 == s.sent[m.sender]
        case SendSignaled(m) => m.sender < |s.sent| && m.number + 1 == s.sent[m.sender]
        case _ => true)
    && (forall m | m in s.posted :: m.sender < |s.sent|)
    && forall i: nat | i < |s.sent| :: Added(s, i) >= 0 && Numbers(s.posted, i) == UpTo(Added(s, i))
  }

  ghost predicate Invariant(s: Pipe, lost: bool) {
    Exclusive(s) && WakeByte(s, lost) && Conserved(s) && InOrder(s)
  }

  lemma StartIsInvariant(n: nat)
    ensures Invariant(Start(n), false)
  {
  }

  lemma ExclusiveKept(s: Pipe, e: Event)
    requires Exclusive(s) && Next(s, e).Some?
    ensures Exclusive(Next(s, e).value)
    ensures e.StartSend? || e.StartReceive? || s.holder == Some(e.i)
  {
  }

  lemma WakeByteKept(s: Pipe, e: Event, lost: bool)
    requires Exclusive(s) && WakeByte(s, lost) && Next(s, e).Some?
    ensures WakeByte(Next(s, e).value, lost || e.Interrupted?)
  {
    ExclusiveKept(s, e);
  }

  lemma ConservedKept(s: Pipe, e: Event)
    requires Exclusive(s) && Conserved(s) && Next(s, e).Some?
    ensures Conserved(Next(s, e).value)
  {
    hide Exclusive;
    ExclusiveKept(s, e);
    var s', t := Next(s, e).value, Inside(s);
    assert s.holder == Some(e.i) ==> t == s.phases[e.i];
    if t.SendSignaled? && e.Continue? {
      assert s'.posted == s.taken + [] + s.queue + [t.m];
    }
  }

  lemma {:induction false} NumbersPush(ms: seq<Message>, m: Message, i: nat)
    ensures Numbers(ms + [m], i) == Numbers(ms, i) + if m.sender == i then [m.number] else []
  {
    if ms == [] {
      assert ms + [m] == [m] && [m][1..] == [];
    } else {
      NumbersPush(ms[1..], m, i);
      assert (ms + [m])[1..] == ms[1..] + [m];
    }
  }

  lemma UpToPush(n: nat)
    ensures UpTo(n + 1) == UpTo(n) + [n]
  {
  }

  lemma InOrderKept(s: Pipe, e: Event)
    requires Exclusive(s) && InOrder(s) && Next(s, e).Some?
    ensures InOrder(Next(s, e).value)
  {
    hide Numbers, UpTo;
    ExclusiveKept(s, e);
    var s', t := Next(s, e).value, Inside(s);
    assert forall m | m in s'.posted :: m in s.posted || (t.SendSignaled? && m == t.m);
    forall i: nat | i < |s'.sent| ensures Added(s', i) >= 0 && Numbers(s'.posted, i) == UpTo(Added(s', i)) {
      assert Numbers(s.posted, i) == UpTo(Added(s, i));
      if t.SendSignaled? && e.Continue? {
        NumbersPush(s.posted, t.m, i);
        UpToPush(Added(s, i));
      }
    }
  }

  lemma StepKeeps(s: Pipe, e: Event, lost: bool)
    requires Invariant(s, lost) && Next(s, e).Some?
    ensures Invariant(Next(s, e).value, lost || e.Interrupted?)
  {
    hide Next, Exclusive, WakeByte, Conserved, InOrder;
    ExclusiveKept(s, e);
    WakeByteKept(s, e, lost);
    ConservedKept(s, e);
    InOrderKept(s, e);
  }

  /** A write of the wake byte was interrupted. */
  predicate Lost(es: seq<Event>) {
    exists e :: e in es && e.Interrupted?
  }

  lemma LostFirst(es: seq<Event>)
    requires es != []
    ensures Lost(es) <==> es[0].Interrupted? || Lost(es[1..])
  {
    assert forall e :: e in es <==> e == es[0] || e in es[1..];
  }

  lemma {:induction false} RunKeeps(s: Pipe, es: seq<Event>, s': Pipe, lost: bool)
    requires Invariant(s, lost) && Run(s, es, s')
    ensures Invariant(s', lost || Lost(es))
    decreases |es|
  {
    hide Invariant, Next, Lost;
    if es != [] {
      LostFirst(es);
      StepKeeps(s, es[0], lost);
      RunKeeps(Next(s, es[0]).value, es[1..], s', lost || es[0].Interrupted?);
    } else {
      NothingLost();
    }
  }

  lemma NothingLost()
    ensures !Lost([])
  {
  }

  // ----- what follows from it -----

  /**
   For every run of n threads: when nobody holds the lock, one wake byte is pending exactly if there are messages, if and
   only if no write of it was interrupted.
   */
  lemma WakeByteIsRight(n: nat, es: seq<Event>, s: Pipe)
    requires Run(Start(n), es, s) && s.holder == None
    ensures s.pending == (if s.queue == [] then 0 else 1) <==> !Lost(es)
  {
    hide Run, Lost, InOrder, Conserved;
    StartIsInvariant(n);
    RunKeeps(Start(n), es, s, false);
  }

  /**
   For every run of n threads: the thread that holds the lock has to wait exactly if a write of the wake byte was
   interrupted before and it reads the byte after taking the last message; and then no thread can ever go on.
   */
  lemma WaitsOnlyForALostByte(n: nat, es: seq<Event>, s: Pipe, i: nat)
    requires Run(Start(n), es, s) && s.holder == Some(i)
    ensures i < |s.phases|
    ensures Next(s, Continue(i)).None? <==> Lost(es) && s.phases[i].ReceiveRemoved? && s.queue == []
    ensures Next(s, Continue(i)).None? ==> forall e :: Next(s, e).None?
  {
    hide Run, Lost, InOrder, Conserved;
    StartIsInvariant(n);
    RunKeeps(Start(n), es, s, false);
  }

  /** A list of numbers counted up from 0 has no number twice, so no message of the sender is in the list twice. */
  lemma {:induction false} NumbersOnce(ms: seq<Message>, j: nat, k: nat)
    requires j < k < |ms| && ms[j].sender == ms[k].sender
    ensures exists x, y :: 0 <= x < y < |Numbers(ms, ms[j].sender)|
              && Numbers(ms, ms[j].sender)[x] == ms[j].number && Numbers(ms, ms[j].sender)[y] == ms[k].number
    decreases |ms|
  {
    var i := ms[j].sender;
    var rest := Numbers(ms[1..], i);
    if j > 0 {
      NumbersOnce(ms[1..], j - 1, k - 1);
      var x, y :| 0 <= x < y < |rest| && rest[x] == ms[j].number && rest[y] == ms[k].number;
      var d := if ms[0].sender == i then 1 else 0;
      assert Numbers(ms, i)[x + d] == rest[x] && Numbers(ms, i)[y + d] == rest[y];
    } else {
      var y := NumberOf(ms[1..], k - 1);
      assert Numbers(ms, i)[0] == ms[0].number && Numbers(ms, i)[y + 1] == rest[y];
    }
  }

  lemma {:induction false} NumberOf(ms: seq<Message>, k: nat) returns (y: nat)
    requires k < |ms|
    ensures y < |Numbers(ms, ms[k].sender)| && Numbers(ms, ms[k].sender)[y] == ms[k].number
    decreases |ms|
  {
    if k == 0 {
      y := 0;
    } else {
      var z := NumberOf(ms[1..], k - 1);
      y := if ms[0].sender == ms[k].sender then z + 1 else z;
    }
  }

  /**
   In every run: the messages that were taken are the first of those that were added, in the same order; no message was
   added twice; and of two messages of one sender the one posted first was added first.
   */
  lemma FirstInFirstOut(n: nat, es: seq<Event>, s: Pipe)
    requires Run(Start(n), es, s)
    ensures s.taken <= s.posted && (s.holder == None ==> s.posted == s.taken + s.queue)
    ensures forall j, k | 0 <= j < k < |s.posted| && s.posted[j].sender == s.posted[k].sender ::
              s.posted[j].number < s.posted[k].number
    ensures forall i: nat | i < |s.sent| && s.holder == None :: Numbers(s.posted, i) == UpTo(s.sent[i])
  {
    hide Run, Exclusive, WakeByte, Numbers, UpTo, Lost;
    StartIsInvariant(n);
    RunKeeps(Start(n), es, s, false);
    assert s.holder == None ==> s.taken + [] + s.queue == s.taken + s.queue;
    forall j, k | 0 <= j < k < |s.posted| && s.posted[j].sender == s.posted[k].sender
      ensures s.posted[j].number < s.posted[k].number
    {
      var i := s.posted[j].sender;
      assert s.posted[j] in s.posted;
      NumbersOnce(s.posted, j, k);
      assert Numbers(s.posted, i) == UpTo(Added(s, i));
      NumbersInOrder(Added(s, i), s.posted[j].number, s.posted[k].number);
    }
  }

  lemma NumbersInOrder(n: nat, a: nat, b: nat)
    requires exists x, y :: 0 <= x < y < |UpTo(n)| && UpTo(n)[x] == a && UpTo(n)[y] == b
    ensures a < b
  {
  }

  // ----- the steps on the list -----

  function Payloads(payload: Message -> Data, ms: seq<Message>): seq<Data> {
    if ms == [] then [] else [payload(ms[0])] + Payloads(payload, ms[1..])
  }

  lemma {:induction false} PayloadsPush(payload: Message -> Data, ms: seq<Message>, m: Message)
    ensures Payloads(payload, ms + [m]) == Payloads(payload, ms) + [payload(m)]
  {
    if ms == [] {
      assert ms + [m] == [m] && [m][1..] == [];
    } else {
      PayloadsPush(payload, ms[1..], m);
      assert (ms + [m])[1..] == ms[1..] + [m];
    }
  }

  lemma PayloadsFirst(payload: Message -> Data, ms: seq<Message>)
    ensures ms == [] <==> Payloads(payload, ms) == []
    ensures ms != [] ==> Payloads(payload, ms)[0] == payload(ms[0]) && Payloads(payload, ms)[1..] == Payloads(payload, ms[1..])
  {
  }

  /** The list of the pipe is a well-formed ring with the queued messages, and the wake byte is that of the state. */
  ghost predicate Carries(pipe: MessagePipe, payload: Message -> Data, s: Pipe)
    reads pipe, pipe.ring
  {
    pipe.Linked() && pipe.Queue() == Payloads(payload, s.queue) && pipe.pending == s.pending
  }

  /** A sender in its locked section has made its message, which is not in the list. */
  ghost predicate Prepared(pipe: MessagePipe, payload: Message -> Data, s: Pipe, msg: ListHead?)
    reads pipe, pipe.ring
  {
    match Inside(s)
    case SendLocked(m) => msg != null && msg !in pipe.ring && msg.data == payload(m)
    case SendSignaled(m) => msg != null && msg !in pipe.ring && msg.data == payload(m)
    case _ => true
  }

  /** One step of a thread, on the list and the wake byte; msg is the message that a sender has made. */
  method Perform(pipe: MessagePipe, payload: Message -> Data, s: Pipe, e: Event, msg0: ListHead?) returns (msg: ListHead?)
    requires Exclusive(s) && Next(s, e).Some? && Carries(pipe, payload, s) && Prepared(pipe, payload, s, msg0)
    modifies pipe`pending, pipe`ring, pipe.ring, msg0
    ensures Carries(pipe, payload, Next(s, e).value) && Prepared(pipe, payload, Next(s, e).value, msg)
    ensures (forall x | x in pipe.ring :: x in old(pipe.ring) || x == msg0) && (msg == msg0 || (msg != null && fresh(msg)))
  {
    hide Ring, Contents;
    ExclusiveKept(s, e);
    PayloadsFirst(payload, s.queue);
    msg := msg0;
    match e
    case StartSend(i) =>
      msg := new ListHead(payload(Message(i, s.sent[i])));
    case StartReceive(_) =>
    case Interrupted(_) =>
    case Continue(i) =>
      match s.phases[i]
      case SendLocked(_) =>
        pipe.SignalIfEmpty();
      case SendSignaled(m) =>
        pipe.Append(msg);
        PayloadsPush(payload, s.queue, m);
      case ReceiveLocked =>
        var _ := pipe.RemoveFirst();
      case ReceiveRemoved(_) =>
        pipe.ClearIfEmpty();
      case _ =>
  }

  /**
   Any run of n threads, done step by step on a real pipe: the list is a ring with the queued messages after every step,
   and the pending wake bytes are those of the state.
   */
  method Replay(n: nat, es: seq<Event>, payload: Message -> Data) returns (pipe: MessagePipe, s: Pipe)
    requires exists t :: Run(Start(n), es, t)
    ensures Run(Start(n), es, s) && Carries(pipe, payload, s)
  {
    hide Next, Carries, Prepared, Exclusive;
    ghost var t :| Run(Start(n), es, t);
    pipe := new MessagePipe();
    s := Start(n);
    AtStart(pipe, payload, n);
    var msg: ListHead? := null;
    assert fresh(pipe) && fresh(pipe.ring);
    assert es[0..] == es;
    for k := 0 to |es|
      invariant Run(s, es[k..], t) && Exclusive(s) && Carries(pipe, payload, s) && Prepared(pipe, payload, s, msg)
      invariant fresh(pipe) && fresh(pipe.ring) && (msg != null ==> fresh(msg))
    {
      assert es[k..][0] == es[k] && es[k..][1..] == es[k + 1..];
      msg := Perform(pipe, payload, s, es[k], msg);
      assert forall i | 0 <= i < |pipe.ring| :: pipe.ring[i] in pipe.ring;
      ExclusiveKept(s, es[k]);
      s := Next(s, es[k]).value;
    }
  }

  lemma AtStart(pipe: MessagePipe, payload: Message -> Data, n: nat)
    requires pipe.Valid() && pipe.Queue() == []
    ensures Exclusive(Start(n)) && Carries(pipe, payload, Start(n)) && Prepared(pipe, payload, Start(n), null)
  {
    ContentsLength(pipe.ring[1..]);
  }

  // ----- an interrupted write -----

  /** A sender whose write was interrupted leaves a message without a wake byte. */
  lemma SenderInterrupted() returns (es: seq<Event>, s: Pipe)
    ensures Run(Start(2), es, s) && es == [StartSend(0), Interrupted(0), Continue(0), Continue(0)]
    ensures |s.phases| == 2 == |s.sent| && s.holder == None && s.phases[1] == Outside && |s.queue| == 1 && s.pending == 0
  {
    var s1 := Next(Start(2), StartSend(0)).value;
    var s2 := Next(s1, Interrupted(0)).value;
    var s3 := Next(s2, Continue(0)).value;
    s := Next(s3, Continue(0)).value;
    es := [StartSend(0)] + ([Interrupted(0)] + ([Continue(0)] + [Continue(0)]));
    Chain(s3, Continue(0), s, [], s);
    Chain(s2, Continue(0), s3, [Continue(0)], s);
    Chain(s1, Interrupted(0), s2, [Continue(0)] + [Continue(0)], s);
    Chain(Start(2), StartSend(0), s1, [Interrupted(0)] + ([Continue(0)] + [Continue(0)]), s);
  }

  /** A receiver that comes after it takes the message and waits for the byte. */
  lemma ReceiverWaits(s: Pipe) returns (es: seq<Event>, t: Pipe)
    requires |s.phases| == 2 == |s.sent| && s.holder == None && s.phases[1] == Outside && |s.queue| == 1 && s.pending == 0
    ensures Run(s, es, t) && t.holder == Some(1) && Next(t, Continue(1)).None?
  {
    var s1 := Next(s, StartReceive(1)).value;
    t := Next(s1, Continue(1)).value;
    es := [StartReceive(1)] + [Continue(1)];
    Chain(s1, Continue(1), t, [], t);
    Chain(s, StartReceive(1), s1, [Continue(1)], t);
  }

  lemma Chain(s: Pipe, e: Event, t: Pipe, es: seq<Event>, s': Pipe)
    requires Next(s, e) == Some(t) && (if es == [] then t == s' else Run(t, es, s'))
    ensures Run(s, [e] + es, s')
  {
    assert ([e] + es)[1..] == es;
  }

  lemma {:induction false} RunConcat(s: Pipe, a: seq<Event>, t: Pipe, b: seq<Event>, u: Pipe)
    requires Run(s, a, t) && Run(t, b, u)
    ensures Run(s, a + b, u)
    decreases |a|
  {
    if a == [] {
      assert a + b == b;
    } else {
      RunConcat(Next(s, a[0]).value, a[1..], t, b, u);
      assert (a + b)[1..] == a[1..] + b;
    }
  }

  /** The signal gives up on any failed write, and then a receiver can wait for the wake byte for ever, with the lock held. */
  lemma InterruptedWriteBlocks()
    ensures exists es: seq<Event>, s: Pipe :: Run(Start(2), es, s) && s.holder == Some(1) && Next(s, Continue(1)).None?
  {
    hide Run, Next;
    var a, s := SenderInterrupted();
    var b, t := ReceiverWaits(s);
    RunConcat(Start(2), a, s, b, t);
  }
}
