/**
 The outbound sender: any number of callers enqueue messages, one goroutine sends them on the stream.

 One `Step` is one atomic action of a caller, of the sender goroutine, or of `stop`. A `select`
 may take any of its ready cases, and a send on the stream may fail at any time. A nil message
 is None.
 */
module OutboundSender {
  import opened Bytes
  import opened Collections

  type Message = nat
  type CallId = nat

  const QUEUE_SIZE := 256

  /** Where a call of `send` stands: before the flag, before the stop channel, in the last select, or back. */
  datatype Call =
    | Checking(message: Option<Message>)
    | Peeking(message: Option<Message>)
    | Waiting(message: Option<Message>)
    | Accepted(message: Option<Message>)
    | Refused(message: Option<Message>)

  /** `lost` is the message whose send failed. */
  datatype Sender =
    | Selecting
    | Sending(message: Message)
    | Closing(lost: Option<Message>)
    | Leaving(lost: Option<Message>)
    | Exited(lost: Option<Message>)

  /** `stop` first raises the closed flag, then closes the stop channel, once. */
  datatype Stop = NotCalled | Flagged | Stopped

  datatype State = State(
    queue: seq<Option<Message>>,
    closed: bool,
    stop: Stop,
    sender: Sender,
    stream: seq<Message>,
    calls: map<CallId, Call>)

  const INITIAL := State([], false, NotCalled, Selecting, [], map[])

  datatype Step =
    | Begin(call: CallId, message: Option<Message>)
    | CheckFlag(call: CallId)
    | PeekStop(call: CallId)
    | Enqueue(call: CallId)
    | SeeStop(call: CallId)
    | SeeFinished(call: CallId)
    | Take
    | SendOk
    | SendFail
    | LeaveOnStop
    | RaiseFlag
    | Exit
    | StopFlag
    | StopClose

  // ----- Steps -----

  predicate IsWaiting(s: State, call: CallId) {
    call in s.calls && s.calls[call].Waiting?
  }

  predicate Enabled(s: State, step: Step) {
    match step
    case Begin(call, _) => call !in s.calls
    case CheckFlag(call) => call in s.calls && s.calls[call].Checking?
    case PeekStop(call) => call in s.calls && s.calls[call].Peeking?
    case Enqueue(call) => IsWaiting(s, call) && |s.queue| < QUEUE_SIZE
    case SeeStop(call) => IsWaiting(s, call) && s.stop.Stopped?
    case SeeFinished(call) => IsWaiting(s, call) && s.sender.Exited?
    case Take => s.sender.Selecting? && s.queue != []
    case SendOk => s.sender.Sending?
    case SendFail => s.sender.Sending?
    case LeaveOnStop => s.sender.Selecting? && s.stop.Stopped?
    case RaiseFlag => s.sender.Closing?
    case Exit => s.sender.Leaving?
    case StopFlag => s.stop.NotCalled?
    case StopClose => s.stop.Flagged?
  }

  function SetCall(s: State, id: CallId, call: Call): State {
    s.(calls := s.calls[id := call])
  }

  function Perform(s: State, step: Step): State
    requires Enabled(s, step)
  {
    match step
    case Begin(id, message) => SetCall(s, id, Checking(message))
    case CheckFlag(id) =>
      var m := s.calls[id].message;
      SetCall(s, id, if s.closed then Refused(m) else Peeking(m))
    case PeekStop(id) =>
      var m := s.calls[id].message;
      SetCall(s, id, if s.stop.Stopped? then Refused(m) else Waiting(m))
    case Enqueue(id) =>
      var m := s.calls[id].message;
      SetCall(s, id, Accepted(m)).(queue := s.queue + [m])
    case SeeStop(id) => SetCall(s, id, Refused(s.calls[id].message))
    case SeeFinished(id) => SetCall(s, id, Refused(s.calls[id].message))
    case Take =>
      s.(queue := s.queue[1..],
         sender := match s.queue[0] { case None => Closing(None) case Some(m) => Sending(m) })
    case SendOk => s.(stream := s.stream + [s.sender.message], sender := Selecting)
    case SendFail => s.(sender := Closing(Some(s.sender.message)))
    case LeaveOnStop => s.(sender := Closing(None))
    case RaiseFlag => s.(closed := true, sender := Leaving(s.sender.lost))
    case Exit => s.(sender := Exited(s.sender.lost))
    case StopFlag => s.(closed := true, stop := Flagged)
    case StopClose => s.(stop := Stopped)
  }

  /** Every step of the list is enabled when its turn comes. */
  predicate Feasible(s: State, steps: seq<Step>)
    decreases |steps|
  {
    steps == [] || (Enabled(s, steps[0]) && Feasible(Perform(s, steps[0]), steps[1..]))
  }

  function Execute(s: State, steps: seq<Step>): State
    requires Feasible(s, steps)
    decreases |steps|
  {
    if steps == [] then s else Execute(Perform(s, steps[0]), steps[1..])
  }

  /** One step more at the front of a run. */
  lemma Prepend(s: State, step: Step, steps: seq<Step>)
    requires Enabled(s, step) && Feasible(Perform(s, step), steps)
    ensures Feasible(s, [step] + steps) && Execute(s, [step] + steps) == Execute(Perform(s, step), steps)
  {
    assert ([step] + steps)[1..] == steps;
  }

  // ----- What is where -----

  function MessageOf(entry: Option<Message>): seq<Message> {
    match entry
    case None => []
    case Some(m) => [m]
  }

  function Messages(queue: seq<Option<Message>>): seq<Message> {
    if queue == [] then [] else MessageOf(queue[0]) + Messages(queue[1..])
  }

  /** The message in the sender's hand, or the one it failed to send. */
  function InHand(sender: Sender): seq<Message> {
    match sender
    case Selecting => []
    case Sending(m) => [m]
    case Closing(lost) => MessageOf(lost)
    case Leaving(lost) => MessageOf(lost)
    case Exited(lost) => MessageOf(lost)
  }

  function AcceptedBy(s: State, step: Step): seq<Message>
    requires Enabled(s, step)
  {
    if step.Enqueue? then MessageOf(s.calls[step.call].message) else []
  }

  /** The messages accepted in a run, in the order of their acceptance. */
  function AcceptedIn(s: State, steps: seq<Step>): seq<Message>
    requires Feasible(s, steps)
    decreases |steps|
  {
    if steps == [] then []
    else AcceptedBy(s, steps[0]) + AcceptedIn(Perform(s, steps[0]), steps[1..])
  }

  lemma {:induction false} MessagesSnoc(queue: seq<Option<Message>>, entry: Option<Message>)
    ensures Messages(queue + [entry]) == Messages(queue) + MessageOf(entry)
  {
    if queue == [] {
      assert [entry][1..] == [];
    } else {
      assert (queue + [entry])[1..] == queue[1..] + [entry];
      MessagesSnoc(queue[1..], entry);
      PlusAssociates(MessageOf(queue[0]), Messages(queue[1..]), MessageOf(entry));
    }
  }

  function Traced(s: State): seq<Message> {
    s.stream + InHand(s.sender) + Messages(s.queue)
  }

  lemma StepConserves(s: State, step: Step)
    requires Enabled(s, step)
    ensures Traced(Perform(s, step)) == Traced(s) + AcceptedBy(s, step)
  {
    match step
    case Enqueue(call) =>
      MessagesSnoc(s.queue, s.calls[call].message);
      PlusAssociates(s.stream + InHand(s.sender), Messages(s.queue), MessageOf(s.calls[call].message));
    case Take => PlusAssociates(s.stream, MessageOf(s.queue[0]), Messages(s.queue[1..]));
    case _ =>
  }

  lemma {:induction false} RunConserves(s: State, steps: seq<Step>)
    requires Feasible(s, steps)
    ensures Traced(Execute(s, steps)) == Traced(s) + AcceptedIn(s, steps)
    decreases |steps|
  {
    if steps == [] {
    } else {
      var t := Perform(s, steps[0]);
      StepConserves(s, steps[0]);
      RunConserves(t, steps[1..]);
      PlusAssociates(Traced(s), AcceptedBy(s, steps[0]), AcceptedIn(t, steps[1..]));
    }
  }

  /** Nothing is dropped, doubled or reordered: accepted is sent, then at most one in hand or failed, then queued. */
  lemma Conservation(steps: seq<Step>)
    requires Feasible(INITIAL, steps)
    ensures var s := Execute(INITIAL, steps);
      AcceptedIn(INITIAL, steps) == s.stream + InHand(s.sender) + Messages(s.queue) && |InHand(s.sender)| <= 1
  {
    RunConserves(INITIAL, steps);
    assert Traced(INITIAL) == [];
    assert [] + AcceptedIn(INITIAL, steps) == AcceptedIn(INITIAL, steps);
  }

  // ----- The invariant -----

  predicate Inv(s: State) {
    |s.queue| <= QUEUE_SIZE &&
    (!s.stop.NotCalled? || s.sender.Leaving? || s.sender.Exited? ==> s.closed)
  }

  lemma {:induction false} RunKeeps(s: State, steps: seq<Step>)
    requires Inv(s) && Feasible(s, steps)
    ensures Inv(Execute(s, steps))
    decreases |steps|
  {
    if steps != [] { RunKeeps(Perform(s, steps[0]), steps[1..]); }
  }

  /** The queue stays within its size, and the flag is up once `stop` has returned or the sender has exited. */
  lemma QueueBounded(steps: seq<Step>)
    requires Feasible(INITIAL, steps)
    ensures var s := Execute(INITIAL, steps);
      |s.queue| <= 256 && (s.stop.Stopped? || s.sender.Exited? ==> s.closed)
  {
    RunKeeps(INITIAL, steps);
  }

  // ----- What a call of send returns -----

  /** A call keeps its message, is accepted by its own enqueuing only, and refused only after closing. */
  ghost predicate CallRecorded(s: State, past: seq<Step>, call: CallId) {
    (Enqueue(call) in past <==> call in s.calls && s.calls[call].Accepted?) &&
    (call in s.calls ==> Begin(call, s.calls[call].message) in past && (s.calls[call].Refused? ==> s.closed)) &&
    forall m :: Begin(call, m) in past ==> call in s.calls && s.calls[call].message == m
  }

  ghost predicate CallsRecorded(s: State, past: seq<Step>) {
    forall call: CallId :: CallRecorded(s, past, call)
  }

  lemma StepRecorded(s: State, step: Step, past: seq<Step>, call: CallId)
    requires Enabled(s, step) && Inv(s) && CallRecorded(s, past, call)
    ensures CallRecorded(Perform(s, step), past + [step], call)
  {
    var now := past + [step];
    assert step in now && forall x <- now :: x in past || x == step;
    match step
    case Begin(_, _) =>
    case CheckFlag(_) =>
    case PeekStop(_) =>
    case Enqueue(_) =>
    case SeeStop(_) =>
    case SeeFinished(_) =>
    case _ =>
  }

  lemma {:induction false} RunRecorded(s: State, steps: seq<Step>, past: seq<Step>)
    requires Feasible(s, steps) && Inv(s) && CallsRecorded(s, past)
    ensures CallsRecorded(Execute(s, steps), past + steps)
    decreases |steps|
  {
    if steps == [] {
      assert past + steps == past;
    } else {
      var now := past + [steps[0]];
      forall call: CallId ensures CallRecorded(Perform(s, steps[0]), now, call) {
        StepRecorded(s, steps[0], past, call);
      }
      RunRecorded(Perform(s, steps[0]), steps[1..], now);
      assert past + steps == now + steps[1..];
    }
  }

  /** A call succeeds exactly if its own message was put into the queue, and is refused only once closing has begun. */
  lemma CallReturns(steps: seq<Step>, call: CallId, message: Option<Message>)
    requires Feasible(INITIAL, steps) && Begin(call, message) in steps
    ensures var s := Execute(INITIAL, steps);
      call in s.calls && s.calls[call].message == message &&
      (s.calls[call].Accepted? <==> Enqueue(call) in steps) && (s.calls[call].Refused? ==> s.closed)
  {
    RunRecorded(INITIAL, steps, []);
    assert [] + steps == steps;
    assert CallRecorded(Execute(INITIAL, steps), steps, call);
  }

  // ----- Why the sender leaves its loop -----

  /** The entries put into the queue in a run, nil ones included. */
  function EnqueuedBy(s: State, step: Step): seq<Option<Message>>
    requires Enabled(s, step)
  {
    if step.Enqueue? then [s.calls[step.call].message] else []
  }

  function EnqueuedIn(s: State, steps: seq<Step>): seq<Option<Message>>
    requires Feasible(s, steps)
    decreases |steps|
  {
    if steps == [] then []
    else EnqueuedBy(s, steps[0]) + EnqueuedIn(Perform(s, steps[0]), steps[1..])
  }

  function Entries(messages: seq<Message>): seq<Option<Message>> {
    seq(|messages|, i requires 0 <= i < |messages| => Some(messages[i]))
  }

  /** The messages taken so far, as the sender stands. */
  function Taken(s: State): seq<Option<Message>> {
    Entries(s.stream + InHand(s.sender))
  }

  predicate OutOfLoop(sender: Sender) {
    sender.Closing? || sender.Leaving? || sender.Exited?
  }

  /** In the loop no nil entry was taken, no send failed and no stop was seen; out of it, one of the three. */
  ghost predicate LeavesRecorded(s: State, entries: seq<Option<Message>>, past: seq<Step>) {
    if !OutOfLoop(s.sender) then entries == Taken(s) + s.queue && SendFail !in past && LeaveOnStop !in past
    else if s.sender.lost.Some? then entries == Taken(s) + s.queue && SendFail in past && LeaveOnStop !in past
    else
      SendFail !in past && (LeaveOnStop in past ==> s.stop.Stopped?) &&
      entries == if LeaveOnStop in past then Taken(s) + s.queue else Taken(s) + ([None] + s.queue)
  }

  lemma EnqueueRecorded(taken: seq<Option<Message>>, queue: seq<Option<Message>>, m: Option<Message>)
    ensures (taken + queue) + [m] == taken + (queue + [m])
    ensures (taken + ([None] + queue)) + [m] == taken + ([None] + (queue + [m]))
  {
  }

  lemma TakeRecorded(s: State)
    requires Enabled(s, Take)
    ensures var t := Perform(s, Take);
      Taken(s) + s.queue == if s.queue[0].None? then Taken(t) + ([None] + t.queue) else Taken(t) + t.queue
  {
    var t := Perform(s, Take);
    assert s.queue == [s.queue[0]] + t.queue;
    if s.queue[0].Some? {
      assert s.stream + [] == s.stream;
      assert Taken(t) == Taken(s) + [s.queue[0]];
    }
  }

  lemma StepLeaves(s: State, step: Step, entries: seq<Option<Message>>, past: seq<Step>)
    requires Enabled(s, step) && LeavesRecorded(s, entries, past)
    ensures LeavesRecorded(Perform(s, step), entries + EnqueuedBy(s, step), past + [step])
  {
    var now := past + [step];
    assert step in now && forall x <- now :: x in past || x == step;
    match step
    case Enqueue(call) => EnqueueRecorded(Taken(s), s.queue, s.calls[call].message);
    case Take => TakeRecorded(s);
    case SendOk => assert Perform(s, step).stream + [] == s.stream + [s.sender.message];
    case _ =>
  }

  lemma {:induction false} RunLeaves(s: State, steps: seq<Step>, entries: seq<Option<Message>>, past: seq<Step>)
    requires Feasible(s, steps) && LeavesRecorded(s, entries, past)
    ensures LeavesRecorded(Execute(s, steps), entries + EnqueuedIn(s, steps), past + steps)
    decreases |steps|
  {
    if steps == [] {
      assert past + steps == past && entries + [] == entries;
    } else {
      var t, now := Perform(s, steps[0]), past + [steps[0]];
      StepLeaves(s, steps[0], entries, past);
      RunLeaves(t, steps[1..], entries + EnqueuedBy(s, steps[0]), now);
      PlusAssociates(past, [steps[0]], steps[1..]);
      assert [steps[0]] + steps[1..] == steps;
      PlusAssociates(entries, EnqueuedBy(s, steps[0]), EnqueuedIn(t, steps[1..]));
    }
  }

  /**
   The sender leaves its loop on a stop, on a failed send or on a nil entry, and on nothing else;
   what it has not taken by then is still queued.
   */
  lemma LeavesExactly(steps: seq<Step>)
    requires Feasible(INITIAL, steps)
    ensures LeavesRecorded(Execute(INITIAL, steps), EnqueuedIn(INITIAL, steps), steps)
  {
    assert Taken(INITIAL) == [];
    RunLeaves(INITIAL, steps, [], []);
    assert [] + steps == steps && [] + EnqueuedIn(INITIAL, steps) == EnqueuedIn(INITIAL, steps);
  }

  // ----- After closing -----

  /** A call that finds the flag up is never accepted. */
  lemma {:induction false} TurnedAway(s: State, steps: seq<Step>, call: CallId)
    requires Feasible(s, steps) && s.closed
    requires call in s.calls && (s.calls[call].Checking? || s.calls[call].Refused?)
    ensures var t := Execute(s, steps); call in t.calls && (t.calls[call].Checking? || t.calls[call].Refused?)
    decreases |steps|
  {
    if steps != [] { TurnedAway(Perform(s, steps[0]), steps[1..], call); }
  }

  lemma {:induction false} ClosedStays(s: State, steps: seq<Step>)
    requires s.closed && Feasible(s, steps)
    ensures Execute(s, steps).closed
    decreases |steps|
  {
    if steps != [] { ClosedStays(Perform(s, steps[0]), steps[1..]); }
  }

  lemma CallsAfterCloseRefused(s: State, call: CallId, message: Option<Message>, steps: seq<Step>)
    requires s.closed && Feasible(s, [Begin(call, message)] + steps)
    ensures var t := Execute(s, [Begin(call, message)] + steps);
      call in t.calls && !t.calls[call].Accepted? &&
      (t.calls[call].Checking? ==> Perform(t, CheckFlag(call)).calls[call].Refused?)
  {
    var t := Perform(s, Begin(call, message));
    assert ([Begin(call, message)] + steps)[1..] == steps;
    TurnedAway(t, steps, call);
    ClosedStays(t, steps);
  }

  /** Once the sender has left its loop, nothing more is sent and nothing leaves the queue. */
  lemma {:induction false} StreamFrozen(s: State, steps: seq<Step>)
    requires OutOfLoop(s.sender) && Feasible(s, steps)
    ensures var t := Execute(s, steps);
      OutOfLoop(t.sender) && t.stream == s.stream && t.sender.lost == s.sender.lost && s.queue <= t.queue
    decreases |steps|
  {
    if steps != [] { StreamFrozen(Perform(s, steps[0]), steps[1..]); }
  }

  // ----- Nobody waits for ever -----

  predicate CanReturn(s: State, call: CallId) {
    Enabled(s, Enqueue(call)) || Enabled(s, SeeStop(call)) || Enabled(s, SeeFinished(call))
  }

  /** What the sender does next when every send succeeds. */
  function Onward(s: State): seq<Step> {
    match s.sender
    case Selecting => [Take]
    case Sending(_) => [SendOk, Take]
    case Closing(_) => [RaiseFlag, Exit]
    case Leaving(_) => [Exit]
    case Exited(_) => []
  }

  /** A waiting call is accepted once there is room, and can return once stop has returned or the sender has exited. */
  lemma WaitingCallsSee(s: State, call: CallId)
    requires IsWaiting(s, call)
    ensures |s.queue| < 256 ==> Enabled(s, Enqueue(call))
    ensures s.stop.Stopped? ==> Enabled(s, SeeStop(call)) && Perform(s, SeeStop(call)).calls[call].Refused?
    ensures s.sender.Exited? ==> Enabled(s, SeeFinished(call)) && Perform(s, SeeFinished(call)).calls[call].Refused?
  {
  }

  /** A waiting call can return now, or at the latest after two more steps of the sender. */
  lemma WaitingCallsReturn(steps: seq<Step>, call: CallId)
    requires Feasible(INITIAL, steps) && IsWaiting(Execute(INITIAL, steps), call)
    ensures var s := Execute(INITIAL, steps);
      CanReturn(s, call) ||
      (Feasible(s, Onward(s)) && |Onward(s)| <= 2 && CanReturn(Execute(s, Onward(s)), call))
  {
    var s := Execute(INITIAL, steps);
    RunKeeps(INITIAL, steps);
    if !CanReturn(s, call) {
      assert |s.queue| == QUEUE_SIZE && !s.sender.Exited?;
      var a := Onward(s)[0];
      if |Onward(s)| == 2 {
        var b := Onward(s)[1];
        Prepend(Perform(s, a), b, []);
        Prepend(s, a, [b]);
      } else {
        Prepend(s, a, []);
      }
    }
  }

  // ----- Draining -----

  predicate Healthy(steps: seq<Step>) {
    forall step <- steps :: !step.SendFail?
  }

  /** Whenever the sender exits without a failed send, all that was accepted has been sent. */
  ghost predicate Drains(s: State) {
    forall steps :: Feasible(s, steps) && Healthy(steps) && Execute(s, steps).sender.Exited? ==>
      Execute(s, steps).stream == s.stream + InHand(s.sender) + Messages(s.queue) + AcceptedIn(s, steps)
  }

  /** The sender is gone for good and there is no room: nothing is accepted any more. */
  predicate Blocked(s: State) {
    OutOfLoop(s.sender) && |s.queue| == 256
  }

  /** The call may still be accepted. */
  predicate Pending(s: State, call: CallId) {
    call in s.calls && s.calls[call].message.Some? &&
    (s.calls[call].Waiting? || (s.calls[call].Peeking? && !s.stop.Stopped?))
  }

  /** Nothing is queued or lost, and no message can still be accepted. */
  predicate Drained(s: State) {
    Messages(s.queue) == [] &&
    (OutOfLoop(s.sender) ==> s.sender.lost.None?) &&
    (Blocked(s) || (s.closed && forall call <- s.calls :: !Pending(s, call)))
  }

  lemma DrainedKept(s: State, step: Step)
    requires Inv(s) && Drained(s) && Enabled(s, step) && !step.SendFail?
    ensures Drained(Perform(s, step))
  {
    match step
    case Begin(_, _) =>
    case CheckFlag(_) =>
    case PeekStop(_) =>
    case Enqueue(call) =>
      assert !Pending(s, call);
      MessagesSnoc(s.queue, s.calls[call].message);
    case SeeStop(_) =>
    case SeeFinished(_) =>
    case Take =>
    case SendOk =>
    case LeaveOnStop =>
    case RaiseFlag =>
    case Exit =>
    case StopFlag =>
    case StopClose =>
  }

  lemma {:induction false} DrainedStays(s: State, steps: seq<Step>)
    requires Inv(s) && Drained(s) && Feasible(s, steps) && Healthy(steps)
    ensures Drained(Execute(s, steps))
    decreases |steps|
  {
    if steps == [] {
    } else {
      DrainedKept(s, steps[0]);
      DrainedStays(Perform(s, steps[0]), steps[1..]);
    }
  }

  /** What was accepted and not sent. */
  function Unsent(s: State): seq<Message> {
    InHand(s.sender) + Messages(s.queue)
  }

  /** A run of healthy sends that ends with an accepted message not sent. */
  ghost predicate Strands(s: State) {
    exists steps :: Feasible(s, steps) && Healthy(steps) &&
      Execute(s, steps).sender.Exited? && Unsent(Execute(s, steps)) != []
  }

  lemma StrandsEarlier(s: State, step: Step)
    requires Enabled(s, step) && !step.SendFail? && Strands(Perform(s, step))
    ensures Strands(s)
  {
    var t := Perform(s, step);
    var steps :| Feasible(t, steps) && Healthy(steps) &&
      Execute(t, steps).sender.Exited? && Unsent(Execute(t, steps)) != [];
    Prepend(s, step, steps);
  }

  /** The next step on the shortest way to the sender's exit. */
  function WayOut(s: State): Step
    requires !s.sender.Exited?
  {
    match s.sender
    case Sending(_) => SendOk
    case Selecting => (match s.stop case NotCalled => StopFlag case Flagged => StopClose case Stopped => LeaveOnStop)
    case Closing(_) => RaiseFlag
    case _ => Exit
  }

  function StepsOut(s: State): nat {
    match s.sender
    case Sending(_) => 6
    case Selecting => (match s.stop case NotCalled => 5 case Flagged => 4 case Stopped => 3)
    case Closing(_) => 2
    case Leaving(_) => 1
    case Exited(_) => 0
  }

  /** What is queued may stay there, and what is lost stays lost. */
  lemma {:induction false} RestStrands(s: State)
    requires Messages(s.queue) != [] || (OutOfLoop(s.sender) && s.sender.lost.Some?)
    ensures Strands(s)
    decreases StepsOut(s)
  {
    if s.sender.Exited? {
      assert Feasible(s, []) && Execute(s, []) == s;
    } else {
      RestStrands(Perform(s, WayOut(s)));
      StrandsEarlier(s, WayOut(s));
    }
  }

  /** A call in its last select may still be accepted, `stop` or not. */
  lemma {:induction false} CallStrands(s: State, call: CallId)
    requires Messages(s.queue) == [] && |s.queue| <= QUEUE_SIZE && !Blocked(s)
    requires IsWaiting(s, call) && s.calls[call].message.Some?
    ensures Strands(s)
    decreases |s.queue|, s.sender.Sending?
  {
    if |s.queue| < QUEUE_SIZE {
      MessagesSnoc(s.queue, s.calls[call].message);
      RestStrands(Perform(s, Enqueue(call)));
      StrandsEarlier(s, Enqueue(call));
    } else if s.sender.Sending? {
      CallStrands(Perform(s, SendOk), call);
      StrandsEarlier(s, SendOk);
    } else {
      CallStrands(Perform(s, Take), call);
      StrandsEarlier(s, Take);
    }
  }

  lemma PendingStrands(s: State, call: CallId)
    requires Inv(s) && Messages(s.queue) == [] && !Blocked(s) && Pending(s, call)
    ensures Strands(s)
  {
    if s.calls[call].Waiting? {
      CallStrands(s, call);
    } else {
      CallStrands(Perform(s, PeekStop(call)), call);
      StrandsEarlier(s, PeekStop(call));
    }
  }

  lemma {:induction false} UnusedId(ids: set<CallId>) returns (id: CallId)
    ensures forall other <- ids :: other < id
    decreases |ids|
  {
    if ids == {} {
      id := 0;
    } else {
      var one :| one in ids;
      var bound := UnusedId(ids - {one});
      id := if one < bound then bound else one + 1;
      assert forall other <- ids :: other == one || other in ids - {one};
    }
  }

  /** While the flag is down, a new call may slip in. */
  lemma OpenStrands(s: State)
    requires Inv(s) && Messages(s.queue) == [] && !Blocked(s) && !s.closed
    ensures Strands(s)
  {
    var call := UnusedId(s.calls.Keys);
    var s1 := Perform(s, Begin(call, Some(0)));
    var s2 := Perform(s1, CheckFlag(call));
    PendingStrands(s2, call);
    StrandsEarlier(s1, CheckFlag(call));
    StrandsEarlier(s, Begin(call, Some(0)));
  }

  lemma StrandsNotDrains(s: State)
    requires Strands(s)
    ensures !Drains(s)
  {
    var more :| Feasible(s, more) && Healthy(more) && Execute(s, more).sender.Exited? && Unsent(Execute(s, more)) != [];
    RunConserves(s, more);
    assert |Execute(s, more).stream| < |Traced(s) + AcceptedIn(s, more)|;
  }

  /**
   In whatever state, all that is accepted will have been sent when the sender exits, further sends
   being successful, exactly when nothing is queued or lost and no message can still be accepted.
   */
  lemma DrainsExactly(steps: seq<Step>)
    requires Feasible(INITIAL, steps)
    ensures Drains(Execute(INITIAL, steps)) <==> Drained(Execute(INITIAL, steps))
  {
    var s := Execute(INITIAL, steps);
    RunKeeps(INITIAL, steps);
    if Drained(s) {
      forall more | Feasible(s, more) && Healthy(more) && Execute(s, more).sender.Exited?
        ensures Execute(s, more).stream == s.stream + InHand(s.sender) + Messages(s.queue) + AcceptedIn(s, more)
      {
        DrainedStays(s, more);
        RunConserves(s, more);
      }
    } else {
      if Messages(s.queue) != [] || (OutOfLoop(s.sender) && s.sender.lost.Some?) {
        RestStrands(s);
      } else if call :| call in s.calls && Pending(s, call) {
        PendingStrands(s, call);
      } else {
        OpenStrands(s);
      }
      StrandsNotDrains(s);
    }
  }

  /** The case of `Start`: what holds when `stop` has returned. */
  lemma DrainsAfterStop(steps: seq<Step>)
    requires Feasible(INITIAL, steps) && Execute(INITIAL, steps).stop.Stopped?
    ensures var s := Execute(INITIAL, steps);
      Drains(s) <==>
        Messages(s.queue) == [] &&
        (OutOfLoop(s.sender) ==> s.sender.lost.None?) &&
        forall call <- s.calls :: s.calls[call].Waiting? && s.calls[call].message.Some? ==> Blocked(s)
  {
    var s := Execute(INITIAL, steps);
    RunKeeps(INITIAL, steps);
    DrainsExactly(steps);
    assert forall call <- s.calls :: Pending(s, call) <==> s.calls[call].Waiting? && s.calls[call].message.Some?;
  }

  lemma StopsAtOnce(s: State)
    requires s.stop.NotCalled?
    ensures Feasible(s, [StopFlag, StopClose])
    ensures Execute(s, [StopFlag, StopClose]) == s.(closed := true, stop := Stopped)
  {
    var t := Perform(s, StopFlag);
    Prepend(t, StopClose, []);
    Prepend(s, StopFlag, [StopClose]);
  }

  /** Such a state is reached by a single call before `stop`: its message need not be sent. */
  lemma StopMayStrand(message: Message)
    ensures var steps := [Begin(0, Some(message)), CheckFlag(0), PeekStop(0), Enqueue(0), StopFlag, StopClose];
      Feasible(INITIAL, steps) && Execute(INITIAL, steps).stop.Stopped? && Strands(Execute(INITIAL, steps))
  {
    var s1 := Perform(INITIAL, Begin(0, Some(message)));
    var s2 := Perform(s1, CheckFlag(0));
    var s3 := Perform(s2, PeekStop(0));
    var s4 := Perform(s3, Enqueue(0));
    StopsAtOnce(s4);
    Prepend(s3, Enqueue(0), [StopFlag, StopClose]);
    Prepend(s2, PeekStop(0), [Enqueue(0), StopFlag, StopClose]);
    Prepend(s1, CheckFlag(0), [PeekStop(0), Enqueue(0), StopFlag, StopClose]);
    Prepend(INITIAL, Begin(0, Some(message)), [CheckFlag(0), PeekStop(0), Enqueue(0), StopFlag, StopClose]);
    RestStrands(Execute(s4, [StopFlag, StopClose]));
  }
}
