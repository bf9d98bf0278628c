/**
 The rendezvous between the HTTP request and the gRPC invocation of one invocation id.

 Both sides obtain a slot with two one-place channels from a shared map. The gRPC side delivers
 its request there and waits for a result; the HTTP side waits for the request, runs the handler
 and delivers the result. Either side may time out, and the HTTP client may disconnect. One
 `Step` is one atomic action of one side; steps of all ids interleave freely. A timeout or a
 disconnect may happen at any moment of the corresponding wait. Each id has at most one HTTP
 and one gRPC side.
 */
module HttpRendezvous {
  import opened Bytes

  type Id = string
  type SlotId = nat

  /** The request and the loaded function that the gRPC side delivers. */
  datatype Arrival = Arrival(request: nat, loaded: nat)

  datatype Status = Success | Failure(message: string)

  /** `context` is what the handler run left behind; None when no handler ran. */
  datatype Result = Result(status: Status, context: Option<nat>)

  const DISCONNECTED := Result(Failure("client disconnected before invocation could start"), None)

  /** One handler run with its outcome. */
  datatype Run = Run(id: Id, arrival: Arrival, status: Status, context: nat)

  /** `owner` is the id the slot was made for; the counters tell how often each channel was sent to. */
  datatype Slot = Slot(owner: Id, grpc: Option<Arrival>, done: Option<Result>, arrivals: nat, results: nat)

  datatype HttpPc = Waiting | Running | Reporting | Disconnected | Sent | TimedOut | Gone

  /** `arrival`, `run` and `sent` record what the side received, ran and delivered. */
  datatype HttpSide =
    HttpSide(slot: SlotId, pc: HttpPc, arrival: Option<Arrival>, run: Option<Run>, sent: Option<Result>)

  datatype GrpcOutcome = Reply(result: Result) | TimeoutError
  datatype GrpcPc = Delivering | Awaiting | Expired | Back(outcome: GrpcOutcome)
  datatype GrpcSide = GrpcSide(slot: SlotId, pc: GrpcPc, arrival: Arrival)

  datatype State = State(
    pending: map<Id, SlotId>,
    slots: seq<Slot>,
    http: map<Id, HttpSide>,
    grpc: map<Id, GrpcSide>,
    runs: seq<Run>)

  const INITIAL := State(map[], [], map[], map[], [])

  datatype Step =
    | HttpEnter(id: Id)
    | HttpReceive(id: Id)
    | HttpDisconnect(id: Id)
    | HttpTimeout(id: Id)
    | HttpFinish(id: Id, status: Status, context: nat)
    | HttpSend(id: Id)
    | HttpDelete(id: Id)
    | GrpcEnter(id: Id, arrival: Arrival)
    | GrpcSend(id: Id)
    | GrpcReceive(id: Id)
    | GrpcTimeout(id: Id)
    | GrpcDelete(id: Id)

  // ----- Steps -----

  predicate HttpAt(s: State, id: Id, pc: HttpPc) {
    id in s.http && s.http[id].pc == pc && s.http[id].slot < |s.slots|
  }

  predicate GrpcAt(s: State, id: Id, pc: GrpcPc) {
    id in s.grpc && s.grpc[id].pc == pc && s.grpc[id].slot < |s.slots|
  }

  /** A send needs a free place in the channel and a receive a value. */
  predicate Enabled(s: State, step: Step) {
    match step
    case HttpEnter(id) => id != "" && id !in s.http
    case HttpReceive(id) => HttpAt(s, id, Waiting) && s.slots[s.http[id].slot].grpc.Some?
    case HttpDisconnect(id) => HttpAt(s, id, Waiting)
    case HttpTimeout(id) => HttpAt(s, id, Waiting)
    case HttpFinish(id, _, _) => HttpAt(s, id, Running) && s.http[id].arrival.Some?
    case HttpSend(id) =>
      ((HttpAt(s, id, Reporting) && s.http[id].run.Some?) || HttpAt(s, id, Disconnected)) &&
      s.slots[s.http[id].slot].done.None?
    case HttpDelete(id) => HttpAt(s, id, Sent) || HttpAt(s, id, TimedOut)
    case GrpcEnter(id, _) => id !in s.grpc
    case GrpcSend(id) => GrpcAt(s, id, Delivering) && s.slots[s.grpc[id].slot].grpc.None?
    case GrpcReceive(id) => GrpcAt(s, id, Awaiting) && s.slots[s.grpc[id].slot].done.Some?
    case GrpcTimeout(id) => GrpcAt(s, id, Awaiting)
    case GrpcDelete(id) => GrpcAt(s, id, Expired)
  }

  /** The slot of `id`, made if it is missing. */
  function GetOrCreatePending(s: State, id: Id): (State, SlotId) {
    if id in s.pending then (s, s.pending[id])
    else (s.(pending := s.pending[id := |s.slots|], slots := s.slots + [Slot(id, None, None, 0, 0)]), |s.slots|)
  }

  function DeletePending(s: State, id: Id): State {
    s.(pending := s.pending - {id})
  }

  function SetHttp(s: State, id: Id, h: HttpSide): State {
    s.(http := s.http[id := h])
  }

  function SetGrpc(s: State, id: Id, g: GrpcSide): State {
    s.(grpc := s.grpc[id := g])
  }

  function SetSlot(s: State, sl: SlotId, slot: Slot): State
    requires sl < |s.slots|
  {
    s.(slots := s.slots[sl := slot])
  }

  function Perform(s: State, step: Step): State
    requires Enabled(s, step)
  {
    match step
    case HttpEnter(id) =>
      var (t, sl) := GetOrCreatePending(s, id);
      SetHttp(t, id, HttpSide(sl, Waiting, None, None, None))
    case HttpReceive(id) =>
      var h, slot := s.http[id], s.slots[s.http[id].slot];
      SetHttp(SetSlot(s, h.slot, slot.(grpc := None)), id, h.(pc := Running, arrival := slot.grpc))
    case HttpDisconnect(id) => SetHttp(s, id, s.http[id].(pc := Disconnected))
    case HttpTimeout(id) => SetHttp(s, id, s.http[id].(pc := TimedOut))
    case HttpFinish(id, status, context) =>
      var run := Run(id, s.http[id].arrival.value, status, context);
      SetHttp(s, id, s.http[id].(pc := Reporting, run := Some(run))).(runs := s.runs + [run])
    case HttpSend(id) =>
      var h, slot := s.http[id], s.slots[s.http[id].slot];
      var result := if h.pc.Disconnected? then DISCONNECTED else Result(h.run.value.status, Some(h.run.value.context));
      SetHttp(SetSlot(s, h.slot, slot.(done := Some(result), results := slot.results + 1)), id,
              h.(pc := Sent, sent := Some(result)))
    case HttpDelete(id) => SetHttp(DeletePending(s, id), id, s.http[id].(pc := Gone))
    case GrpcEnter(id, arrival) =>
      var (t, sl) := GetOrCreatePending(s, id);
      SetGrpc(t, id, GrpcSide(sl, Delivering, arrival))
    case GrpcSend(id) =>
      var g, slot := s.grpc[id], s.slots[s.grpc[id].slot];
      SetGrpc(SetSlot(s, g.slot, slot.(grpc := Some(g.arrival), arrivals := slot.arrivals + 1)), id, g.(pc := Awaiting))
    case GrpcReceive(id) =>
      var g, slot := s.grpc[id], s.slots[s.grpc[id].slot];
      SetGrpc(SetSlot(s, g.slot, slot.(done := None)), id, g.(pc := Back(Reply(slot.done.value))))
    case GrpcTimeout(id) => SetGrpc(s, id, s.grpc[id].(pc := Expired))
    case GrpcDelete(id) => SetGrpc(DeletePending(s, id), id, s.grpc[id].(pc := Back(TimeoutError)))
  }

  /** Every step of the list is enabled when its turn comes. */
  predicate Feasible(s: State, steps: seq<Step>)
    decreases |steps|
  {
    steps == [] || (Enabled(s, steps[0]) && Feasible(Perform(s, steps[0]), steps[1..]))
  }

  function Execute(s: State, steps: seq<Step>): State
    requires Feasible(s, steps)
    decreases |steps|
  {
    if steps == [] then s else Execute(Perform(s, steps[0]), steps[1..])
  }

  /** One step more at the front of a run. */
  lemma Prepend(s: State, step: Step, steps: seq<Step>)
    requires Enabled(s, step) && Feasible(Perform(s, step), steps)
    ensures Feasible(s, [step] + steps) && Execute(s, [step] + steps) == Execute(Perform(s, step), steps)
  {
    assert ([step] + steps)[1..] == steps;
  }

  // ----- The invariant -----

  predicate HttpLive(s: State, id: Id, sl: SlotId) {
    id in s.http && s.http[id].slot == sl && !s.http[id].pc.Gone?
  }

  predicate GrpcLive(s: State, id: Id, sl: SlotId) {
    id in s.grpc && s.grpc[id].slot == sl && !s.grpc[id].pc.Back?
  }

  function RunsOf(runs: seq<Run>, id: Id): seq<Run> {
    if runs == [] then []
    else RunsOf(runs[..|runs| - 1], id) + if runs[|runs| - 1].id == id then [runs[|runs| - 1]] else []
  }

  /** A pending entry belongs to a live side, and a side that waits for its partner is findable. */
  predicate PendingInv(s: State, id: Id) {
    (id in s.pending ==>
       s.pending[id] < |s.slots| && s.slots[s.pending[id]].owner == id &&
       (HttpLive(s, id, s.pending[id]) || GrpcLive(s, id, s.pending[id]))) &&
    (id in s.http && !s.http[id].pc.Gone? ==>
       if id in s.pending then s.pending[id] == s.http[id].slot else id in s.grpc) &&
    (id in s.grpc && !s.grpc[id].pc.Back? ==>
       if id in s.pending then s.pending[id] == s.grpc[id].slot else id in s.http)
  }

  function ResultOf(h: HttpSide): Result {
    match h.run
    case Some(run) => Result(run.status, Some(run.context))
    case None => DISCONNECTED
  }

  predicate HttpInv(s: State, id: Id) {
    if id !in s.http then RunsOf(s.runs, id) == []
    else
      var h := s.http[id];
      h.slot < |s.slots| && s.slots[h.slot].owner == id &&
      RunsOf(s.runs, id) == (if h.run.Some? then [h.run.value] else []) &&
      (h.pc.Gone? && id in s.pending ==> s.pending[id] != h.slot) &&
      (h.pc.Waiting? || h.pc.Disconnected? || h.pc.TimedOut? ==> h.arrival.None?) &&
      (h.pc.Sent? ==> h.sent.Some?) &&
      (h.sent.Some? ==> h.sent.value == ResultOf(h) && (h.pc.Sent? || h.pc.Gone?)) &&
      (h.pc.Reporting? ==> h.run.Some?) &&
      (h.pc.Running? <==> h.arrival.Some? && h.run.None?) &&
      (h.arrival.Some? ==>
         id in s.grpc && s.grpc[id].slot == h.slot && !s.grpc[id].pc.Delivering? &&
         s.grpc[id].arrival == h.arrival.value) &&
      (h.run.Some? ==> h.arrival == Some(h.run.value.arrival) && h.run.value.id == id)
  }

  predicate GrpcInv(s: State, id: Id) {
    id in s.grpc ==>
      var g := s.grpc[id];
      g.slot < |s.slots| && s.slots[g.slot].owner == id &&
      (g.pc == Back(TimeoutError) && id in s.pending ==> s.pending[id] != g.slot) &&
      (g.pc.Back? && g.pc.outcome.Reply? ==>
         id in s.http && s.http[id].slot == g.slot && s.http[id].sent == Some(g.pc.outcome.result))
  }

  predicate IdInv(s: State, id: Id) {
    PendingInv(s, id) && HttpInv(s, id) && GrpcInv(s, id)
  }

  /** Has the gRPC side of the owner delivered into the slot, has the HTTP side? */
  predicate Delivered(s: State, sl: SlotId)
    requires sl < |s.slots|
  {
    var id := s.slots[sl].owner;
    id in s.grpc && s.grpc[id].slot == sl && !s.grpc[id].pc.Delivering?
  }

  predicate Reported(s: State, sl: SlotId)
    requires sl < |s.slots|
  {
    var id := s.slots[sl].owner;
    id in s.http && s.http[id].slot == sl && s.http[id].sent.Some?
  }

  predicate Taken(s: State, sl: SlotId)
    requires sl < |s.slots|
  {
    var id := s.slots[sl].owner;
    id in s.http && s.http[id].slot == sl && s.http[id].arrival.Some?
  }

  predicate Answered(s: State, sl: SlotId)
    requires sl < |s.slots|
  {
    var id := s.slots[sl].owner;
    id in s.grpc && s.grpc[id].slot == sl && s.grpc[id].pc.Back? && s.grpc[id].pc.outcome.Reply?
  }

  /** Each channel was sent to at most once and holds what was sent and not yet received. */
  predicate SlotInv(s: State, sl: SlotId)
    requires sl < |s.slots|
  {
    var slot := s.slots[sl];
    slot.arrivals == (if Delivered(s, sl) then 1 else 0) &&
    slot.grpc == (if Delivered(s, sl) && !Taken(s, sl) then Some(s.grpc[slot.owner].arrival) else None) &&
    slot.results == (if Reported(s, sl) then 1 else 0) &&
    slot.done == (if Reported(s, sl) && !Answered(s, sl) then s.http[slot.owner].sent else None)
  }

  ghost predicate Inv(s: State) {
    (forall id: Id :: IdInv(s, id)) &&
    (forall sl: SlotId :: sl < |s.slots| ==> SlotInv(s, sl))
  }

  // ----- Every step keeps the invariant -----

  /** A step of one id leaves the sides, the entry and the slots of the others alone. */
  lemma StepFrame(s: State, step: Step, j: Id)
    requires Enabled(s, step) && j != step.id
    ensures var t := Perform(s, step);
      (j in t.http <==> j in s.http) && (j in s.http ==> t.http[j] == s.http[j]) &&
      (j in t.grpc <==> j in s.grpc) && (j in s.grpc ==> t.grpc[j] == s.grpc[j]) &&
      (j in t.pending <==> j in s.pending) && (j in s.pending ==> t.pending[j] == s.pending[j]) &&
      RunsOf(t.runs, j) == RunsOf(s.runs, j)
  {
    if step.HttpFinish? {
      var t := Perform(s, step);
      assert t.runs[..|t.runs| - 1] == s.runs;
    }
  }

  /** Slots are never removed, and only slots of the step's own id change. */
  lemma SlotFrame(s: State, step: Step, sl: SlotId)
    requires Enabled(s, step) && IdInv(s, step.id) && sl < |s.slots|
    ensures var t := Perform(s, step);
      sl < |t.slots| && t.slots[sl].owner == s.slots[sl].owner &&
      (s.slots[sl].owner != step.id ==> t.slots[sl] == s.slots[sl])
  {}

  lemma OthersKeep(s: State, step: Step, j: Id)
    requires Enabled(s, step) && j != step.id && IdInv(s, step.id) && IdInv(s, j)
    ensures IdInv(Perform(s, step), j)
  {
    StepFrame(s, step, j);
    if j in s.http { SlotFrame(s, step, s.http[j].slot); }
    if j in s.grpc { SlotFrame(s, step, s.grpc[j].slot); }
    if j in s.pending { SlotFrame(s, step, s.pending[j]); }
  }

  lemma OwnKeeps(s: State, step: Step)
    requires Enabled(s, step) && IdInv(s, step.id)
    requires forall sl: SlotId :: sl < |s.slots| ==> SlotInv(s, sl)
    ensures IdInv(Perform(s, step), step.id)
  {
    var id := step.id;
    if step.HttpFinish? {
      var t := Perform(s, step);
      assert t.runs[..|t.runs| - 1] == s.runs;
    } else if step.HttpReceive? {
      assert SlotInv(s, s.http[id].slot);
    } else if step.GrpcReceive? {
      assert SlotInv(s, s.grpc[id].slot);
    }
  }

  lemma OwnSlotKeeps(s: State, step: Step, sl: SlotId)
    requires Enabled(s, step) && IdInv(s, step.id) && sl < |s.slots|
    requires SlotInv(s, sl) && s.slots[sl].owner == step.id
    ensures sl < |Perform(s, step).slots| && SlotInv(Perform(s, step), sl)
  {
    match step
    case HttpEnter(_) =>
    case HttpReceive(_) =>
    case HttpDisconnect(_) =>
    case HttpTimeout(_) =>
    case HttpFinish(_, _, _) =>
    case HttpSend(_) =>
    case HttpDelete(_) =>
    case GrpcEnter(_, _) =>
    case GrpcSend(_) =>
    case GrpcReceive(_) =>
    case GrpcTimeout(_) =>
    case GrpcDelete(_) =>
  }

  lemma SlotKeeps(s: State, step: Step, sl: SlotId)
    requires Enabled(s, step) && IdInv(s, step.id) && sl < |s.slots|
    requires SlotInv(s, sl) && IdInv(s, s.slots[sl].owner)
    ensures sl < |Perform(s, step).slots| && SlotInv(Perform(s, step), sl)
  {
    SlotFrame(s, step, sl);
    if s.slots[sl].owner != step.id {
      StepFrame(s, step, s.slots[sl].owner);
    } else {
      OwnSlotKeeps(s, step, sl);
    }
  }

  lemma NewSlot(s: State, step: Step, sl: SlotId)
    requires Enabled(s, step) && IdInv(s, step.id) && |s.slots| <= sl < |Perform(s, step).slots|
    ensures SlotInv(Perform(s, step), sl)
  {
    assert step.HttpEnter? || step.GrpcEnter?;
  }

  lemma StepKeeps(s: State, step: Step)
    requires Enabled(s, step) && Inv(s)
    ensures Inv(Perform(s, step))
  {
    var t := Perform(s, step);
    OwnKeeps(s, step);
    forall id: Id | id != step.id ensures IdInv(t, id) { OthersKeep(s, step, id); }
    forall sl: SlotId | sl < |t.slots| ensures SlotInv(t, sl) {
      if sl < |s.slots| { SlotKeeps(s, step, sl); } else { NewSlot(s, step, sl); }
    }
  }

  // ----- Every run -----

  lemma {:induction false} RunKeeps(s: State, steps: seq<Step>)
    requires Inv(s) && Feasible(s, steps)
    ensures Inv(Execute(s, steps))
    decreases |steps|
  {
    if steps == [] {
    } else {
      StepKeeps(s, steps[0]);
      RunKeeps(Perform(s, steps[0]), steps[1..]);
    }
  }

  /** Everything below speaks of the state after an arbitrary run. */
  lemma Reached(steps: seq<Step>)
    requires Feasible(INITIAL, steps)
    ensures Inv(Execute(INITIAL, steps))
  {
    RunKeeps(INITIAL, steps);
  }

  lemma {:induction false} RunsOfAt(runs: seq<Run>, i: nat)
    requires i < |runs|
    ensures RunsOf(runs, runs[i].id) != []
    ensures |RunsOf(runs, runs[i].id)| == 1 ==> RunsOf(runs, runs[i].id) == [runs[i]]
    ensures |RunsOf(runs, runs[i].id)| == 1 ==> forall j :: i < j < |runs| ==> runs[j].id != runs[i].id
  {
    if i < |runs| - 1 {
      RunsOfAt(runs[..|runs| - 1], i);
      assert forall j :: i < j < |runs| - 1 ==> runs[j] == runs[..|runs| - 1][j];
    }
  }

  lemma {:induction false} RunsOfIn(runs: seq<Run>, id: Id)
    ensures forall run <- RunsOf(runs, id) :: run in runs && run.id == id
  {
    if runs != [] { RunsOfIn(runs[..|runs| - 1], id); }
  }

  /** What is known of the sides of an id and of a run is what the steps of that id did. */
  ghost predicate GrpcRecorded(s: State, id: Id, past: seq<Step>) {
    id in s.grpc ==>
      GrpcEnter(id, s.grpc[id].arrival) in past &&
      (s.grpc[id].pc.Expired? || s.grpc[id].pc == Back(TimeoutError) ==> GrpcTimeout(id) in past)
  }

  ghost predicate HttpRecorded(s: State, id: Id, past: seq<Step>) {
    id in s.http ==>
      id != "" && HttpEnter(id) in past &&
      (s.http[id].pc.TimedOut? ==> HttpTimeout(id) in past) &&
      (s.http[id].pc.Disconnected? || (s.http[id].sent.Some? && s.http[id].run.None?) ==> HttpDisconnect(id) in past)
  }

  ghost predicate Recorded(s: State, past: seq<Step>) {
    (forall id: Id :: GrpcRecorded(s, id, past) && HttpRecorded(s, id, past)) &&
    forall run <- s.runs :: HttpFinish(run.id, run.status, run.context) in past
  }

  lemma StepRecorded(s: State, step: Step, past: seq<Step>)
    requires Inv(s) && Enabled(s, step) && Recorded(s, past)
    ensures Recorded(Perform(s, step), past + [step])
  {
    var t := Perform(s, step);
    forall id: Id ensures GrpcRecorded(t, id, past + [step]) && HttpRecorded(t, id, past + [step]) {
      assert GrpcRecorded(s, id, past) && HttpRecorded(s, id, past) && IdInv(s, id);
      if id != step.id { StepFrame(s, step, id); }
      assert step in past + [step];
    }
    forall run | run in t.runs ensures HttpFinish(run.id, run.status, run.context) in past + [step] {
      assert run in s.runs || step == HttpFinish(run.id, run.status, run.context);
    }
  }

  lemma {:induction false} RunRecorded(s: State, steps: seq<Step>, past: seq<Step>)
    requires Inv(s) && Feasible(s, steps) && Recorded(s, past)
    ensures Recorded(Execute(s, steps), past + steps)
    decreases |steps|
  {
    if steps == [] {
      assert past + steps == past;
    } else {
      StepKeeps(s, steps[0]);
      StepRecorded(s, steps[0], past);
      RunRecorded(Perform(s, steps[0]), steps[1..], past + [steps[0]]);
      assert past + steps == (past + [steps[0]]) + steps[1..];
    }
  }

  lemma History(steps: seq<Step>)
    requires Feasible(INITIAL, steps)
    ensures Recorded(Execute(INITIAL, steps), steps)
  {
    RunRecorded(INITIAL, steps, []);
    assert [] + steps == steps;
  }

  /** The handler runs at most once per id, and only with what the gRPC side of that id brought. */
  lemma HandlerRunsOnce(steps: seq<Step>, i: nat)
    requires Feasible(INITIAL, steps) && i < |Execute(INITIAL, steps).runs|
    ensures var runs := Execute(INITIAL, steps).runs;
      GrpcEnter(runs[i].id, runs[i].arrival) in steps &&
      HttpFinish(runs[i].id, runs[i].status, runs[i].context) in steps &&
      forall j :: 0 <= j < |runs| && j != i ==> runs[j].id != runs[i].id
  {
    var s := Execute(INITIAL, steps);
    var id := s.runs[i].id;
    Reached(steps);
    assert IdInv(s, id);
    RunsOfAt(s.runs, i);
    forall j | 0 <= j < i ensures s.runs[j].id != id { RunsOfAt(s.runs, j); }
    History(steps);
    assert GrpcRecorded(s, id, steps);
  }

  /**
   What a gRPC side that returns without error has been told: with a context, the outcome that the
   handler finished with in its one run on this arrival; without one, that the client left, and no
   handler ran.
   */
  lemma ReplyTellsTheRun(steps: seq<Step>, id: Id)
    requires Feasible(INITIAL, steps)
    requires var s := Execute(INITIAL, steps); id in s.grpc && s.grpc[id].pc.Back? && s.grpc[id].pc.outcome.Reply?
    ensures var s := Execute(INITIAL, steps);
      var reply := s.grpc[id].pc.outcome.result;
      match reply.context {
        case Some(context) =>
          Run(id, s.grpc[id].arrival, reply.status, context) in s.runs &&
          HttpFinish(id, reply.status, context) in steps && GrpcEnter(id, s.grpc[id].arrival) in steps
        case None =>
          reply.status.Failure? && HttpDisconnect(id) in steps && forall run <- s.runs :: run.id != id
      }
  {
    var s := Execute(INITIAL, steps);
    Reached(steps);
    History(steps);
    assert GrpcRecorded(s, id, steps) && HttpRecorded(s, id, steps);
    assert IdInv(s, id);
    RunsOfIn(s.runs, id);
    forall i | 0 <= i < |s.runs| && s.runs[i].id == id ensures RunsOf(s.runs, id) != [] { RunsOfAt(s.runs, i); }
  }

  /** A side about to send always finds room, and each channel of a slot is sent to at most once. */
  lemma SendsNeverBlock(steps: seq<Step>, id: Id)
    requires Feasible(INITIAL, steps)
    ensures var s := Execute(INITIAL, steps);
      (HttpAt(s, id, Reporting) || HttpAt(s, id, Disconnected) ==> Enabled(s, HttpSend(id))) &&
      (GrpcAt(s, id, Delivering) ==> Enabled(s, GrpcSend(id))) &&
      forall slot <- s.slots :: slot.arrivals <= 1 && slot.results <= 1
  {
    var s := Execute(INITIAL, steps);
    Reached(steps);
    assert IdInv(s, id);
    if id in s.http { assert SlotInv(s, s.http[id].slot); }
    if id in s.grpc { assert SlotInv(s, s.grpc[id].slot); }
    forall sl: SlotId | sl < |s.slots| ensures s.slots[sl].arrivals <= 1 && s.slots[sl].results <= 1 {
      assert SlotInv(s, sl);
    }
  }

  /** Once a side has left its first wait, it can always go on until it returns. */
  lemma SidesAlwaysReturn(steps: seq<Step>, id: Id)
    requires Feasible(INITIAL, steps)
    ensures var s := Execute(INITIAL, steps);
      (id in s.http && !s.http[id].pc.Running? && !s.http[id].pc.Gone? ==>
         Enabled(s, HttpTimeout(id)) || Enabled(s, HttpSend(id)) || Enabled(s, HttpDelete(id))) &&
      (id in s.http && s.http[id].pc.Running? ==> forall status, context ::
        Enabled(s, HttpFinish(id, status, context))) &&
      (id in s.grpc && !s.grpc[id].pc.Back? ==>
         Enabled(s, GrpcSend(id)) || Enabled(s, GrpcTimeout(id)) || Enabled(s, GrpcDelete(id)))
  {
    Reached(steps);
    SendsNeverBlock(steps, id);
    assert IdInv(Execute(INITIAL, steps), id);
  }

  /** Own steps that take a side home; a running handler ends as the last two arguments say. */
  function HttpHome(id: Id, pc: HttpPc, status: Status, context: nat): seq<Step> {
    match pc
    case Waiting => [HttpTimeout(id), HttpDelete(id)]
    case Running => [HttpFinish(id, status, context), HttpSend(id), HttpDelete(id)]
    case Reporting => [HttpSend(id), HttpDelete(id)]
    case Disconnected => [HttpSend(id), HttpDelete(id)]
    case Sent => [HttpDelete(id)]
    case TimedOut => [HttpDelete(id)]
    case Gone => []
  }

  function GrpcHome(id: Id, pc: GrpcPc): seq<Step> {
    match pc
    case Delivering => [GrpcSend(id), GrpcTimeout(id), GrpcDelete(id)]
    case Awaiting => [GrpcTimeout(id), GrpcDelete(id)]
    case Expired => [GrpcDelete(id)]
    case Back(_) => []
  }

  lemma HttpStepHome(s: State, id: Id, status: Status, context: nat)
    requires Inv(s) && id in s.http && !s.http[id].pc.Gone?
    ensures var steps := HttpHome(id, s.http[id].pc, status, context);
      Enabled(s, steps[0]) &&
      var t := Perform(s, steps[0]);
      id in t.http && HttpHome(id, t.http[id].pc, status, context) == steps[1..]
  {
    assert IdInv(s, id) && SlotInv(s, s.http[id].slot);
    match s.http[id].pc
    case Waiting =>
    case Running =>
    case Reporting =>
    case Disconnected =>
    case Sent =>
    case TimedOut =>
  }

  lemma GrpcStepHome(s: State, id: Id)
    requires Inv(s) && id in s.grpc && !s.grpc[id].pc.Back?
    ensures var steps := GrpcHome(id, s.grpc[id].pc);
      Enabled(s, steps[0]) &&
      var t := Perform(s, steps[0]);
      id in t.grpc && GrpcHome(id, t.grpc[id].pc) == steps[1..]
  {
    assert IdInv(s, id) && SlotInv(s, s.grpc[id].slot);
    match s.grpc[id].pc
    case Delivering =>
    case Awaiting =>
    case Expired =>
  }

  lemma {:induction false} HttpGoesHome(s: State, id: Id, status: Status, context: nat)
    requires Inv(s) && id in s.http
    ensures var steps := HttpHome(id, s.http[id].pc, status, context);
      Feasible(s, steps) && id in Execute(s, steps).http && Execute(s, steps).http[id].pc.Gone?
    decreases |HttpHome(id, s.http[id].pc, status, context)|
  {
    if !s.http[id].pc.Gone? {
      var steps := HttpHome(id, s.http[id].pc, status, context);
      HttpStepHome(s, id, status, context);
      StepKeeps(s, steps[0]);
      HttpGoesHome(Perform(s, steps[0]), id, status, context);
    }
  }

  lemma {:induction false} GrpcGoesHome(s: State, id: Id)
    requires Inv(s) && id in s.grpc
    ensures var steps := GrpcHome(id, s.grpc[id].pc);
      Feasible(s, steps) && id in Execute(s, steps).grpc && Execute(s, steps).grpc[id].pc.Back?
    decreases |GrpcHome(id, s.grpc[id].pc)|
  {
    if !s.grpc[id].pc.Back? {
      var steps := GrpcHome(id, s.grpc[id].pc);
      GrpcStepHome(s, id);
      StepKeeps(s, steps[0]);
      GrpcGoesHome(Perform(s, steps[0]), id);
    }
  }

  /** From every reachable state a side returns by at most three steps of its own, whatever the other
      side does not do. */
  lemma SidesReturnAlone(steps: seq<Step>, id: Id, status: Status, context: nat)
    requires Feasible(INITIAL, steps)
    ensures var s := Execute(INITIAL, steps);
      (id in s.http ==>
         var home := HttpHome(id, s.http[id].pc, status, context);
         |home| <= 3 && Feasible(s, home) && id in Execute(s, home).http && Execute(s, home).http[id].pc.Gone?) &&
      (id in s.grpc ==>
         var home := GrpcHome(id, s.grpc[id].pc);
         |home| <= 3 && Feasible(s, home) && id in Execute(s, home).grpc && Execute(s, home).grpc[id].pc.Back?)
  {
    var s := Execute(INITIAL, steps);
    Reached(steps);
    if id in s.http { HttpGoesHome(s, id, status, context); }
    if id in s.grpc { GrpcGoesHome(s, id); }
  }

  /** A delete finds the deleter's own slot, or nothing. */
  lemma DeletesOwnSlotOnly(steps: seq<Step>, id: Id)
    requires Feasible(INITIAL, steps) && id in Execute(INITIAL, steps).pending
    ensures var s := Execute(INITIAL, steps);
      (Enabled(s, HttpDelete(id)) ==> s.pending[id] == s.http[id].slot) &&
      (Enabled(s, GrpcDelete(id)) ==> s.pending[id] == s.grpc[id].slot)
  {
    Reached(steps);
    assert IdInv(Execute(INITIAL, steps), id);
  }

  /** When no side of an id is under way, nothing of it is left in the map. */
  lemma NothingLeftBehind(steps: seq<Step>, id: Id)
    requires Feasible(INITIAL, steps)
    ensures var s := Execute(INITIAL, steps);
      id in s.pending ==> (id in s.http && !s.http[id].pc.Gone?) || (id in s.grpc && !s.grpc[id].pc.Back?)
  {
    Reached(steps);
    assert IdInv(Execute(INITIAL, steps), id);
  }

  // ----- A gRPC arrival after the client has left -----

  /** The HTTP side has left because of a disconnect, and the gRPC side is still to come. */
  predicate LeftAlone(s: State, id: Id) {
    id in s.http && s.http[id].sent == Some(DISCONNECTED) && id !in s.grpc
  }

  /** The late arrival finds the failure waiting exactly when the entry is still in the map. */
  lemma LateArrivalAnswered(steps: seq<Step>, id: Id, arrival: Arrival)
    requires Feasible(INITIAL, steps) && LeftAlone(Execute(INITIAL, steps), id)
    ensures var s := Execute(INITIAL, steps);
      Enabled(s, GrpcEnter(id, arrival)) &&
      var t := Perform(s, GrpcEnter(id, arrival));
      Enabled(t, GrpcSend(id)) &&
      (Enabled(Perform(t, GrpcSend(id)), GrpcReceive(id)) <==> id in s.pending)
  {
    var s := Execute(INITIAL, steps);
    Reached(steps);
    assert IdInv(s, id);
    StepKeeps(s, GrpcEnter(id, arrival));
    var t := Perform(s, GrpcEnter(id, arrival));
    assert IdInv(t, id);
    assert SlotInv(t, t.grpc[id].slot);
    assert SlotInv(s, s.http[id].slot);
  }

  /** Between the disconnect and the push of the failure the entry is still there,
      so an arrival shares the slot and is answered. */
  lemma EarlyArrivalAnswered(steps: seq<Step>, id: Id, arrival: Arrival)
    requires Feasible(INITIAL, steps)
    requires var s := Execute(INITIAL, steps); id in s.http && s.http[id].pc.Disconnected? && id !in s.grpc
    ensures var s := Execute(INITIAL, steps);
      id in s.pending && Enabled(s, GrpcEnter(id, arrival)) &&
      var t := Perform(s, GrpcEnter(id, arrival));
      t.grpc[id].slot == s.http[id].slot && Enabled(t, HttpSend(id)) && Enabled(t, GrpcSend(id)) &&
      Enabled(Perform(t, HttpSend(id)), GrpcSend(id)) &&
      Enabled(Perform(Perform(t, HttpSend(id)), GrpcSend(id)), GrpcReceive(id))
  {
    var s := Execute(INITIAL, steps);
    Reached(steps);
    assert IdInv(s, id);
    assert SlotInv(s, s.http[id].slot);
  }

  /** Both sides have a slot of their own, so nothing will ever reach the gRPC side. */
  predicate Apart(s: State, id: Id) {
    id in s.http && id in s.grpc && s.http[id].slot != s.grpc[id].slot
  }

  lemma {:induction false} ApartForever(s: State, steps: seq<Step>, id: Id)
    requires Inv(s) && Apart(s, id) && Feasible(s, steps)
    ensures Apart(Execute(s, steps), id)
    decreases |steps|
  {
    if steps == [] {
    } else {
      StepKeeps(s, steps[0]);
      assert IdInv(s, id);
      if steps[0].id != id { StepFrame(s, steps[0], id); }
      ApartForever(Perform(s, steps[0]), steps[1..], id);
    }
  }

  lemma ApartTimesOut(s: State, steps: seq<Step>, id: Id)
    requires Inv(s) && Apart(s, id) && Feasible(s, steps)
    ensures var g := Execute(s, steps).grpc; id in g && (g[id].pc.Back? ==> g[id].pc == Back(TimeoutError))
  {
    ApartForever(s, steps, id);
    RunKeeps(s, steps);
    assert IdInv(Execute(s, steps), id);
  }

  /** Once the entry is gone, a late arrival can only time out, however the run goes on. */
  lemma LateArrivalTimesOut(steps: seq<Step>, id: Id, arrival: Arrival, more: seq<Step>)
    requires Feasible(INITIAL, steps)
    requires var s := Execute(INITIAL, steps);
      LeftAlone(s, id) && id !in s.pending && Feasible(s, [GrpcEnter(id, arrival)] + more)
    ensures var g := Execute(Execute(INITIAL, steps), [GrpcEnter(id, arrival)] + more).grpc;
      id in g && (g[id].pc.Back? ==> g[id].pc == Back(TimeoutError))
  {
    var s := Execute(INITIAL, steps);
    Reached(steps);
    assert IdInv(s, id);
    var t := Perform(s, GrpcEnter(id, arrival));
    StepKeeps(s, GrpcEnter(id, arrival));
    assert ([GrpcEnter(id, arrival)] + more)[1..] == more;
    ApartTimesOut(t, more, id);
  }

  /** Such a run exists: the client disconnects, the failure is pushed, the entry goes, and then gRPC arrives. */
  lemma LateArrivalExists(id: Id)
    requires id != ""
    ensures var steps := [HttpEnter(id), HttpDisconnect(id), HttpSend(id), HttpDelete(id)];
      Feasible(INITIAL, steps) && LeftAlone(Execute(INITIAL, steps), id) && id !in Execute(INITIAL, steps).pending
  {
    var s1 := Perform(INITIAL, HttpEnter(id));
    var s2 := Perform(s1, HttpDisconnect(id));
    var s3 := Perform(s2, HttpSend(id));
    Prepend(s3, HttpDelete(id), []);
    Prepend(s2, HttpSend(id), [HttpDelete(id)]);
    Prepend(s1, HttpDisconnect(id), [HttpSend(id), HttpDelete(id)]);
    Prepend(INITIAL, HttpEnter(id), [HttpDisconnect(id), HttpSend(id), HttpDelete(id)]);
  }
}
