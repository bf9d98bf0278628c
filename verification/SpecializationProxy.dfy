/**
 The placeholder proxy while it is specialized: the loop that reads from the host, the goroutine
 that specializes, the child's event stream and the loop that reads the child's responses.

 One `Step` is one atomic action of one of them. The host sends at most one environment reload
 request, a started child opens its event stream once and sends at most one init response. The
 process may exit at any time.
 */
module SpecializationProxy {
  import opened Bytes
  import opened Collections

  datatype Kind = InitRequest | Heartbeat | Reload | MetadataRequest | StatusRequest | Terminate | Other
  datatype HostMessage = HostMessage(requestId: nat, kind: Kind)

  datatype Capabilities = Capabilities(capabilities: nat, metadata: nat)
  datatype ChildMessage = StartStream | InitResponse(announced: Capabilities) | Reply(content: nat)

  /** What the host is told. A reload answer carries what the child announced, if a child was started. */
  datatype ToHost =
    | InitAnswer(requestId: nat)
    | HeartbeatAnswer(requestId: nat)
    | MetadataAnswer(requestId: nat)
    | StatusAnswer(requestId: nat)
    | ReloadAnswer(requestId: nat, success: bool, announced: Option<Capabilities>)
    | FromChild(content: nat)

  /** The conversation with the child, in the order seen by the proxy. A failed send is only logged. */
  datatype ChildEvent =
    | Replayed(saved: Option<HostMessage>)
    | Forwarded(message: HostMessage, parked: bool, delivered: bool)
    | Announced(announced: Capabilities)

  datatype Route = ToChild(message: HostMessage) | AsPlaceholder(message: HostMessage)

  datatype HostPc =
    | Receiving
    | Got(message: HostMessage)
    | Holding(message: HostMessage, ready: bool, specializing: bool)

  datatype Binary = Missing | NotExecutable | Runnable

  /** `success` is the status of the reload answer when no child is started. */
  datatype SpecPc =
    | Idle
    | Checking
    | Answering(success: bool)
    | Announcing(success: bool)
    | Clearing(success: bool)
    | DoneAlone(success: bool)
    | Connecting
    | Replaying
    | AwaitingInit
    | Fetching
    | Responding(announced: Option<Capabilities>)
    | DoneWithChild(announced: Option<Capabilities>)

  datatype LoopPc = NotStarted | Reading | Closing | Over

  /** `stream` is the child's stream; the three signals are one-shot channels. */
  datatype State = State(
    exited: bool,
    reloadReceived: bool,
    host: HostPc,
    spec: SpecPc,
    loop: LoopPc,
    savedInit: Option<HostMessage>,
    savedReload: nat,
    specializing: bool,
    stream: bool,
    childConnected: bool,
    childInitDone: bool,
    noChildMode: bool,
    announced: Option<Capabilities>,
    toHost: seq<ToHost>,
    child: seq<ChildEvent>,
    routes: seq<Route>)

  const INITIAL :=
    State(false, false, Receiving, Idle, NotStarted, None, 0, false, false, false, false, false, None, [], [], [])

  datatype HostStep =
    | Receive(message: HostMessage)
    | Snapshot
    | ForwardReady(delivered: bool)
    | ForwardParked(delivered: bool)
    | Resume
    | HandleNow

  datatype SpecStep =
    | Check(binary: Binary)
    | AnswerAlone
    | SignalNoChild
    | ClearFlag
    | SeeConnected
    | Replay
    | SeeInitDone
    | Fetch
    | Respond

  datatype ChildStep =
    | Connect
    | SignalConnected
    | Response(response: ChildMessage)
    | SignalInitDone
    | Fail

  datatype Step = OfHost(host: HostStep) | OfSpec(spec: SpecStep) | OfChild(child: ChildStep) | Exit

  // ----- Steps -----

  predicate ChildStarted(spec: SpecPc) {
    spec.Connecting? || spec.Replaying? || spec.AwaitingInit? ||
    spec.Fetching? || spec.Responding? || spec.DoneWithChild?
  }

  predicate HostEnabled(s: State, step: HostStep) {
    match step
    case Receive(m) => s.host.Receiving? && (m.kind.Reload? ==> !s.reloadReceived)
    case Snapshot => s.host.Got?
    case ForwardReady(_) => s.host.Holding? && s.host.ready
    case ForwardParked(_) => s.host.Holding? && !s.host.ready && s.host.specializing && s.childInitDone
    case Resume => s.host.Holding? && !s.host.ready && s.host.specializing && s.noChildMode
    case HandleNow => s.host.Holding? && !s.host.ready && !s.host.specializing
  }

  predicate SpecEnabled(s: State, step: SpecStep) {
    match step
    case Check(_) => s.spec.Checking?
    case AnswerAlone => s.spec.Answering?
    case SignalNoChild => s.spec.Announcing?
    case ClearFlag => s.spec.Clearing?
    case SeeConnected => s.spec.Connecting? && s.childConnected
    case Replay => s.spec.Replaying?
    case SeeInitDone => s.spec.AwaitingInit? && s.childInitDone
    case Fetch => s.spec.Fetching?
    case Respond => s.spec.Responding?
  }

  predicate ChildEnabled(s: State, step: ChildStep) {
    match step
    case Connect => ChildStarted(s.spec) && !s.stream
    case SignalConnected => s.stream && !s.childConnected
    case Response(r) => s.loop.Reading? && (r.InitResponse? ==> s.announced.None?)
    case SignalInitDone => s.loop.Closing?
    case Fail => s.loop.Reading?
  }

  predicate Enabled(s: State, step: Step) {
    !s.exited &&
    match step
    case OfHost(h) => HostEnabled(s, h)
    case OfSpec(p) => SpecEnabled(s, p)
    case OfChild(c) => ChildEnabled(s, c)
    case Exit => true
  }

  function Forward(s: State, m: HostMessage, parked: bool, delivered: bool): State {
    s.(host := Receiving, child := s.child + [Forwarded(m, parked, delivered)], routes := s.routes + [ToChild(m)])
  }

  /** What the host is told in place of the child, apart from the reload answer. */
  function PlaceholderAnswer(m: HostMessage): seq<ToHost> {
    match m.kind
    case InitRequest => [InitAnswer(m.requestId)]
    case Heartbeat => [HeartbeatAnswer(m.requestId)]
    case MetadataRequest => [MetadataAnswer(m.requestId)]
    case StatusRequest => [StatusAnswer(m.requestId)]
    case _ => []
  }

  /** What the placeholder does with a message of the host. */
  function Handle(s: State, m: HostMessage): State {
    s.(host := Receiving,
       routes := s.routes + [AsPlaceholder(m)],
       toHost := s.toHost + PlaceholderAnswer(m),
       savedInit := if m.kind.InitRequest? then Some(m) else s.savedInit,
       specializing := s.specializing || m.kind.Reload?,
       savedReload := if m.kind.Reload? then m.requestId else s.savedReload,
       spec := if m.kind.Reload? then Checking else s.spec,
       exited := s.exited || m.kind.Terminate?)
  }

  function HostPerform(s: State, step: HostStep): State
    requires HostEnabled(s, step)
  {
    match step
    case Receive(m) => s.(host := Got(m), reloadReceived := s.reloadReceived || m.kind.Reload?)
    case Snapshot => s.(host := Holding(s.host.message, s.stream, s.specializing))
    case ForwardReady(delivered) => Forward(s, s.host.message, false, delivered)
    case ForwardParked(delivered) => Forward(s, s.host.message, true, delivered)
    case Resume => Handle(s, s.host.message)
    case HandleNow => Handle(s, s.host.message)
  }

  function SpecPerform(s: State, step: SpecStep): State
    requires SpecEnabled(s, step)
  {
    match step
    case Check(binary) =>
      s.(spec := match binary {
           case Missing => Answering(true)
           case NotExecutable => Answering(false)
           case Runnable => Connecting
         })
    case AnswerAlone =>
      s.(spec := Announcing(s.spec.success), toHost := s.toHost + [ReloadAnswer(s.savedReload, s.spec.success, None)])
    case SignalNoChild => s.(spec := Clearing(s.spec.success), noChildMode := true)
    case ClearFlag => s.(spec := DoneAlone(s.spec.success), specializing := false)
    case SeeConnected => s.(spec := Replaying)
    case Replay => s.(spec := AwaitingInit, loop := Reading, child := s.child + [Replayed(s.savedInit)])
    case SeeInitDone => s.(spec := Fetching)
    case Fetch => s.(spec := Responding(s.announced))
    case Respond =>
      s.(spec := DoneWithChild(s.spec.announced),
         toHost := s.toHost + [ReloadAnswer(s.savedReload, true, s.spec.announced)])
  }

  function ChildPerform(s: State, step: ChildStep): State
    requires ChildEnabled(s, step)
  {
    match step
    case Connect => s.(stream := true)
    case SignalConnected => s.(childConnected := true)
    case Response(r) =>
      (match r
       case StartStream => s
       case InitResponse(announced) => s.(loop := Closing, announced := Some(announced),
          child := s.child + [Announced(announced)])
       case Reply(content) => s.(toHost := s.toHost + [FromChild(content)]))
    case SignalInitDone => s.(loop := Reading, childInitDone := true)
    case Fail => s.(loop := Over)
  }

  function Perform(s: State, step: Step): State
    requires Enabled(s, step)
  {
    match step
    case OfHost(h) => HostPerform(s, h)
    case OfSpec(p) => SpecPerform(s, p)
    case OfChild(c) => ChildPerform(s, c)
    case Exit => s.(exited := true)
  }

  /** Every step of the list is enabled when its turn comes. */
  predicate Feasible(s: State, steps: seq<Step>)
    decreases |steps|
  {
    steps == [] || (Enabled(s, steps[0]) && Feasible(Perform(s, steps[0]), steps[1..]))
  }

  function Execute(s: State, steps: seq<Step>): State
    requires Feasible(s, steps)
    decreases |steps|
  {
    if steps == [] then s else Execute(Perform(s, steps[0]), steps[1..])
  }

  /** One step more at the front of a run. */
  lemma Prepend(s: State, step: Step, steps: seq<Step>)
    requires Enabled(s, step) && Feasible(Perform(s, step), steps)
    ensures Feasible(s, [step] + steps) && Execute(s, [step] + steps) == Execute(Perform(s, step), steps)
  {
    assert ([step] + steps)[1..] == steps;
  }

  // ----- Routing -----

  function ReceivedBy(step: Step): seq<HostMessage> {
    if step.OfHost? && step.host.Receive? then [step.host.message] else []
  }

  /** The messages the host sent in a run. */
  function Received(steps: seq<Step>): seq<HostMessage> {
    if steps == [] then []
    else ReceivedBy(steps[0]) + Received(steps[1..])
  }

  function Messages(routes: seq<Route>): seq<HostMessage> {
    seq(|routes|, i requires 0 <= i < |routes| => routes[i].message)
  }

  function InHand(host: HostPc): seq<HostMessage> {
    if host.Receiving? then [] else [host.message]
  }

  /** The messages of the host that were sent to the child, delivered or not. */
  function Forwards(child: seq<ChildEvent>): seq<HostMessage> {
    if child == [] then []
    else
      var last := child[|child| - 1];
      Forwards(child[..|child| - 1]) + if last.Forwarded? then [last.message] else []
  }

  function RoutedToChild(routes: seq<Route>): seq<HostMessage> {
    if routes == [] then []
    else
      var last := routes[|routes| - 1];
      RoutedToChild(routes[..|routes| - 1]) + if last.ToChild? then [last.message] else []
  }

  function AnswersDue(routes: seq<Route>): seq<ToHost> {
    if routes == [] then []
    else
      var last := routes[|routes| - 1];
      AnswersDue(routes[..|routes| - 1]) + if last.AsPlaceholder? then PlaceholderAnswer(last.message) else []
  }

  function AnswersGiven(toHost: seq<ToHost>): seq<ToHost> {
    if toHost == [] then []
    else
      var last := toHost[|toHost| - 1];
      AnswersGiven(toHost[..|toHost| - 1]) + if last.ReloadAnswer? || last.FromChild? then [] else [last]
  }

  /** How many reload answers the host was given, and the last of them. */
  datatype Tally = Tally(count: nat, last: Option<ToHost>)

  function ReloadTally(toHost: seq<ToHost>): Tally {
    if toHost == [] then Tally(0, None)
    else
      var last, earlier := toHost[|toHost| - 1], ReloadTally(toHost[..|toHost| - 1]);
      if last.ReloadAnswer? then Tally(earlier.count + 1, Some(last)) else earlier
  }

  predicate RoutingInv(s: State) {
    Forwards(s.child) == RoutedToChild(s.routes) && AnswersGiven(s.toHost) == AnswersDue(s.routes)
  }

  lemma RoutesSnoc(s: State, route: Route)
    ensures RoutedToChild(s.routes + [route]) ==
      RoutedToChild(s.routes) + (if route.ToChild? then [route.message] else [])
    ensures AnswersDue(s.routes + [route]) ==
      AnswersDue(s.routes) + (if route.AsPlaceholder? then PlaceholderAnswer(route.message) else [])
    ensures Messages(s.routes + [route]) == Messages(s.routes) + [route.message]
  {
    assert (s.routes + [route])[..|s.routes|] == s.routes;
  }

  lemma ChildSnoc(s: State, event: ChildEvent)
    ensures Forwards(s.child + [event]) == Forwards(s.child) + if event.Forwarded? then [event.message] else []
  {
    assert (s.child + [event])[..|s.child|] == s.child;
  }

  lemma AnswersSnoc(toHost: seq<ToHost>, answer: ToHost)
    ensures AnswersGiven(toHost + [answer]) ==
      AnswersGiven(toHost) + if answer.ReloadAnswer? || answer.FromChild? then [] else [answer]
  {
    assert (toHost + [answer])[..|toHost|] == toHost;
  }

  lemma ReloadSnoc(toHost: seq<ToHost>, answer: ToHost)
    ensures ReloadTally(toHost + [answer]) ==
            if answer.ReloadAnswer? then Tally(ReloadTally(toHost).count + 1, Some(answer)) else ReloadTally(toHost)
  {
    assert (toHost + [answer])[..|toHost|] == toHost;
  }

  lemma ForwardRoutes(s: State, m: HostMessage, parked: bool, delivered: bool)
    requires RoutingInv(s)
    ensures var t := Forward(s, m, parked, delivered); RoutingInv(t) && Messages(t.routes) == Messages(s.routes) + [m]
  {
    RoutesSnoc(s, ToChild(m));
    ChildSnoc(s, Forwarded(m, parked, delivered));
  }

  lemma AnswersGrow(toHost: seq<ToHost>, m: HostMessage)
    ensures AnswersGiven(toHost + PlaceholderAnswer(m)) == AnswersGiven(toHost) + PlaceholderAnswer(m)
    ensures ReloadTally(toHost + PlaceholderAnswer(m)) == ReloadTally(toHost)
  {
    if PlaceholderAnswer(m) == [] {
      assert toHost + PlaceholderAnswer(m) == toHost;
    } else {
      assert (toHost + PlaceholderAnswer(m))[..|toHost|] == toHost;
    }
  }

  lemma HandleRoutes(s: State, m: HostMessage)
    requires RoutingInv(s)
    ensures var t := Handle(s, m); RoutingInv(t) && Messages(t.routes) == Messages(s.routes) + [m]
  {
    RoutesSnoc(s, AsPlaceholder(m));
    AnswersGrow(s.toHost, m);
  }

  lemma HostRoutes(s: State, step: HostStep)
    requires HostEnabled(s, step) && RoutingInv(s)
    ensures var t := HostPerform(s, step);
      RoutingInv(t) && Messages(t.routes) + InHand(t.host) ==
        Messages(s.routes) + InHand(s.host) + ReceivedBy(OfHost(step))
  {
    match step
    case ForwardReady(delivered) => ForwardRoutes(s, s.host.message, false, delivered);
    case ForwardParked(delivered) => ForwardRoutes(s, s.host.message, true, delivered);
    case Resume => HandleRoutes(s, s.host.message);
    case HandleNow => HandleRoutes(s, s.host.message);
    case _ =>
  }

  lemma SpecRoutes(s: State, step: SpecStep)
    requires SpecEnabled(s, step) && RoutingInv(s)
    ensures var t := SpecPerform(s, step); RoutingInv(t) && t.routes == s.routes && t.host == s.host
  {
    match step
    case AnswerAlone => AnswersSnoc(s.toHost, ReloadAnswer(s.savedReload, s.spec.success, None));
    case Respond => AnswersSnoc(s.toHost, ReloadAnswer(s.savedReload, true, s.spec.announced));
    case Replay => ChildSnoc(s, Replayed(s.savedInit));
    case _ =>
  }

  lemma ChildRoutes(s: State, step: ChildStep)
    requires ChildEnabled(s, step) && RoutingInv(s)
    ensures var t := ChildPerform(s, step); RoutingInv(t) && t.routes == s.routes && t.host == s.host
  {
    match step
    case Response(InitResponse(announced)) => ChildSnoc(s, Announced(announced));
    case Response(Reply(content)) => AnswersSnoc(s.toHost, FromChild(content));
    case _ =>
  }

  lemma StepRoutes(s: State, step: Step)
    requires Enabled(s, step) && RoutingInv(s)
    ensures var t := Perform(s, step);
      RoutingInv(t) && Messages(t.routes) + InHand(t.host) == Messages(s.routes) + InHand(s.host) + ReceivedBy(step)
  {
    match step
    case OfHost(h) => HostRoutes(s, h);
    case OfSpec(p) => SpecRoutes(s, p);
    case OfChild(c) => ChildRoutes(s, c);
    case Exit =>
  }

  lemma {:induction false} RunRoutes(s: State, steps: seq<Step>, before: seq<HostMessage>)
    requires Feasible(s, steps) && RoutingInv(s) && Messages(s.routes) + InHand(s.host) == before
    ensures var t := Execute(s, steps); RoutingInv(t) && Messages(t.routes) + InHand(t.host) == before + Received(steps)
    decreases |steps|
  {
    if steps == [] {
    } else {
      StepRoutes(s, steps[0]);
      RunRoutes(Perform(s, steps[0]), steps[1..], before + ReceivedBy(steps[0]));
      PlusAssociates(before, ReceivedBy(steps[0]), Received(steps[1..]));
    }
  }

  /**
   Every message of the host goes, in the order received, exactly once either to the child or to
   the placeholder; the child gets just the former and the host is answered just for the latter.
   */
  lemma EachMessageRoutedOnce(steps: seq<Step>)
    requires Feasible(INITIAL, steps)
    ensures var s := Execute(INITIAL, steps);
      Messages(s.routes) + InHand(s.host) == Received(steps) &&
      Forwards(s.child) == RoutedToChild(s.routes) &&
      AnswersGiven(s.toHost) == AnswersDue(s.routes)
  {
    RunRoutes(INITIAL, steps, []);
    assert [] + Received(steps) == Received(steps);
  }

  // ----- The invariant -----

  function Announcements(child: seq<ChildEvent>): seq<Capabilities> {
    if child == [] then []
    else
      var last := child[|child| - 1];
      Announcements(child[..|child| - 1]) + if last.Announced? then [last.announced] else []
  }

  function Replays(child: seq<ChildEvent>): seq<Option<HostMessage>> {
    if child == [] then []
    else
      var last := child[|child| - 1];
      Replays(child[..|child| - 1]) + if last.Replayed? then [last.saved] else []
  }

  /** What must come before an event of the conversation. */
  predicate Follows(past: seq<ChildEvent>, event: ChildEvent) {
    match event
    case Replayed(_) => Replays(past) == []
    case Announced(_) => Replays(past) != [] && Announcements(past) == []
    case Forwarded(_, parked, _) => parked ==> Announcements(past) != []
  }

  predicate Orderly(child: seq<ChildEvent>) {
    child == [] || (Orderly(child[..|child| - 1]) && Follows(child[..|child| - 1], child[|child| - 1]))
  }

  predicate Replied(spec: SpecPc) {
    spec.AwaitingInit? || spec.Fetching? || spec.Responding? || spec.DoneWithChild?
  }

  predicate HostInv(s: State) {
    (s.specializing <==> !s.spec.Idle? && !s.spec.DoneAlone?) &&
    (!s.reloadReceived ==> s.spec.Idle?) &&
    (!s.host.Receiving? && s.host.message.kind.Reload? ==> s.spec.Idle? && s.reloadReceived) &&
    (s.host.Holding? && s.host.ready ==> s.stream) &&
    (s.host.Holding? && s.host.specializing ==> !s.spec.Idle?) &&
    (s.host.Holding? && !s.host.specializing ==> s.spec.Idle? || s.spec.DoneAlone?)
  }

  predicate SpecInv(s: State) {
    (s.stream ==> ChildStarted(s.spec)) &&
    (s.childConnected ==> s.stream) &&
    (ChildStarted(s.spec) && !s.spec.Connecting? ==> s.childConnected) &&
    (s.noChildMode <==> s.spec.Clearing? || s.spec.DoneAlone?) &&
    (s.childInitDone ==> s.announced.Some?) &&
    (s.announced.Some? ==> s.childInitDone || s.loop.Closing?) &&
    (s.loop.Closing? ==> s.announced.Some? && !s.childInitDone) &&
    (s.loop.NotStarted? <==> !Replied(s.spec)) &&
    (s.announced.Some? ==> Replied(s.spec)) &&
    (s.spec.Fetching? || s.spec.Responding? || s.spec.DoneWithChild? ==> s.childInitDone) &&
    (s.spec.Responding? || s.spec.DoneWithChild? ==> s.spec.announced == s.announced)
  }

  predicate ChildInv(child: seq<ChildEvent>, spec: SpecPc, announced: Option<Capabilities>, stream: bool) {
    Orderly(child) &&
    (Replays(child) != [] <==> Replied(spec)) &&
    Announcements(child) == (if announced.Some? then [announced.value] else []) &&
    (!stream ==> child == [])
  }

  /** The reload answer given so far, as the specializing goroutine stands. */
  function ReloadAnswerDue(spec: SpecPc, savedReload: nat): Option<ToHost> {
    match spec
    case Announcing(success) => Some(ReloadAnswer(savedReload, success, None))
    case Clearing(success) => Some(ReloadAnswer(savedReload, success, None))
    case DoneAlone(success) => Some(ReloadAnswer(savedReload, success, None))
    case DoneWithChild(announced) => Some(ReloadAnswer(savedReload, true, announced))
    case _ => None
  }

  predicate AnswerInv(tally: Tally, spec: SpecPc, savedReload: nat, routes: seq<Route>) {
    tally.last == ReloadAnswerDue(spec, savedReload) &&
    tally.count == (if tally.last.Some? then 1 else 0) &&
    (!spec.Idle? ==> AsPlaceholder(HostMessage(savedReload, Reload)) in routes)
  }

  predicate Inv(s: State) {
    HostInv(s) && SpecInv(s) && ChildInv(s.child, s.spec, s.announced, s.stream) &&
    AnswerInv(ReloadTally(s.toHost), s.spec, s.savedReload, s.routes)
  }

  lemma ChildExtended(child: seq<ChildEvent>, event: ChildEvent)
    requires Orderly(child) && Follows(child, event)
    ensures Orderly(child + [event])
    ensures Replays(child + [event]) == Replays(child) + if event.Replayed? then [event.saved] else []
    ensures Announcements(child + [event]) == Announcements(child) + if event.Announced? then [event.announced] else []
  {
    assert (child + [event])[..|child|] == child;
  }

  lemma HandleKeepsPlace(s: State, m: HostMessage)
    requires HostInv(s) && SpecInv(s) && !s.host.Receiving? && s.host.message == m
    ensures HostInv(Handle(s, m)) && SpecInv(Handle(s, m))
  {
  }

  lemma HandleKeeps(s: State, m: HostMessage)
    requires Inv(s) && !s.host.Receiving? && s.host.message == m
    ensures Inv(Handle(s, m))
  {
    HandleKeepsPlace(s, m);
    AnswersGrow(s.toHost, m);
    assert m.kind.Reload? ==> m == HostMessage(m.requestId, Reload);
    assert Handle(s, m).routes[|s.routes|] == AsPlaceholder(m);
  }

  lemma HostKeeps(s: State, step: HostStep)
    requires HostEnabled(s, step) && Inv(s)
    ensures Inv(HostPerform(s, step))
  {
    match step
    case ForwardReady(delivered) => ChildExtended(s.child, Forwarded(s.host.message, false, delivered));
    case ForwardParked(delivered) => ChildExtended(s.child, Forwarded(s.host.message, true, delivered));
    case Resume => HandleKeeps(s, s.host.message);
    case HandleNow => HandleKeeps(s, s.host.message);
    case _ =>
  }

  lemma SpecKeepsPlace(s: State, step: SpecStep)
    requires SpecEnabled(s, step) && HostInv(s) && SpecInv(s)
    ensures HostInv(SpecPerform(s, step)) && SpecInv(SpecPerform(s, step))
  {
    match step
    case Check(_) =>
    case AnswerAlone =>
    case SignalNoChild =>
    case ClearFlag =>
    case SeeConnected =>
    case Replay =>
    case SeeInitDone =>
    case Fetch =>
    case Respond =>
  }

  lemma SpecKeepsChild(s: State, step: SpecStep)
    requires SpecEnabled(s, step) && SpecInv(s) && ChildInv(s.child, s.spec, s.announced, s.stream)
    ensures var t := SpecPerform(s, step); ChildInv(t.child, t.spec, t.announced, t.stream)
  {
    match step
    case Check(_) =>
    case AnswerAlone =>
    case SignalNoChild =>
    case ClearFlag =>
    case SeeConnected =>
    case Replay => ChildExtended(s.child, Replayed(s.savedInit));
    case SeeInitDone =>
    case Fetch =>
    case Respond =>
  }

  lemma AnswerAloneKeeps(s: State)
    requires s.spec.Answering? && AnswerInv(ReloadTally(s.toHost), s.spec, s.savedReload, s.routes)
    ensures var t := SpecPerform(s, AnswerAlone); AnswerInv(ReloadTally(t.toHost), t.spec, t.savedReload, t.routes)
  {
    ReloadSnoc(s.toHost, ReloadAnswer(s.savedReload, s.spec.success, None));
  }

  lemma RespondKeeps(s: State)
    requires s.spec.Responding? && AnswerInv(ReloadTally(s.toHost), s.spec, s.savedReload, s.routes)
    ensures var t := SpecPerform(s, Respond); AnswerInv(ReloadTally(t.toHost), t.spec, t.savedReload, t.routes)
  {
    ReloadSnoc(s.toHost, ReloadAnswer(s.savedReload, true, s.spec.announced));
  }

  lemma SpecKeepsAnswers(s: State, step: SpecStep)
    requires SpecEnabled(s, step) && SpecInv(s)
    requires AnswerInv(ReloadTally(s.toHost), s.spec, s.savedReload, s.routes)
    ensures var t := SpecPerform(s, step); AnswerInv(ReloadTally(t.toHost), t.spec, t.savedReload, t.routes)
  {
    match step
    case Check(_) =>
    case AnswerAlone => AnswerAloneKeeps(s);
    case SignalNoChild =>
    case ClearFlag =>
    case SeeConnected =>
    case Replay =>
    case SeeInitDone =>
    case Fetch =>
    case Respond => RespondKeeps(s);
  }

  lemma ChildKeeps(s: State, step: ChildStep)
    requires ChildEnabled(s, step) && Inv(s)
    ensures Inv(ChildPerform(s, step))
  {
    match step
    case Response(InitResponse(announced)) => ChildExtended(s.child, Announced(announced));
    case Response(Reply(content)) => ReloadSnoc(s.toHost, FromChild(content));
    case _ =>
  }

  lemma StepKeeps(s: State, step: Step)
    requires Enabled(s, step) && Inv(s)
    ensures Inv(Perform(s, step))
  {
    match step
    case OfHost(h) => HostKeeps(s, h);
    case OfSpec(p) =>
      SpecKeepsPlace(s, p);
      SpecKeepsChild(s, p);
      SpecKeepsAnswers(s, p);
    case OfChild(c) => ChildKeeps(s, c);
    case Exit =>
  }

  lemma {:induction false} RunKeeps(s: State, steps: seq<Step>)
    requires Inv(s) && Feasible(s, steps)
    ensures Inv(Execute(s, steps))
    decreases |steps|
  {
    if steps == [] {
    } else {
      StepKeeps(s, steps[0]);
      RunKeeps(Perform(s, steps[0]), steps[1..]);
    }
  }

  /** Everything below speaks of the state after an arbitrary run. */
  lemma Reached(steps: seq<Step>)
    requires Feasible(INITIAL, steps)
    ensures Inv(Execute(INITIAL, steps))
  {
    RunKeeps(INITIAL, steps);
  }

  // ----- Signals -----

  /** At most one of the two outcomes is ever signalled, and no signal is given twice. */
  lemma SignalsExclusive(steps: seq<Step>)
    requires Feasible(INITIAL, steps)
    ensures var s := Execute(INITIAL, steps);
      !(s.childInitDone && s.noChildMode) &&
      (SpecEnabled(s, SignalNoChild) ==> !s.noChildMode) &&
      (ChildEnabled(s, SignalInitDone) ==> !s.childInitDone)
  {
    Reached(steps);
  }

  /** The host loop never sends on a missing stream, and once specialization is over a parked message can go on. */
  lemma HostLoopGoesOn(steps: seq<Step>)
    requires Feasible(INITIAL, steps)
    ensures var s := Execute(INITIAL, steps);
      (HostEnabled(s, ForwardReady(true)) || HostEnabled(s, ForwardParked(true)) ==> s.stream) &&
      (s.host.Holding? && (s.spec.DoneAlone? || s.spec.DoneWithChild?) ==>
         HostEnabled(s, ForwardReady(true)) || HostEnabled(s, ForwardParked(true)) ||
         HostEnabled(s, Resume) || HostEnabled(s, HandleNow))
  {
    Reached(steps);
  }

  /**
   Once the reload request has been handled, nothing the host sends is handled as a placeholder
   before specialization has found no child to start.
   */
  lemma HeldBackWhileSpecializing(steps: seq<Step>)
    requires Feasible(INITIAL, steps)
    requires var s := Execute(INITIAL, steps); !s.exited && s.host.Got? && !s.spec.Idle? && !s.noChildMode
    ensures var t := Perform(Execute(INITIAL, steps), OfHost(Snapshot));
      !HostEnabled(t, HandleNow) && !HostEnabled(t, Resume) && (t.host.ready <==> t.stream)
  {
    Reached(steps);
  }

  // ----- The reload answer -----

  lemma {:induction false} ReloadTallied(toHost: seq<ToHost>, i: nat)
    requires i < |toHost| && toHost[i].ReloadAnswer?
    ensures var tally := ReloadTally(toHost);
      tally.count >= 1 &&
      (tally.count == 1 ==> tally.last == Some(toHost[i])) &&
      (tally.count == 1 ==> forall k :: 0 <= k < |toHost| && k != i ==> !toHost[k].ReloadAnswer?)
  {
    var front := toHost[..|toHost| - 1];
    if i < |toHost| - 1 {
      ReloadTallied(front, i);
    } else if ReloadTally(toHost).count == 1 {
      forall k: nat | k < |front| && front[k].ReloadAnswer? ensures false { ReloadTallied(front, k); }
    }
  }

  /**
   The host is answered at most once, under the id of its own request, and the answer names a
   child's capabilities only if the child announced them; without a child, nothing was sent to one.
   */
  lemma OneReloadAnswer(steps: seq<Step>, i: nat)
    requires Feasible(INITIAL, steps)
    requires var toHost := Execute(INITIAL, steps).toHost; i < |toHost| && toHost[i].ReloadAnswer?
    ensures var s := Execute(INITIAL, steps);
      var answer := s.toHost[i];
      (forall k :: 0 <= k < |s.toHost| && k != i ==> !s.toHost[k].ReloadAnswer?) &&
      AsPlaceholder(HostMessage(answer.requestId, Reload)) in s.routes &&
      match answer.announced {
        case Some(announced) => answer.success && s.childInitDone && Announcements(s.child) == [announced]
        case None => s.child == []
      }
  {
    Reached(steps);
    ReloadTallied(Execute(INITIAL, steps).toHost, i);
  }

  /** How specialization can stand once the app's binary has been looked at. */
  predicate Decided(spec: SpecPc, binary: Binary) {
    match binary
    case Runnable => ChildStarted(spec)
    case _ =>
      (spec.Answering? || spec.Announcing? || spec.Clearing? || spec.DoneAlone?) && (spec.success <==> binary.Missing?)
  }

  lemma SpecKeepsDecided(s: State, step: SpecStep, binary: Binary)
    requires Decided(s.spec, binary) && SpecEnabled(s, step)
    ensures Decided(SpecPerform(s, step).spec, binary)
  {
    match step
    case Check(_) =>
    case AnswerAlone =>
    case SignalNoChild =>
    case ClearFlag =>
    case SeeConnected =>
    case Replay =>
    case SeeInitDone =>
    case Fetch =>
    case Respond =>
  }

  lemma DecidedKept(s: State, step: Step, binary: Binary)
    requires HostInv(s) && Decided(s.spec, binary) && Enabled(s, step)
    ensures Decided(Perform(s, step).spec, binary)
  {
    match step
    case OfHost(_) =>
    case OfSpec(p) => SpecKeepsDecided(s, p, binary);
    case OfChild(_) =>
    case Exit =>
  }

  lemma {:induction false} DecidedStays(s: State, steps: seq<Step>, binary: Binary)
    requires Inv(s) && Decided(s.spec, binary) && Feasible(s, steps)
    ensures var t := Execute(s, steps); Inv(t) && Decided(t.spec, binary)
    decreases |steps|
  {
    if steps == [] {
    } else {
      StepKeeps(s, steps[0]);
      DecidedKept(s, steps[0], binary);
      DecidedStays(Perform(s, steps[0]), steps[1..], binary);
    }
  }

  /** A missing binary is reported as success, a present but not executable one as failure, else the child speaks. */
  lemma BinaryDecidesAnswer(steps: seq<Step>, binary: Binary, more: seq<Step>, i: nat)
    requires Feasible(INITIAL, steps) && Feasible(Execute(INITIAL, steps), [OfSpec(Check(binary))] + more)
    requires var toHost := Execute(Execute(INITIAL, steps), [OfSpec(Check(binary))] + more).toHost;
      i < |toHost| && toHost[i].ReloadAnswer?
    ensures var answer := Execute(Execute(INITIAL, steps), [OfSpec(Check(binary))] + more).toHost[i];
      (answer.success <==> !binary.NotExecutable?) && (answer.announced.Some? <==> binary.Runnable?)
  {
    var s := Execute(INITIAL, steps);
    Reached(steps);
    assert ([OfSpec(Check(binary))] + more)[1..] == more;
    var t := Perform(s, OfSpec(Check(binary)));
    StepKeeps(s, OfSpec(Check(binary)));
    DecidedStays(t, more, binary);
    ReloadTallied(Execute(t, more).toHost, i);
  }

  // ----- Messages parked during specialization -----

  lemma {:induction false} OrderlyAt(child: seq<ChildEvent>, i: nat)
    requires Orderly(child) && i < |child|
    ensures Follows(child[..i], child[i])
  {
    var front := child[..|child| - 1];
    if i < |child| - 1 {
      OrderlyAt(front, i);
      assert front[..i] == child[..i];
    }
  }

  lemma {:induction false} AnnouncedAt(child: seq<ChildEvent>) returns (i: nat)
    requires Announcements(child) != []
    ensures i < |child| && child[i].Announced?
  {
    if child[|child| - 1].Announced? { i := |child| - 1; } else { i := AnnouncedAt(child[..|child| - 1]); }
  }

  lemma {:induction false} ReplayedAt(child: seq<ChildEvent>) returns (i: nat)
    requires Replays(child) != []
    ensures i < |child| && child[i].Replayed?
  {
    if child[|child| - 1].Replayed? { i := |child| - 1; } else { i := ReplayedAt(child[..|child| - 1]); }
  }

  /** A parked message reaches the child after its init response, which comes after the replayed init request. */
  lemma ParkedAfterInit(steps: seq<Step>, i: nat)
    requires Feasible(INITIAL, steps)
    requires var child := Execute(INITIAL, steps).child; i < |child| && child[i].Forwarded? && child[i].parked
    ensures var child := Execute(INITIAL, steps).child;
      exists k, j :: 0 <= k < j < i && child[k].Replayed? && child[j].Announced?
  {
    var child := Execute(INITIAL, steps).child;
    Reached(steps);
    OrderlyAt(child, i);
    var j := AnnouncedAt(child[..i]);
    OrderlyAt(child, j);
    var k := ReplayedAt(child[..j]);
    assert child[k].Replayed? && child[j].Announced?;
  }

  // ----- Messages that were not parked -----

  /** The message in the host loop's hand can reach the child before the child has been initialised. */
  ghost predicate CanOvertake(s: State)
    requires s.host.Holding?
  {
    exists steps :: Feasible(s, steps) && Received(steps) == [] &&
      Execute(s, steps).routes == s.routes + [ToChild(s.host.message)] &&
      Forwarded(s.host.message, false, true) in Execute(s, steps).child &&
      Announcements(Execute(s, steps).child) == []
  }

  predicate NotOvertaken(s: State, routes: seq<Route>, m: HostMessage) {
    match s.host
    case Receiving => s.routes == routes + [AsPlaceholder(m)] || s.announced.Some?
    case Got(_) => false
    case Holding(message, ready, _) => message == m && !ready && s.routes == routes
  }

  lemma NotOvertakenKept(s: State, step: Step, routes: seq<Route>, m: HostMessage)
    requires SpecInv(s) && NotOvertaken(s, routes, m) && Enabled(s, step) && ReceivedBy(step) == []
    ensures NotOvertaken(Perform(s, step), routes, m)
  {
    match step
    case OfHost(_) =>
    case OfSpec(_) =>
    case OfChild(_) =>
    case Exit =>
  }

  lemma {:induction false} NeverOvertakes(s: State, steps: seq<Step>, routes: seq<Route>, m: HostMessage)
    requires Inv(s) && NotOvertaken(s, routes, m) && Feasible(s, steps) && Received(steps) == []
    ensures var t := Execute(s, steps); Inv(t) && NotOvertaken(t, routes, m)
    decreases |steps|
  {
    if steps == [] {
    } else {
      StepKeeps(s, steps[0]);
      NotOvertakenKept(s, steps[0], routes, m);
      NeverOvertakes(Perform(s, steps[0]), steps[1..], routes, m);
    }
  }

  lemma OtherRoute(routes: seq<Route>, m: HostMessage)
    ensures routes + [ToChild(m)] != routes + [AsPlaceholder(m)]
  {
    assert (routes + [ToChild(m)])[|routes|] != (routes + [AsPlaceholder(m)])[|routes|];
  }

  /** It can exactly when the stream was already there at the snapshot, even while specializing. */
  lemma OvertakesExactly(steps: seq<Step>)
    requires Feasible(INITIAL, steps)
    requires var s := Execute(INITIAL, steps); s.host.Holding? && !s.exited && Announcements(s.child) == []
    ensures var s := Execute(INITIAL, steps); CanOvertake(s) <==> s.host.ready
  {
    var s := Execute(INITIAL, steps);
    Reached(steps);
    if s.host.ready {
      var step := OfHost(ForwardReady(true));
      Prepend(s, step, []);
      assert [step] + [] == [step] && [step][1..] == [];
      assert Received([step]) == [];
      ChildExtended(s.child, Forwarded(s.host.message, false, true));
      assert Feasible(s, [step]);
    } else if CanOvertake(s) {
      var more :| Feasible(s, more) && Received(more) == [] &&
        Execute(s, more).routes == s.routes + [ToChild(s.host.message)] && Announcements(Execute(s, more).child) == [];
      OtherRoute(s.routes, s.host.message);
      NeverOvertakes(s, more, s.routes, s.host.message);
    }
  }

  /** Such a run: the child connects, and a request received next is forwarded before the init request is replayed. */
  lemma OvertakingExists(reload: nat, request: HostMessage)
    requires !request.kind.Reload?
    ensures exists steps ::
      Feasible(INITIAL, steps) && Execute(INITIAL, steps).specializing &&
      Execute(INITIAL, steps).child == [Forwarded(request, false, true)]
  {
    var r := HostMessage(reload, Reload);
    var s1 := Perform(INITIAL, OfHost(Receive(r)));
    var s2 := Perform(s1, OfHost(Snapshot));
    var s3 := Perform(s2, OfHost(HandleNow));
    var s4 := Perform(s3, OfSpec(Check(Runnable)));
    var s5 := Perform(s4, OfChild(Connect));
    var s6 := Perform(s5, OfHost(Receive(request)));
    var s7 := Perform(s6, OfHost(Snapshot));
    Prepend(s7, OfHost(ForwardReady(true)), []);
    var e7 := [OfHost(ForwardReady(true))] + [];
    Prepend(s6, OfHost(Snapshot), e7);
    var e6 := [OfHost(Snapshot)] + e7;
    Prepend(s5, OfHost(Receive(request)), e6);
    var e5 := [OfHost(Receive(request))] + e6;
    Prepend(s4, OfChild(Connect), e5);
    var e4 := [OfChild(Connect)] + e5;
    Prepend(s3, OfSpec(Check(Runnable)), e4);
    var e3 := [OfSpec(Check(Runnable))] + e4;
    Prepend(s2, OfHost(HandleNow), e3);
    var e2 := [OfHost(HandleNow)] + e3;
    Prepend(s1, OfHost(Snapshot), e2);
    var e1 := [OfHost(Snapshot)] + e2;
    Prepend(INITIAL, OfHost(Receive(r)), e1);
    assert Feasible(INITIAL, [OfHost(Receive(r))] + e1);
  }
}
