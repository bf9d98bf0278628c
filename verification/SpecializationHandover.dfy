/**
 What specialization hands over in every run: the saved init request to the child, the answers of
 the placeholder and the replies of the child to the host.
 */
module SpecializationHandover {
  import opened Bytes
  import opened Collections
  import opened SpecializationProxy

  // ----- The saved init request -----

  /** The last init request that was handled as placeholder. */
  function LastInit(routes: seq<Route>): Option<HostMessage> {
    if routes == [] then None
    else
      var last := routes[|routes| - 1];
      if last.AsPlaceholder? && last.message.kind.InitRequest? then Some(last.message)
      else LastInit(routes[..|routes| - 1])
  }

  predicate IsInit(route: Route) {
    route.AsPlaceholder? && route.message.kind.InitRequest?
  }

  lemma {:induction false} LastInitAt(routes: seq<Route>)
    ensures match LastInit(routes)
      case None => forall i :: 0 <= i < |routes| ==> !IsInit(routes[i])
      case Some(m) =>
        exists k :: 0 <= k < |routes| && routes[k] == AsPlaceholder(m) && IsInit(routes[k]) &&
          forall i :: k < i < |routes| ==> !IsInit(routes[i])
  {
    if routes == [] {
    } else {
      var front := routes[..|routes| - 1];
      LastInitAt(front);
      assert forall i :: 0 <= i < |front| ==> routes[i] == front[i];
    }
  }

  lemma LastInitSnoc(routes: seq<Route>, route: Route)
    ensures LastInit(routes + [route]) == if IsInit(route) then Some(route.message) else LastInit(routes)
  {
    assert (routes + [route])[..|routes|] == routes;
  }

  lemma SpecFrame(s: State, step: SpecStep)
    requires SpecEnabled(s, step)
    ensures var t := SpecPerform(s, step);
      t.savedInit == s.savedInit && t.routes == s.routes && t.exited == s.exited &&
      t.child == if step.Replay? then s.child + [Replayed(s.savedInit)] else s.child
  {
    match step
    case Check(_) =>
    case AnswerAlone =>
    case SignalNoChild =>
    case ClearFlag =>
    case SeeConnected =>
    case Replay =>
    case SeeInitDone =>
    case Fetch =>
    case Respond =>
  }

  lemma ChildFrame(s: State, step: ChildStep)
    requires ChildEnabled(s, step)
    ensures var t := ChildPerform(s, step);
      t.savedInit == s.savedInit && t.routes == s.routes && t.exited == s.exited &&
      t.child ==
        if step.Response? && step.response.InitResponse? then s.child + [Announced(step.response.announced)]
        else s.child
  {
    match step
    case Connect =>
    case SignalConnected =>
    case Response(StartStream) =>
    case Response(InitResponse(_)) =>
    case Response(Reply(_)) =>
    case SignalInitDone =>
    case Fail =>
  }

  predicate InitInv(savedInit: Option<HostMessage>, routes: seq<Route>, child: seq<ChildEvent>) {
    savedInit == LastInit(routes) && forall saved <- Replays(child) :: saved == savedInit
  }

  lemma ForwardKeepsInit(s: State, parked: bool, delivered: bool)
    requires InitInv(s.savedInit, s.routes, s.child) && !s.host.Receiving?
    requires Orderly(s.child) && Follows(s.child, Forwarded(s.host.message, parked, delivered))
    ensures var t := Forward(s, s.host.message, parked, delivered); InitInv(t.savedInit, t.routes, t.child)
  {
    LastInitSnoc(s.routes, ToChild(s.host.message));
    ChildExtended(s.child, Forwarded(s.host.message, parked, delivered));
  }

  lemma HandleKeepsInit(s: State, m: HostMessage)
    requires InitInv(s.savedInit, s.routes, s.child) && Replays(s.child) == []
    ensures var t := Handle(s, m); InitInv(t.savedInit, t.routes, t.child)
  {
    LastInitSnoc(s.routes, AsPlaceholder(m));
  }

  lemma HostKeepsInit(s: State, step: HostStep)
    requires HostEnabled(s, step) && Inv(s) && InitInv(s.savedInit, s.routes, s.child)
    ensures var t := HostPerform(s, step); InitInv(t.savedInit, t.routes, t.child)
  {
    match step
    case Receive(_) =>
    case Snapshot =>
    case ForwardReady(delivered) => ForwardKeepsInit(s, false, delivered);
    case ForwardParked(delivered) => ForwardKeepsInit(s, true, delivered);
    case Resume => HandleKeepsInit(s, s.host.message);
    case HandleNow => HandleKeepsInit(s, s.host.message);
  }

  lemma SpecKeepsInit(s: State, step: SpecStep)
    requires SpecEnabled(s, step) && InitInv(s.savedInit, s.routes, s.child)
    requires ChildInv(s.child, s.spec, s.announced, s.stream)
    ensures var t := SpecPerform(s, step); InitInv(t.savedInit, t.routes, t.child)
  {
    SpecFrame(s, step);
    if step.Replay? { ChildExtended(s.child, Replayed(s.savedInit)); }
  }

  lemma ChildKeepsInit(s: State, step: ChildStep)
    requires ChildEnabled(s, step) && InitInv(s.savedInit, s.routes, s.child) && SpecInv(s)
    requires ChildInv(s.child, s.spec, s.announced, s.stream)
    ensures var t := ChildPerform(s, step); InitInv(t.savedInit, t.routes, t.child)
  {
    ChildFrame(s, step);
    if step.Response? && step.response.InitResponse? { ChildExtended(s.child, Announced(step.response.announced)); }
  }

  lemma StepKeepsInit(s: State, step: Step)
    requires Enabled(s, step) && Inv(s) && InitInv(s.savedInit, s.routes, s.child)
    ensures var t := Perform(s, step); InitInv(t.savedInit, t.routes, t.child)
  {
    match step
    case OfHost(h) => HostKeepsInit(s, h);
    case OfSpec(p) => SpecKeepsInit(s, p);
    case OfChild(c) => ChildKeepsInit(s, c);
    case Exit =>
  }

  lemma {:induction false} RunKeepsInit(s: State, steps: seq<Step>)
    requires Feasible(s, steps) && Inv(s) && InitInv(s.savedInit, s.routes, s.child)
    ensures var t := Execute(s, steps); Inv(t) && InitInv(t.savedInit, t.routes, t.child)
    decreases |steps|
  {
    if steps == [] {
    } else {
      StepKeeps(s, steps[0]);
      StepKeepsInit(s, steps[0]);
      RunKeepsInit(Perform(s, steps[0]), steps[1..]);
    }
  }

  lemma {:induction false} ReplayListed(child: seq<ChildEvent>, i: nat)
    requires i < |child| && child[i].Replayed?
    ensures child[i].saved in Replays(child)
  {
    if i < |child| - 1 { ReplayListed(child[..|child| - 1], i); }
  }

  /** The child is replayed the last init request that the placeholder answered, or nothing if there was none. */
  lemma ReplaysLastInit(steps: seq<Step>, i: nat)
    requires Feasible(INITIAL, steps)
    requires var child := Execute(INITIAL, steps).child; i < |child| && child[i].Replayed?
    ensures var s := Execute(INITIAL, steps);
      match s.child[i].saved {
        case None => forall k :: 0 <= k < |s.routes| ==> !IsInit(s.routes[k])
        case Some(m) =>
          exists k :: 0 <= k < |s.routes| && s.routes[k] == AsPlaceholder(m) && IsInit(s.routes[k]) &&
            forall j :: k < j < |s.routes| ==> !IsInit(s.routes[j])
      }
  {
    RunKeepsInit(INITIAL, steps);
    ReplayListed(Execute(INITIAL, steps).child, i);
    LastInitAt(Execute(INITIAL, steps).routes);
  }

  // ----- Specialization can finish -----

  /** The next step on the way to the end of specialization, if the child announces `caps`. */
  function StepHome(s: State, caps: Capabilities): Step {
    match s.spec
    case Checking => OfSpec(Check(Runnable))
    case Answering(_) => OfSpec(AnswerAlone)
    case Announcing(_) => OfSpec(SignalNoChild)
    case Clearing(_) => OfSpec(ClearFlag)
    case Connecting =>
      if !s.stream then OfChild(Connect)
      else if !s.childConnected then OfChild(SignalConnected)
      else OfSpec(SeeConnected)
    case Replaying => OfSpec(Replay)
    case AwaitingInit =>
      if s.childInitDone then OfSpec(SeeInitDone)
      else if s.loop.Closing? then OfChild(SignalInitDone)
      else OfChild(Response(InitResponse(caps)))
    case Fetching => OfSpec(Fetch)
    case Responding(_) => OfSpec(Respond)
    case _ => Exit
  }

  function StepsLeft(s: State): nat {
    match s.spec
    case Checking => 10
    case Connecting => 7 + (if s.stream then 0 else 1) + (if s.childConnected then 0 else 1)
    case Replaying => 6
    case AwaitingInit => if s.childInitDone then 3 else if s.loop.Closing? then 4 else 5
    case Fetching => 2
    case Responding(_) => 1
    case Answering(_) => 3
    case Announcing(_) => 2
    case Clearing(_) => 1
    case _ => 0
  }

  /** Specialization is under way, and the child's responses have not failed before the announcement. */
  predicate CanFinish(s: State) {
    !s.exited && !s.spec.Idle? && (s.loop.Over? ==> s.childInitDone)
  }

  lemma StepsHome(s: State, caps: Capabilities)
    requires Inv(s) && CanFinish(s) && StepsLeft(s) > 0
    ensures Enabled(s, StepHome(s, caps))
    ensures var t := Perform(s, StepHome(s, caps)); CanFinish(t) && StepsLeft(t) + 1 == StepsLeft(s)
  {
    match s.spec
    case Checking =>
    case Answering(_) =>
    case Announcing(_) =>
    case Clearing(_) =>
    case Connecting =>
    case Replaying =>
    case AwaitingInit =>
    case Fetching =>
    case Responding(_) =>
  }

  lemma {:induction false} GoesHome(s: State, caps: Capabilities) returns (steps: seq<Step>)
    requires Inv(s) && CanFinish(s)
    ensures Feasible(s, steps) && |steps| == StepsLeft(s) && Received(steps) == []
    ensures var t := Execute(s, steps); Inv(t) && !t.exited && (t.spec.DoneAlone? || t.spec.DoneWithChild?)
    decreases StepsLeft(s)
  {
    steps := [];
    if StepsLeft(s) > 0 {
      var step := StepHome(s, caps);
      StepsHome(s, caps);
      StepKeeps(s, step);
      var more := GoesHome(Perform(s, step), caps);
      Prepend(s, step, more);
      steps := [step] + more;
      assert steps[1..] == more;
    }
  }

  /**
   Specialization never gets stuck: from every reachable state after the reload request at most ten
   steps that need nothing of the host lead to its end, unless the child's responses fail before it
   announces itself; the reload request is answered by then.
   */
  lemma CanAlwaysFinish(steps: seq<Step>, caps: Capabilities) returns (more: seq<Step>)
    requires Feasible(INITIAL, steps) && CanFinish(Execute(INITIAL, steps))
    ensures var s := Execute(INITIAL, steps);
      Feasible(s, more) && |more| <= 10 && Received(more) == [] &&
      ReloadTally(Execute(s, more).toHost).count == 1
  {
    Reached(steps);
    more := GoesHome(Execute(INITIAL, steps), caps);
  }

  // ----- The end of the process -----

  predicate EndInv(routes: seq<Route>, exited: bool) {
    forall route <- routes :: route.AsPlaceholder? && route.message.kind.Terminate? ==> exited
  }

  lemma HostKeepsEnd(s: State, step: HostStep)
    requires HostEnabled(s, step) && EndInv(s.routes, s.exited)
    ensures var t := HostPerform(s, step); EndInv(t.routes, t.exited)
  {
    match step
    case Receive(_) =>
    case Snapshot =>
    case ForwardReady(_) =>
    case ForwardParked(_) =>
    case Resume =>
    case HandleNow =>
  }

  lemma StepKeepsEnd(s: State, step: Step)
    requires Enabled(s, step) && EndInv(s.routes, s.exited)
    ensures var t := Perform(s, step); EndInv(t.routes, t.exited)
  {
    match step
    case OfHost(h) => HostKeepsEnd(s, h);
    case OfSpec(p) => SpecFrame(s, p);
    case OfChild(c) => ChildFrame(s, c);
    case Exit =>
  }

  lemma {:induction false} RunKeepsEnd(s: State, steps: seq<Step>)
    requires Feasible(s, steps) && EndInv(s.routes, s.exited)
    ensures var t := Execute(s, steps); EndInv(t.routes, t.exited)
    decreases |steps|
  {
    if steps == [] {
    } else {
      StepKeepsEnd(s, steps[0]);
      RunKeepsEnd(Perform(s, steps[0]), steps[1..]);
    }
  }

  /** A terminate request handled as placeholder ends the process: nothing is done after it. */
  lemma TerminateEnds(steps: seq<Step>, message: HostMessage, step: Step)
    requires Feasible(INITIAL, steps)
    requires AsPlaceholder(message) in Execute(INITIAL, steps).routes && message.kind.Terminate?
    ensures !Enabled(Execute(INITIAL, steps), step)
  {
    RunKeepsEnd(INITIAL, steps);
  }

  // ----- Answers of the placeholder -----

  /** The request that an answer of the placeholder is for. */
  function Question(answer: ToHost): HostMessage
    requires !answer.ReloadAnswer? && !answer.FromChild?
  {
    HostMessage(answer.requestId,
      match answer {
        case InitAnswer(_) => InitRequest
        case HeartbeatAnswer(_) => Heartbeat
        case MetadataAnswer(_) => MetadataRequest
        case StatusAnswer(_) => StatusRequest
      })
  }

  lemma {:induction false} GivenListed(toHost: seq<ToHost>, answer: ToHost)
    requires !answer.ReloadAnswer? && !answer.FromChild?
    ensures answer in toHost <==> answer in AnswersGiven(toHost)
  {
    if toHost == [] {
    } else {
      var front, last := toHost[..|toHost| - 1], toHost[|toHost| - 1];
      assert toHost == front + [last];
      GivenListed(front, answer);
    }
  }

  lemma AnswersQuestion(m: HostMessage, answer: ToHost)
    requires !answer.ReloadAnswer? && !answer.FromChild?
    ensures answer in PlaceholderAnswer(m) <==> m == Question(answer)
  {
  }

  lemma {:induction false} DueListed(routes: seq<Route>, answer: ToHost)
    requires !answer.ReloadAnswer? && !answer.FromChild?
    ensures AsPlaceholder(Question(answer)) in routes <==> answer in AnswersDue(routes)
  {
    if routes == [] {
    } else {
      var front, last := routes[..|routes| - 1], routes[|routes| - 1];
      assert routes == front + [last];
      DueListed(front, answer);
      AnswersQuestion(last.message, answer);
    }
  }

  /** The host is given an answer exactly if its request went to the placeholder. */
  lemma AnsweredExactly(steps: seq<Step>, answer: ToHost)
    requires Feasible(INITIAL, steps) && !answer.ReloadAnswer? && !answer.FromChild?
    ensures var s := Execute(INITIAL, steps); answer in s.toHost <==> AsPlaceholder(Question(answer)) in s.routes
  {
    EachMessageRoutedOnce(steps);
    GivenListed(Execute(INITIAL, steps).toHost, answer);
    DueListed(Execute(INITIAL, steps).routes, answer);
  }

  // ----- What the child says -----

  /** What the child told the host, and what it announced, in a run. */
  function RepliesBy(step: Step): seq<nat> {
    if step.OfChild? && step.child.Response? && step.child.response.Reply? then [step.child.response.content] else []
  }

  function Replies(steps: seq<Step>): seq<nat> {
    if steps == [] then [] else RepliesBy(steps[0]) + Replies(steps[1..])
  }

  function AnnouncedBy(step: Step): seq<Capabilities> {
    if step.OfChild? && step.child.Response? && step.child.response.InitResponse? then [step.child.response.announced]
    else []
  }

  function AllAnnounced(steps: seq<Step>): seq<Capabilities> {
    if steps == [] then [] else AnnouncedBy(steps[0]) + AllAnnounced(steps[1..])
  }

  /** The replies of the child that the host was handed. */
  function PassedOn(toHost: seq<ToHost>): seq<nat> {
    if toHost == [] then []
    else
      var last := toHost[|toHost| - 1];
      PassedOn(toHost[..|toHost| - 1]) + if last.FromChild? then [last.content] else []
  }

  lemma PassedSnoc(toHost: seq<ToHost>, answer: ToHost)
    ensures PassedOn(toHost + [answer]) ==
            if answer.FromChild? then PassedOn(toHost) + [answer.content] else PassedOn(toHost)
  {
    assert (toHost + [answer])[..|toHost|] == toHost;
  }

  lemma PlaceholderPasses(toHost: seq<ToHost>, m: HostMessage)
    ensures PassedOn(toHost + PlaceholderAnswer(m)) == PassedOn(toHost)
  {
    if PlaceholderAnswer(m) == [] {
      assert toHost + PlaceholderAnswer(m) == toHost;
    } else {
      PassedSnoc(toHost, PlaceholderAnswer(m)[0]);
    }
  }

  lemma HostPassesOn(s: State, step: HostStep)
    requires HostEnabled(s, step)
    ensures PassedOn(HostPerform(s, step).toHost) == PassedOn(s.toHost)
  {
    match step
    case Receive(_) =>
    case Snapshot =>
    case ForwardReady(_) =>
    case ForwardParked(_) =>
    case Resume => PlaceholderPasses(s.toHost, s.host.message);
    case HandleNow => PlaceholderPasses(s.toHost, s.host.message);
  }

  lemma SpecPassesOn(s: State, step: SpecStep)
    requires SpecEnabled(s, step)
    ensures PassedOn(SpecPerform(s, step).toHost) == PassedOn(s.toHost)
  {
    match step
    case Check(_) =>
    case AnswerAlone => PassedSnoc(s.toHost, ReloadAnswer(s.savedReload, s.spec.success, None));
    case SignalNoChild =>
    case ClearFlag =>
    case SeeConnected =>
    case Replay =>
    case SeeInitDone =>
    case Fetch =>
    case Respond => PassedSnoc(s.toHost, ReloadAnswer(s.savedReload, true, s.spec.announced));
  }

  lemma ReplyTold(s: State, content: nat)
    requires ChildEnabled(s, Response(Reply(content)))
    ensures ChildPerform(s, Response(Reply(content))).toHost == s.toHost + [FromChild(content)]
  {
  }

  lemma NothingTold(s: State, step: ChildStep)
    requires ChildEnabled(s, step) && !(step.Response? && step.response.Reply?)
    ensures ChildPerform(s, step).toHost == s.toHost && RepliesBy(OfChild(step)) == []
  {
    match step
    case Connect =>
    case SignalConnected =>
    case Response(StartStream) =>
    case Response(InitResponse(_)) =>
    case SignalInitDone =>
    case Fail =>
  }

  lemma ChildPassesOn(s: State, step: ChildStep)
    requires ChildEnabled(s, step)
    ensures PassedOn(ChildPerform(s, step).toHost) == PassedOn(s.toHost) + RepliesBy(OfChild(step))
  {
    if step.Response? && step.response.Reply? {
      ReplyTold(s, step.response.content);
      PassedSnoc(s.toHost, FromChild(step.response.content));
    } else {
      NothingTold(s, step);
    }
  }

  lemma StepPassesOn(s: State, step: Step)
    requires Enabled(s, step)
    ensures PassedOn(Perform(s, step).toHost) == PassedOn(s.toHost) + RepliesBy(step)
  {
    match step
    case OfHost(h) => HostPassesOn(s, h);
    case OfSpec(p) => SpecPassesOn(s, p);
    case OfChild(c) => ChildPassesOn(s, c);
    case Exit =>
  }

  /** Only the child's init response announces anything. */
  lemma AnnouncedStep(s: State, step: Step)
    requires Enabled(s, step) && Inv(s)
    ensures var a := AnnouncedBy(step);
      Perform(s, step).announced == (if a == [] then s.announced else Some(a[0])) && (a != [] ==> s.announced.None?)
  {
    match step
    case OfHost(_) =>
    case OfSpec(_) =>
    case OfChild(Connect) =>
    case OfChild(SignalConnected) =>
    case OfChild(Response(_)) =>
    case OfChild(SignalInitDone) =>
    case OfChild(Fail) =>
    case Exit =>
  }

  lemma StepAnnounces(s: State, step: Step)
    requires Enabled(s, step) && Inv(s)
    ensures Announcements(Perform(s, step).child) == Announcements(s.child) + AnnouncedBy(step)
  {
    StepKeeps(s, step);
    AnnouncedStep(s, step);
  }

  lemma {:induction false} RunHandsOn(s: State, steps: seq<Step>, replies: seq<nat>, announced: seq<Capabilities>)
    requires Feasible(s, steps) && Inv(s) && PassedOn(s.toHost) == replies && Announcements(s.child) == announced
    ensures var t := Execute(s, steps);
      PassedOn(t.toHost) == replies + Replies(steps) && Announcements(t.child) == announced + AllAnnounced(steps)
    decreases |steps|
  {
    if steps == [] {
    } else {
      StepKeeps(s, steps[0]);
      StepPassesOn(s, steps[0]);
      StepAnnounces(s, steps[0]);
      RunHandsOn(Perform(s, steps[0]), steps[1..], replies + RepliesBy(steps[0]), announced + AnnouncedBy(steps[0]));
      PlusAssociates(replies, RepliesBy(steps[0]), Replies(steps[1..]));
      PlusAssociates(announced, AnnouncedBy(steps[0]), AllAnnounced(steps[1..]));
    }
  }

  /** The host gets every reply of the child, in order, and what counts as announced is what the child announced. */
  lemma ChildHandedOn(steps: seq<Step>)
    requires Feasible(INITIAL, steps)
    ensures var s := Execute(INITIAL, steps);
      PassedOn(s.toHost) == Replies(steps) && Announcements(s.child) == AllAnnounced(steps)
  {
    RunHandsOn(INITIAL, steps, [], []);
    assert [] + Replies(steps) == Replies(steps) && [] + AllAnnounced(steps) == AllAnnounced(steps);
  }

  lemma StepStaysOver(s: State, step: Step)
    requires SpecInv(s) && s.loop.Over? && Enabled(s, step)
    ensures Perform(s, step).loop.Over? && RepliesBy(step) == [] && AnnouncedBy(step) == []
  {
    match step
    case OfHost(_) =>
    case OfSpec(_) =>
    case OfChild(Connect) =>
    case OfChild(SignalConnected) =>
    case Exit =>
  }

  lemma {:induction false} LoopStaysOver(s: State, steps: seq<Step>)
    requires Inv(s) && s.loop.Over? && Feasible(s, steps)
    ensures Replies(steps) == [] && AllAnnounced(steps) == []
    decreases |steps|
  {
    if steps == [] {
    } else {
      StepKeeps(s, steps[0]);
      StepStaysOver(s, steps[0]);
      LoopStaysOver(Perform(s, steps[0]), steps[1..]);
    }
  }

  /** Nothing of the child is handed on once receiving from it has failed, and nothing happens after an exit. */
  lemma FailureEnds(steps: seq<Step>, more: seq<Step>)
    requires Feasible(INITIAL, steps)
    ensures Feasible(Execute(INITIAL, steps), [OfChild(Fail)] + more) ==>
      Replies(more) == [] && AllAnnounced(more) == []
    ensures Feasible(Execute(INITIAL, steps), [Exit] + more) ==> more == []
  {
    var s := Execute(INITIAL, steps);
    Reached(steps);
    assert ([OfChild(Fail)] + more)[1..] == more && ([Exit] + more)[1..] == more;
    if Feasible(s, [Exit] + more) {
      assert Feasible(Perform(s, Exit), more);
    }
    if Feasible(s, [OfChild(Fail)] + more) {
      StepKeeps(s, OfChild(Fail));
      LoopStaysOver(Perform(s, OfChild(Fail)), more);
    }
  }
}
