/** One execution session and the calls that meet at its one-slot interaction channel
    (gulu/internal/executor/session_manager.go). Every action below is one lock section or one channel
    operation of some call; calls interleave freely. */
module SessionProtocol {

  datatype Status = Running | Completed | Failed | Stopped | Waiting
  datatype Response = Response(value: string, skipped: bool)
  datatype Option<T> = None | Some(value: T)

  /** Where a SubmitInteraction call stands. */
  datatype SubmitStage = Looking | Checking | Sending
  datatype Submit = Submit(stage: SubmitStage, response: Response)

  /** Where a WaitForInteraction call stands; `timed` says a timeout was given. */
  datatype WaitStage = Arming | Selecting | Leaving
  datatype Wait = Wait(stage: WaitStage, timed: bool)

  /** A response in the channel, with the submit call that sent it. */
  datatype Message = Message(call: int, response: Response)

  datatype State = State(
    status: Status,
    registered: bool,             // still in the manager's map
    closed: bool,                 // the channel
    slot: Option<Message>,
    hasCancel: bool,
    cancelled: bool,              // the context
    submits: map<int, Submit>,    // calls in progress
    waits: map<int, Wait>,
    stops: set<int>,              // StopSession calls that found the session
    used: set<int>)               // every call number ever handed out

  const INITIAL := State(Running, true, false, None, false, false, map[], map[], {}, {})

  datatype Action =
    | BeginSubmit(c: int, response: Response)
    | Lookup(c: int)
    | CheckStatus(c: int)
    | Send(c: int)
    | BeginWait(w: int, timed: bool)
    | Arm(w: int)
    | SelectDone(w: int)
    | SelectTimeout(w: int)
    | SelectReceive(w: int)
    | Leave(w: int)
    | StopLookup(t: int)
    | StopApply(t: int)
    | SetStatus(status: Status)
    | SetCancel
    | ContextEnds
    | Cleanup

  predicate SubmitAt(s: State, c: int, stage: SubmitStage) {
    c in s.submits && s.submits[c].stage == stage
  }

  predicate WaitAt(s: State, w: int, stage: WaitStage) {
    w in s.waits && s.waits[w].stage == stage
  }

  predicate Can(s: State, a: Action) {
    match a
    case BeginSubmit(c, _) => c !in s.used
    case Lookup(c) => SubmitAt(s, c, Looking)
    case CheckStatus(c) => SubmitAt(s, c, Checking)
    case Send(c) => SubmitAt(s, c, Sending)
    case BeginWait(w, _) => w !in s.used
    case Arm(w) => WaitAt(s, w, Arming)
    case SelectDone(w) => WaitAt(s, w, Selecting) && s.cancelled
    case SelectTimeout(w) => WaitAt(s, w, Selecting) && s.waits[w].timed
    case SelectReceive(w) => WaitAt(s, w, Selecting) && (s.slot.Some? || s.closed)
    case Leave(w) => WaitAt(s, w, Leaving)
    case StopLookup(t) => t !in s.used
    case StopApply(t) => t in s.stops
    case SetStatus(_) => true
    case SetCancel => true
    case ContextEnds => true
    case Cleanup => true
  }

  /** The non-blocking send succeeds: not closed (that would panic) and the slot is free. */
  predicate Accepts(s: State, a: Action) {
    a.Send? && SubmitAt(s, a.c, Sending) && !s.closed && s.slot.None?
  }

  /** A receive that yields a response rather than the closed channel's nil. */
  predicate Delivers(s: State, a: Action) {
    a.SelectReceive? && WaitAt(s, a.w, Selecting) && s.slot.Some?
  }

  function Do(s: State, a: Action): State
    requires Can(s, a)
  {
    match a
    case BeginSubmit(c, r) => s.(submits := s.submits[c := Submit(Looking, r)], used := s.used + {c})
    case Lookup(c) =>
      if s.registered then s.(submits := s.submits[c := s.submits[c].(stage := Checking)])
      else s.(submits := s.submits - {c})
    case CheckStatus(c) =>
      if s.status == Waiting then s.(submits := s.submits[c := s.submits[c].(stage := Sending)])
      else s.(submits := s.submits - {c})
    case Send(c) =>
      var slot := if Accepts(s, a) then Some(Message(c, s.submits[c].response)) else s.slot;
      s.(slot := slot, submits := s.submits - {c})
    case BeginWait(w, timed) => s.(waits := s.waits[w := Wait(Arming, timed)], used := s.used + {w})
    case Arm(w) => s.(status := Waiting, waits := s.waits[w := s.waits[w].(stage := Selecting)])
    case SelectDone(w) => s.(waits := s.waits[w := s.waits[w].(stage := Leaving)])
    case SelectTimeout(w) => s.(waits := s.waits[w := s.waits[w].(stage := Leaving)])
    case SelectReceive(w) => s.(slot := None, waits := s.waits[w := s.waits[w].(stage := Leaving)])
    case Leave(w) =>
      s.(status := if s.status == Waiting then Running else s.status, waits := s.waits - {w})
    case StopLookup(t) =>
      if s.registered then s.(stops := s.stops + {t}, used := s.used + {t}) else s.(used := s.used + {t})
    case StopApply(t) => s.(status := Stopped, cancelled := s.cancelled || s.hasCancel, stops := s.stops - {t})
    case SetStatus(status) => s.(status := status)
    case SetCancel => s.(hasCancel := true)
    case ContextEnds => s.(cancelled := true)
    case Cleanup => if s.registered then s.(closed := true, registered := false) else s
  }

  /** An action that is not possible in a state is not taken. */
  function Step(s: State, a: Action): State {
    if Can(s, a) then Do(s, a) else s
  }

  // ---------------------------------------------------------------- runs

  function Front(run: seq<Action>): seq<Action>
    requires run != []
  {
    run[..|run| - 1]
  }

  function Last(run: seq<Action>): Action
    requires run != []
  {
    run[|run| - 1]
  }

  ghost function After(s: State, run: seq<Action>): State {
    if run == [] then s else Step(After(s, Front(run)), Last(run))
  }

  datatype Delivery = Delivery(wait: int, message: Message)

  function AcceptedBy(s: State, a: Action): seq<Message> {
    if Accepts(s, a) then [Message(a.c, s.submits[a.c].response)] else []
  }

  function DeliveredBy(s: State, a: Action): seq<Delivery> {
    if Delivers(s, a) then [Delivery(a.w, s.slot.value)] else []
  }

  /** What SubmitInteraction reported as accepted, in order. */
  ghost function Accepted(s: State, run: seq<Action>): seq<Message> {
    if run == [] then [] else Accepted(s, Front(run)) + AcceptedBy(After(s, Front(run)), Last(run))
  }

  /** What WaitForInteraction returned to its callers from the channel, in order. */
  ghost function Delivered(s: State, run: seq<Action>): seq<Delivery> {
    if run == [] then [] else Delivered(s, Front(run)) + DeliveredBy(After(s, Front(run)), Last(run))
  }

  function Messages(d: seq<Delivery>): (m: seq<Message>)
    ensures |m| == |d|
    ensures forall i :: 0 <= i < |d| ==> m[i] == d[i].message
  {
    seq(|d|, i requires 0 <= i < |d| => d[i].message)
  }

  function Buffered(s: State): seq<Message> {
    if s.slot.Some? then [s.slot.value] else []
  }

  lemma StepConserves(s: State, a: Action)
    ensures Buffered(s) + AcceptedBy(s, a) == Messages(DeliveredBy(s, a)) + Buffered(Step(s, a))
  {
    if Accepts(s, a) {
      assert Step(s, a).slot == Some(Message(a.c, s.submits[a.c].response));
    } else if Delivers(s, a) {
      assert Step(s, a).slot == None;
    } else {
      assert Step(s, a).slot == s.slot;
    }
  }

  lemma Regroup(m: seq<Message>, b: seq<Message>, acc: seq<Message>, d: seq<Message>, b': seq<Message>)
    requires b + acc == d + b'
    ensures (m + b) + acc == (m + d) + b'
  {
    assert (m + b) + acc == m + (b + acc);
    assert (m + d) + b' == m + (d + b');
  }

  lemma MessagesAppend(d: seq<Delivery>, e: seq<Delivery>)
    ensures Messages(d + e) == Messages(d) + Messages(e)
  {
  }

  /** In every interleaving, what was accepted is exactly what was delivered, in the same order,
      followed by at most one response still in the channel. */
  lemma {:induction false} Conservation(run: seq<Action>)
    ensures Accepted(INITIAL, run) == Messages(Delivered(INITIAL, run)) + Buffered(After(INITIAL, run))
    decreases |run|
  {
    if run != [] {
      var t, a := After(INITIAL, Front(run)), Last(run);
      var d := Delivered(INITIAL, Front(run));
      Conservation(Front(run));
      MessagesAppend(d, DeliveredBy(t, a));
      StepConserves(t, a);
      Regroup(Messages(d), Buffered(t), AcceptedBy(t, a), Messages(DeliveredBy(t, a)), Buffered(Step(t, a)));
    }
  }

  /** Calls in progress have numbers that were handed out; the channel is closed exactly when the
      session has left the map, so it is never closed twice. */
  ghost predicate Inv(s: State) {
    && s.submits.Keys <= s.used && s.waits.Keys <= s.used && s.stops <= s.used
    && (s.closed <==> !s.registered)
  }

  lemma StepInv(s: State, a: Action)
    requires Inv(s)
    ensures Inv(Step(s, a)) && s.used <= Step(s, a).used
  {
  }

  lemma {:induction false} InvHolds(run: seq<Action>)
    ensures Inv(After(INITIAL, run))
    decreases |run|
  {
    if run != [] {
      InvHolds(Front(run));
      StepInv(After(INITIAL, Front(run)), Last(run));
    }
  }

  /** The submit call is finished. */
  ghost predicate SubmitOver(s: State, c: int) {
    c in s.used && c !in s.submits
  }

  /** The wait call is past its select. */
  ghost predicate SelectOver(s: State, w: int) {
    w in s.used && !WaitAt(s, w, Arming) && !WaitAt(s, w, Selecting)
  }

  lemma StepSubmitOver(s: State, a: Action, c: int)
    requires Inv(s)
    ensures SubmitOver(s, c) ==> SubmitOver(Step(s, a), c)
    ensures Accepts(s, a) ==> !SubmitOver(s, a.c) && SubmitOver(Step(s, a), a.c)
  {
  }

  lemma StepSelectOver(s: State, a: Action, w: int)
    requires Inv(s)
    ensures SelectOver(s, w) ==> SelectOver(Step(s, a), w)
    ensures Delivers(s, a) ==> !SelectOver(s, a.w) && SelectOver(Step(s, a), a.w)
  {
  }

  lemma {:induction false} AcceptedAreOver(run: seq<Action>, i: nat)
    requires i < |Accepted(INITIAL, run)|
    ensures SubmitOver(After(INITIAL, run), Accepted(INITIAL, run)[i].call)
    decreases |run|
  {
    var t, a := After(INITIAL, Front(run)), Last(run);
    InvHolds(Front(run));
    if i < |Accepted(INITIAL, Front(run))| { AcceptedAreOver(Front(run), i); }
    StepSubmitOver(t, a, Accepted(INITIAL, run)[i].call);
  }

  lemma {:induction false} DeliveredAreOver(run: seq<Action>, i: nat)
    requires i < |Delivered(INITIAL, run)|
    ensures SelectOver(After(INITIAL, run), Delivered(INITIAL, run)[i].wait)
    decreases |run|
  {
    var t, a := After(INITIAL, Front(run)), Last(run);
    InvHolds(Front(run));
    if i < |Delivered(INITIAL, Front(run))| { DeliveredAreOver(Front(run), i); }
    StepSelectOver(t, a, Delivered(INITIAL, run)[i].wait);
  }

  /** No submit call is accepted twice, so (by Conservation) no response is delivered twice ... */
  lemma {:induction false} AcceptedOnce(run: seq<Action>, i: nat, j: nat)
    requires i < j < |Accepted(INITIAL, run)|
    ensures Accepted(INITIAL, run)[i].call != Accepted(INITIAL, run)[j].call
    decreases |run|
  {
    if j < |Accepted(INITIAL, Front(run))| {
      AcceptedOnce(Front(run), i, j);
    } else {
      AcceptedAreOver(Front(run), i);
      InvHolds(Front(run));
      StepSubmitOver(After(INITIAL, Front(run)), Last(run), 0);
    }
  }

  lemma AcceptedIndex(run: seq<Action>, i: nat, j: nat)
    requires i < |Accepted(INITIAL, run)| && j < |Accepted(INITIAL, run)|
    requires Accepted(INITIAL, run)[i] == Accepted(INITIAL, run)[j]
    ensures i == j
  {
    if i != j {
      AcceptedOnce(run, if i < j then i else j, if i < j then j else i);
      assert false;
    }
  }

  lemma {:induction false} WaitReturnsOnce(run: seq<Action>, i: nat, j: nat)
    requires i < j < |Delivered(INITIAL, run)|
    ensures Delivered(INITIAL, run)[i].wait != Delivered(INITIAL, run)[j].wait
    decreases |run|
  {
    if j < |Delivered(INITIAL, Front(run))| {
      WaitReturnsOnce(Front(run), i, j);
    } else {
      DeliveredAreOver(Front(run), i);
      InvHolds(Front(run));
      StepSelectOver(After(INITIAL, Front(run)), Last(run), 0);
    }
  }

  /** Every delivered response was accepted, and is the one accepted at the same place of the order. */
  lemma DeliveredWasAccepted(run: seq<Action>, i: nat)
    requires i < |Delivered(INITIAL, run)|
    ensures i < |Accepted(INITIAL, run)| && Accepted(INITIAL, run)[i] == Delivered(INITIAL, run)[i].message
  {
    Conservation(run);
    assert Messages(Delivered(INITIAL, run))[i] == Accepted(INITIAL, run)[i];
  }

  /** ... and no wait returns two: deliveries pair waits with acceptances one to one. */
  lemma DeliveredOnce(run: seq<Action>, i: nat, j: nat)
    requires i < j < |Delivered(INITIAL, run)|
    ensures Delivered(INITIAL, run)[i].wait != Delivered(INITIAL, run)[j].wait
    ensures Delivered(INITIAL, run)[i].message.call != Delivered(INITIAL, run)[j].message.call
  {
    DeliveredWasAccepted(run, i);
    DeliveredWasAccepted(run, j);
    AcceptedOnce(run, i, j);
    WaitReturnsOnce(run, i, j);
  }

  // ---------------------------------------------------------------- what an acceptance has seen

  /** Step `k` of the run is `a`, taken in state `t`. */
  ghost predicate TakenIn(run: seq<Action>, k: nat, a: Action, t: State) {
    k < |run| && run[k] == a && After(INITIAL, run[..k]) == t && Can(t, a)
  }

  lemma TakenInLonger(run: seq<Action>, k: nat, a: Action, t: State)
    requires run != [] && TakenIn(Front(run), k, a, t)
    ensures TakenIn(run, k, a, t)
  {
    assert Front(run)[..k] == run[..k];
  }

  /** How a submit call can get to where it is. */
  lemma StepSubmit(s: State, a: Action, c: int)
    requires Inv(s) && c in Step(s, a).submits
    ensures c !in s.submits ==>
              Can(s, a) && a == BeginSubmit(c, Step(s, a).submits[c].response) && SubmitAt(Step(s, a), c, Looking)
    ensures c in s.submits ==>
              && Step(s, a).submits[c].response == s.submits[c].response
              && (SubmitAt(s, c, Looking) ==>
                    || SubmitAt(Step(s, a), c, Looking)
                    || (SubmitAt(Step(s, a), c, Checking) && a == Lookup(c) && s.registered))
              && (SubmitAt(s, c, Checking) ==>
                    || SubmitAt(Step(s, a), c, Checking)
                    || (SubmitAt(Step(s, a), c, Sending) && a == CheckStatus(c) && s.status == Waiting))
              && (SubmitAt(s, c, Sending) ==> SubmitAt(Step(s, a), c, Sending))
  {
  }

  ghost predicate Began(run: seq<Action>, c: int, r: Response, b: nat) {
    exists t :: TakenIn(run, b, BeginSubmit(c, r), t)
  }

  ghost predicate FoundSession(run: seq<Action>, c: int, l: nat) {
    exists t :: TakenIn(run, l, Lookup(c), t) && t.registered
  }

  ghost predicate SawWaiting(run: seq<Action>, c: int, k: nat) {
    exists t :: TakenIn(run, k, CheckStatus(c), t) && t.status == Waiting
  }

  lemma HistoryLonger(run: seq<Action>, c: int, r: Response, i: nat)
    requires run != []
    ensures Began(Front(run), c, r, i) ==> Began(run, c, r, i)
    ensures FoundSession(Front(run), c, i) ==> FoundSession(run, c, i)
    ensures SawWaiting(Front(run), c, i) ==> SawWaiting(run, c, i)
  {
    if Began(Front(run), c, r, i) {
      var t :| TakenIn(Front(run), i, BeginSubmit(c, r), t);
      TakenInLonger(run, i, BeginSubmit(c, r), t);
    }
    if FoundSession(Front(run), c, i) {
      var t :| TakenIn(Front(run), i, Lookup(c), t) && t.registered;
      TakenInLonger(run, i, Lookup(c), t);
    }
    if SawWaiting(Front(run), c, i) {
      var t :| TakenIn(Front(run), i, CheckStatus(c), t) && t.status == Waiting;
      TakenInLonger(run, i, CheckStatus(c), t);
    }
  }

  /** A submit in progress began with the response it carries, found the session in the map before it got
      past the lookup, and saw status Waiting before it got to the send, in this order. */
  lemma {:induction false} SubmitHistory(run: seq<Action>, c: int) returns (b: nat, l: nat, k: nat)
    requires c in After(INITIAL, run).submits
    ensures b < |run| && Began(run, c, After(INITIAL, run).submits[c].response, b)
    ensures !SubmitAt(After(INITIAL, run), c, Looking) ==> b < l < |run| && FoundSession(run, c, l)
    ensures SubmitAt(After(INITIAL, run), c, Sending) ==> l < k < |run| && SawWaiting(run, c, k)
    decreases |run|
  {
    var n, r := |run| - 1, After(INITIAL, run).submits[c].response;
    var t, a := After(INITIAL, Front(run)), Last(run);
    b, l, k := n, n, n;
    InvHolds(Front(run));
    StepSubmit(t, a, c);
    assert Can(t, a) ==> TakenIn(run, n, a, t);
    if c in t.submits {
      b, l, k := SubmitHistory(Front(run), c);
      HistoryLonger(run, c, r, b);
      if SubmitAt(t, c, Looking) { l := n; } else { HistoryLonger(run, c, r, l); }
      if SubmitAt(t, c, Sending) { HistoryLonger(run, c, r, k); } else { k := n; }
    }
  }

  /** Every acceptance happened after its own call had found the session and then seen it Waiting, and the
      accepted response is the one the call was made with. */
  lemma AcceptanceSawWaiting(run: seq<Action>) returns (b: nat, l: nat, k: nat)
    requires run != [] && Accepts(After(INITIAL, Front(run)), Last(run))
    ensures b < l < k < |run| - 1
    ensures FoundSession(run, Last(run).c, l) && SawWaiting(run, Last(run).c, k)
    ensures exists r ::
              Began(run, Last(run).c, r, b) &&
              Accepted(INITIAL, run) == Accepted(INITIAL, Front(run)) + [Message(Last(run).c, r)]
  {
    var c := Last(run).c;
    var r := After(INITIAL, Front(run)).submits[c].response;
    b, l, k := SubmitHistory(Front(run), c);
    HistoryLonger(run, c, r, b);
    HistoryLonger(run, c, r, l);
    HistoryLonger(run, c, r, k);
  }

  // ---------------------------------------------------------------- when a wait gets an old answer

  lemma {:induction false} LogsGrow(run: seq<Action>, k: nat)
    requires k <= |run|
    ensures Accepted(INITIAL, run[..k]) <= Accepted(INITIAL, run)
    ensures Delivered(INITIAL, run[..k]) <= Delivered(INITIAL, run)
    decreases |run|
  {
    if k == |run| {
      assert run[..k] == run;
    } else {
      LogsGrow(Front(run), k);
      assert Front(run)[..k] == run[..k];
    }
  }

  /** What is delivered from step `k` on had been accepted by then exactly if it is what the channel
      held at that moment. */
  lemma OldAnswer(run: seq<Action>, k: nat, i: nat)
    requires k <= |run| && |Delivered(INITIAL, run[..k])| <= i < |Delivered(INITIAL, run)|
    ensures var m := Delivered(INITIAL, run)[i].message;
            m in Accepted(INITIAL, run[..k]) <==> After(INITIAL, run[..k]).slot == Some(m)
  {
    var m, early := Delivered(INITIAL, run)[i].message, Accepted(INITIAL, run[..k]);
    LogsGrow(run, k);
    Conservation(run[..k]);
    DeliveredWasAccepted(run, i);
    if m in early {
      var j :| 0 <= j < |early| && early[j] == m;
      AcceptedIndex(run, j, i);
    }
  }

  /** A wait is answered by a response accepted before it armed exactly if the channel held one when it
      armed, as nothing drains the slot, and no other wait was answered in between. */
  lemma StaleAnswerExact(run: seq<Action>, k: nat, t: State, i: nat)
    requires i < |Delivered(INITIAL, run)| && TakenIn(run, k, Arm(Delivered(INITIAL, run)[i].wait), t)
    ensures Delivered(INITIAL, run)[i].message in Accepted(INITIAL, run[..k])
            <==> t.slot.Some? && i == |Delivered(INITIAL, run[..k])|
    ensures t.slot.Some? && i == |Delivered(INITIAL, run[..k])| ==> Delivered(INITIAL, run)[i].message == t.slot.value
  {
    LogsGrow(run, k);
    if i < |Delivered(INITIAL, run[..k])| {
      DeliveredAreOver(run[..k], i);
      assert false;
    }
    OldAnswer(run, k, i);
    NextDelivery(run, k, i);
  }

  /** What the channel holds is what is delivered next. */
  lemma NextDelivery(run: seq<Action>, k: nat, i: nat)
    requires k <= |run| && |Delivered(INITIAL, run[..k])| <= i < |Delivered(INITIAL, run)|
    ensures var slot := After(INITIAL, run[..k]).slot;
            slot == Some(Delivered(INITIAL, run)[i].message) <==> slot.Some? && i == |Delivered(INITIAL, run[..k])|
  {
    var early, n := Accepted(INITIAL, run[..k]), |Delivered(INITIAL, run[..k])|;
    LogsGrow(run, k);
    Conservation(run[..k]);
    DeliveredWasAccepted(run, i);
    DeliveredWasAccepted(run, n);
    if After(INITIAL, run[..k]).slot == Some(Delivered(INITIAL, run)[i].message) {
      assert early[n] == Accepted(INITIAL, run)[i];
      AcceptedIndex(run, n, i);
    }
  }

  /** A state with what has been accepted and delivered on the way to it. */
  datatype Log = Log(state: State, accepted: seq<Message>, delivered: seq<Delivery>)

  ghost function LogOf(run: seq<Action>): Log {
    Log(After(INITIAL, run), Accepted(INITIAL, run), Delivered(INITIAL, run))
  }

  function Advance(g: Log, a: Action): Log {
    Log(Step(g.state, a), g.accepted + AcceptedBy(g.state, a), g.delivered + DeliveredBy(g.state, a))
  }

  /** The actions taken from the front, as one plays a run through. */
  function Play(g: Log, actions: seq<Action>): Log
    decreases |actions|
  {
    if actions == [] then g else Play(Advance(g, actions[0]), actions[1..])
  }

  lemma {:induction false} PlayIsRun(run: seq<Action>, actions: seq<Action>)
    ensures Play(LogOf(run), actions) == LogOf(run + actions)
    decreases |actions|
  {
    if actions == [] {
      assert run + actions == run;
    } else {
      var more := run + [actions[0]];
      assert Front(more) == run;
      PlayIsRun(more, actions[1..]);
      assert more + actions[1..] == run + actions;
    }
  }

  /** Playing a run through from the start gives its state and logs. */
  lemma PlayFromStart(run: seq<Action>)
    ensures Play(START, run) == LogOf(run)
  {
    PlayIsRun([], run);
    assert [] + run == run;
  }

  const START := Log(INITIAL, [], [])

  lemma PlayTwo(g: Log, a: Action, g1: Log, b: Action, g2: Log, rest: seq<Action>)
    requires Advance(g, a) == g1 && Advance(g1, b) == g2
    ensures Play(g, [a] + ([b] + rest)) == Play(g2, rest)
  {
    assert ([a] + ([b] + rest))[1..] == [b] + rest;
    assert ([b] + rest)[1..] == rest;
  }

  const REPLY := Message(2, Response("", false))
  const ARMING := State(Running, true, false, None, false, false, map[], map[1 := Wait(Arming, true)], {}, {1})
  const WAITING := State(Waiting, true, false, None, false, false, map[], map[1 := Wait(Selecting, true)], {}, {1})
  const LOOKING := WAITING.(submits := map[2 := Submit(Looking, REPLY.response)], used := {1, 2})
  const FOUND := LOOKING.(submits := map[2 := Submit(Checking, REPLY.response)])
  const CHECKED := LOOKING.(submits := map[2 := Submit(Sending, REPLY.response)])
  const TIMED_OUT := CHECKED.(waits := map[1 := Wait(Leaving, true)])
  const SENT := TIMED_OUT.(submits := map[], slot := Some(REPLY))
  const LEFT_OVER := SENT.(status := Running, waits := map[])

  /** Wait 1 arms; call 2 finds the session and sees it waiting. */
  function Checked(rest: seq<Action>): seq<Action> {
    [BeginWait(1, true)] + ([Arm(1)] + ([BeginSubmit(2, REPLY.response)] + ([Lookup(2)] + ([CheckStatus(2)] + rest))))
  }

  lemma WaitSteps()
    ensures Advance(START, BeginWait(1, true)) == Log(ARMING, [], [])
    ensures Advance(Log(ARMING, [], []), Arm(1)) == Log(WAITING, [], [])
  {
  }

  lemma SubmitSteps()
    ensures Advance(Log(WAITING, [], []), BeginSubmit(2, REPLY.response)) == Log(LOOKING, [], [])
    ensures Advance(Log(LOOKING, [], []), Lookup(2)) == Log(FOUND, [], [])
    ensures Advance(Log(FOUND, [], []), CheckStatus(2)) == Log(CHECKED, [], [])
  {
  }

  lemma TimeoutStep()
    ensures Advance(Log(CHECKED, [], []), SelectTimeout(1)) == Log(TIMED_OUT, [], [])
  {
  }

  lemma SendStep()
    ensures Advance(Log(TIMED_OUT, [], []), Send(2)) == Log(SENT, [REPLY], [])
  {
  }

  lemma LeaveStep()
    ensures Advance(Log(SENT, [REPLY], []), Leave(1)) == Log(LEFT_OVER, [REPLY], [])
  {
  }

  lemma SubmitState(next: Action, rest: seq<Action>)
    ensures Play(Log(WAITING, [], []),
                 [BeginSubmit(2, REPLY.response)] + ([Lookup(2)] + ([CheckStatus(2)] + ([next] + rest))))
            == Play(Advance(Log(CHECKED, [], []), next), rest)
  {
    SubmitSteps();
    PlayTwo(Log(WAITING, [], []), BeginSubmit(2, REPLY.response), Log(LOOKING, [], []), Lookup(2), Log(FOUND, [], []),
            [CheckStatus(2)] + ([next] + rest));
    PlayTwo(Log(FOUND, [], []), CheckStatus(2), Log(CHECKED, [], []), next, Advance(Log(CHECKED, [], []), next), rest);
  }

  lemma CheckedState(next: Action, rest: seq<Action>)
    ensures Play(START, Checked([next] + rest)) == Play(Advance(Log(CHECKED, [], []), next), rest)
  {
    WaitSteps();
    PlayTwo(START, BeginWait(1, true), Log(ARMING, [], []), Arm(1), Log(WAITING, [], []),
            [BeginSubmit(2, REPLY.response)] + ([Lookup(2)] + ([CheckStatus(2)] + ([next] + rest))));
    SubmitState(next, rest);
  }

  /** Wait 1 times out before call 2 sends. */
  function TimedOut(rest: seq<Action>): seq<Action> {
    Checked([SelectTimeout(1)] + ([Send(2)] + ([Leave(1)] + rest)))
  }

  /** The answer to wait 1 is accepted after that wait timed out, and stays in the channel. */
  lemma AnswerLeftOver(rest: seq<Action>)
    ensures Play(START, TimedOut(rest)) == Play(Log(LEFT_OVER, [REPLY], []), rest)
  {
    TimeoutStep();
    SendStep();
    LeaveStep();
    CheckedState(SelectTimeout(1), [Send(2)] + ([Leave(1)] + rest));
    PlayTwo(Log(TIMED_OUT, [], []), Send(2), Log(SENT, [REPLY], []), Leave(1), Log(LEFT_OVER, [REPLY], []), rest);
  }

  /** A new wait that arms and selects. */
  function NextWait(w: int): seq<Action> {
    [BeginWait(w, true)] + ([Arm(w)] + [SelectReceive(w)])
  }

  /** Whatever lies in the channel goes to it. */
  lemma NextWaitReceives(g: Log, w: int)
    requires g.state.slot.Some? && w !in g.state.used
    ensures Play(g, NextWait(w)).delivered == g.delivered + [Delivery(w, g.state.slot.value)]
  {
    var g1 := Advance(g, BeginWait(w, true));
    var g2 := Advance(g1, Arm(w));
    PlayTwo(g, BeginWait(w, true), g1, Arm(w), g2, [SelectReceive(w)]);
    NewWaitArms(g, w);
    PlayOne(g2, SelectReceive(w));
    ReceiveStep(g2, w);
  }

  lemma PlayOne(g: Log, a: Action)
    ensures Play(g, [a]) == Advance(g, a)
  {
    assert [a][1..] == [];
  }

  lemma NewWaitArms(g: Log, w: int)
    requires w !in g.state.used
    ensures var g2 := Advance(Advance(g, BeginWait(w, true)), Arm(w));
            WaitAt(g2.state, w, Selecting) && g2.state.slot == g.state.slot && g2.delivered == g.delivered
  {
    var g1 := Advance(g, BeginWait(w, true));
    assert WaitAt(g1.state, w, Arming) && g1.state.slot == g.state.slot && g1.delivered == g.delivered;
  }

  lemma ReceiveStep(g: Log, w: int)
    requires WaitAt(g.state, w, Selecting) && g.state.slot.Some?
    ensures Advance(g, SelectReceive(w)).delivered == g.delivered + [Delivery(w, g.state.slot.value)]
  {
  }

  /** A run from the start in which the answer to wait 1 is delivered to wait 3, which had not even begun
      when the answer was accepted. */
  lemma LateAnswerReachesNextWait()
    ensures Play(START, TimedOut([])) == Log(LEFT_OVER, [REPLY], []) && 3 !in LEFT_OVER.used
    ensures Play(START, TimedOut(NextWait(3))).delivered == [Delivery(3, REPLY)]
    ensures exists run :: Delivered(INITIAL, run) == [Delivery(3, REPLY)]
  {
    AnswerLeftOver([]);
    AnswerLeftOver(NextWait(3));
    NextWaitReceives(Log(LEFT_OVER, [REPLY], []), 3);
    PlayFromStart(TimedOut(NextWait(3)));
  }

  // ---------------------------------------------------------------- when a send meets a closed channel

  /** A send on a closed channel: the call panics, and nothing is accepted. */
  ghost predicate Panics(s: State, c: int) {
    SubmitAt(s, c, Sending) && s.closed
  }

  lemma StepCloses(s: State, a: Action)
    requires Inv(s)
    ensures Step(s, a).closed <==> s.closed || a == Cleanup
  {
  }

  lemma {:induction false} ClosedByCleanup(run: seq<Action>)
    ensures After(INITIAL, run).closed <==> Cleanup in run
    decreases |run|
  {
    if run != [] {
      ClosedByCleanup(Front(run));
      InvHolds(Front(run));
      StepCloses(After(INITIAL, Front(run)), Last(run));
      assert run == Front(run) + [Last(run)];
    }
  }

  /** A call about to send panics exactly if a cleanup came after its own lookup, which is the last
      moment the call makes sure of the session. */
  lemma PanicsExact(run: seq<Action>, c: int, l: nat)
    requires SubmitAt(After(INITIAL, run), c, Sending) && FoundSession(run, c, l)
    ensures Panics(After(INITIAL, run), c) <==> exists j :: l < j < |run| && run[j] == Cleanup
    ensures Panics(After(INITIAL, run), c) ==> AcceptedBy(After(INITIAL, run), Send(c)) == []
  {
    var t :| TakenIn(run, l, Lookup(c), t) && t.registered;
    ClosedByCleanup(run);
    ClosedByCleanup(run[..l]);
    InvHolds(run[..l]);
    assert run == run[..l] + [Lookup(c)] + run[l + 1..];
  }

  /** Every call about to send has such a lookup behind it. */
  lemma SendingFoundSession(run: seq<Action>, c: int)
    requires SubmitAt(After(INITIAL, run), c, Sending)
    ensures exists l: nat :: FoundSession(run, c, l)
  {
    var b, l, k := SubmitHistory(run, c);
  }

  /** A run from the start that does it: cleanup between the check and the send. */
  lemma SendCanMeetClosedChannel()
    ensures Panics(Play(START, Checked([Cleanup] + [])).state, 2)
    ensures exists run :: Panics(After(INITIAL, run), 2)
  {
    CheckedState(Cleanup, []);
    PlayFromStart(Checked([Cleanup] + []));
  }

  // ---------------------------------------------------------------- what each call comes to

  ghost predicate Takes(run: seq<Action>, k: nat) {
    k < |run| && Can(After(INITIAL, run[..k]), run[k])
  }

  lemma TakesFront(run: seq<Action>, k: nat)
    requires run != [] && k < |run| - 1
    ensures Takes(Front(run), k) <==> Takes(run, k)
    ensures Front(run)[..k] == run[..k] && Front(run)[k] == run[k]
  {
    assert Front(run)[..k] == run[..k];
  }

  lemma AfterNext(run: seq<Action>, k: nat)
    requires k < |run|
    ensures After(INITIAL, run[..k + 1]) == Step(After(INITIAL, run[..k]), run[k])
  {
    var r := run[..k + 1];
    assert Front(r) == run[..k] && Last(r) == run[k];
  }

  /** What the three parts of a submit call come to, told from the history: the lookup passes if no cleanup
      came before it, the check if the status is Waiting, and the send is accepted if no cleanup came before it
      and everything accepted so far has been delivered. A part that does not pass ends the call. */
  lemma SubmitOutcome(run: seq<Action>, c: int)
    requires run != [] && c in After(INITIAL, Front(run)).submits
    ensures var f, s, s' := Front(run), After(INITIAL, Front(run)), After(INITIAL, run);
            && (SubmitAt(s, c, Looking) && Last(run) == Lookup(c) ==>
                 if Cleanup in f then c !in s'.submits else SubmitAt(s', c, Checking))
            && (SubmitAt(s, c, Checking) && Last(run) == CheckStatus(c) ==>
                 if s.status == Waiting then SubmitAt(s', c, Sending) else c !in s'.submits)
            && (SubmitAt(s, c, Sending) && Last(run) == Send(c) ==>
                 && c !in s'.submits
                 && Accepted(INITIAL, run) == Accepted(INITIAL, f) +
                      if Cleanup !in f && |Accepted(INITIAL, f)| == |Delivered(INITIAL, f)|
                      then [Message(c, s.submits[c].response)] else [])
  {
    InvHolds(Front(run));
    ClosedByCleanup(Front(run));
    Undelivered(Front(run));
  }

  /** A selecting wait can receive exactly if something accepted is undelivered or a cleanup has come, and then
      gets the oldest such response if there is one. */
  lemma ReceiveOutcome(run: seq<Action>, w: int)
    requires WaitAt(After(INITIAL, run), w, Selecting)
    ensures var n := |Delivered(INITIAL, run)|;
            && (Can(After(INITIAL, run), SelectReceive(w)) <==> n < |Accepted(INITIAL, run)| || Cleanup in run)
            && DeliveredBy(After(INITIAL, run), SelectReceive(w))
               == if n < |Accepted(INITIAL, run)| then [Delivery(w, Accepted(INITIAL, run)[n])] else []
  {
    ClosedByCleanup(run);
    Undelivered(run);
    SelectStep(After(INITIAL, run), w);
  }

  lemma SelectStep(s: State, w: int)
    requires WaitAt(s, w, Selecting)
    ensures Can(s, SelectReceive(w)) <==> s.slot.Some? || s.closed
    ensures DeliveredBy(s, SelectReceive(w)) == if s.slot.Some? then [Delivery(w, s.slot.value)] else []
  {
  }

  /** What is accepted and not delivered is what the channel holds. */
  lemma Undelivered(run: seq<Action>)
    ensures var n, slot := |Delivered(INITIAL, run)|, After(INITIAL, run).slot;
            && n <= |Accepted(INITIAL, run)| <= n + 1
            && (slot.Some? <==> n < |Accepted(INITIAL, run)|)
            && (slot.Some? ==> slot.value == Accepted(INITIAL, run)[n])
  {
    Conservation(run);
    assert |Messages(Delivered(INITIAL, run))| == |Delivered(INITIAL, run)|;
  }

  ghost predicate DeliveredTo(d: seq<Delivery>, w: int) {
    exists i :: 0 <= i < |d| && d[i].wait == w
  }

  lemma DeliveredToMore(d: seq<Delivery>, e: seq<Delivery>, w: int)
    ensures DeliveredTo(d + e, w) <==> DeliveredTo(d, w) || DeliveredTo(e, w)
  {
    if DeliveredTo(d, w) {
      var i :| 0 <= i < |d| && d[i].wait == w;
      assert (d + e)[i].wait == w;
    }
    if DeliveredTo(e, w) {
      var i :| 0 <= i < |e| && e[i].wait == w;
      assert (d + e)[|d| + i].wait == w;
    }
  }

  /** What can have ended the select of a wait: a delivery, cleanup, the context, or its own timeout. */
  ghost predicate Released(run: seq<Action>, w: int) {
    || DeliveredTo(Delivered(INITIAL, run), w)
    || Cleanup in run
    || After(INITIAL, run).cancelled
    || (SelectTimeout(w) in run && BeginWait(w, true) in run)
  }

  lemma ReleasedLonger(run: seq<Action>, w: int)
    requires run != [] && Released(Front(run), w)
    ensures Released(run, w)
  {
    assert run == Front(run) + [Last(run)];
    var s := After(INITIAL, Front(run));
    DeliveredToMore(Delivered(INITIAL, Front(run)), DeliveredBy(s, Last(run)), w);
    StepCancel(s, Last(run));
  }

  /** A wait past its select was released; one that was begun without a timeout never by a timer. */
  lemma {:induction false} LeavingWasReleased(run: seq<Action>, w: int)
    requires w in After(INITIAL, run).waits
    ensures WaitAt(After(INITIAL, run), w, Leaving) ==> Released(run, w)
    ensures BeginWait(w, After(INITIAL, run).waits[w].timed) in run
    decreases |run|
  {
    var s, a := After(INITIAL, Front(run)), Last(run);
    assert run == Front(run) + [a];
    InvHolds(Front(run));
    StepTimed(s, a, w);
    if w in s.waits {
      LeavingWasReleased(Front(run), w);
      if WaitAt(s, w, Leaving) {
        ReleasedLonger(run, w);
      } else if WaitAt(After(INITIAL, run), w, Leaving) {
        ReleasedNow(run, w);
      }
    }
  }

  lemma StepTimed(s: State, a: Action, w: int)
    requires Inv(s) && w in Step(s, a).waits
    ensures w !in s.waits ==> a == BeginWait(w, Step(s, a).waits[w].timed) && WaitAt(Step(s, a), w, Arming)
    ensures w in s.waits ==> Step(s, a).waits[w].timed == s.waits[w].timed
  {
  }

  /** How a wait gets past its select. */
  lemma StepWait(s: State, a: Action, w: int)
    requires w in s.waits && WaitAt(Step(s, a), w, Leaving)
    ensures !WaitAt(s, w, Leaving) ==>
              && Can(s, a)
              && ((a == SelectReceive(w) && (Delivers(s, a) || s.closed))
                  || (a == SelectDone(w) && s.cancelled && Step(s, a).cancelled)
                  || (a == SelectTimeout(w) && s.waits[w].timed))
  {
  }

  lemma ReleasedNow(run: seq<Action>, w: int)
    requires run != [] && w in After(INITIAL, Front(run)).waits
    requires !WaitAt(After(INITIAL, Front(run)), w, Leaving) && WaitAt(After(INITIAL, run), w, Leaving)
    requires BeginWait(w, After(INITIAL, Front(run)).waits[w].timed) in Front(run)
    ensures Released(run, w)
  {
    var f, a := Front(run), Last(run);
    assert run == f + [a];
    InvHolds(f);
    StepWait(After(INITIAL, f), a, w);
    ClosedByCleanup(f);
    DeliveredToMore(Delivered(INITIAL, f), DeliveredBy(After(INITIAL, f), a), w);
    if Delivers(After(INITIAL, f), a) {
      assert DeliveredBy(After(INITIAL, f), a)[0].wait == w;
    }
  }

  // ---------------------------------------------------------------- stopping

  /** A stop that looks for the session is applied later if no cleanup came before the look. */
  lemma StopOutcome(run: seq<Action>, t: int)
    requires run != [] && Last(run) == StopLookup(t) && t !in After(INITIAL, Front(run)).used
    ensures Can(After(INITIAL, run), StopApply(t)) <==> Cleanup !in Front(run)
  {
    InvHolds(Front(run));
    ClosedByCleanup(Front(run));
  }

  lemma {:induction false} StopsPending(run: seq<Action>, t: int)
    requires t in After(INITIAL, run).stops
    ensures exists k: nat :: Takes(run, k) && run[k] == StopLookup(t) && Cleanup !in run[..k]
    decreases |run|
  {
    var s, a := After(INITIAL, Front(run)), Last(run);
    if t in s.stops {
      StopsPending(Front(run), t);
      var k: nat :| Takes(Front(run), k) && Front(run)[k] == StopLookup(t) && Cleanup !in Front(run)[..k];
      TakesFront(run, k);
      assert Takes(run, k);
    } else {
      InvHolds(Front(run));
      ClosedByCleanup(Front(run));
      assert run[..|run| - 1] == Front(run);
      assert Takes(run, |run| - 1);
    }
  }

  /** Every stop that takes effect found the session before any cleanup. */
  lemma StopFoundSession(run: seq<Action>, k: nat)
    requires Takes(run, k) && run[k].StopApply?
    ensures exists l: nat :: l < k && Takes(run, l) && run[l] == StopLookup(run[k].t) && Cleanup !in run[..l]
  {
    var r := run[..k];
    StopsPending(r, run[k].t);
    var l: nat :| Takes(r, l) && r[l] == StopLookup(run[k].t) && Cleanup !in r[..l];
    assert r[..l] == run[..l];
    assert Takes(run, l);
  }

  /** From step `k` on no status is set directly, and no stop takes effect. */
  ghost predicate LeftAlone(run: seq<Action>, k: nat) {
    forall j :: k <= j < |run| && Takes(run, j) ==> !run[j].SetStatus? && !run[j].StopApply?
  }

  /** From step `k` on no wait begins to wait. */
  ghost predicate NoneArms(run: seq<Action>, k: nat) {
    forall j :: k <= j < |run| && Takes(run, j) ==> !run[j].Arm?
  }

  lemma FrontAlone(run: seq<Action>, k: nat)
    requires k < |run|
    ensures LeftAlone(run, k) ==> LeftAlone(Front(run), k)
    ensures NoneArms(run, k) ==> NoneArms(Front(run), k)
    ensures Takes(run, |run| - 1) <==> Can(After(INITIAL, Front(run)), Last(run))
  {
    forall j: nat | k <= j < |run| - 1 ensures Takes(Front(run), j) <==> Takes(run, j) { TakesFront(run, j); }
    assert run[..|run| - 1] == Front(run);
  }

  /** Only four actions touch the status. */
  lemma StepStatus(s: State, a: Action)
    ensures !Can(s, a) || !(a.SetStatus? || a.StopApply? || a.Arm? || a.Leave?) ==> Step(s, a).status == s.status
    ensures Can(s, a) && a.Arm? ==> Step(s, a).status == Waiting
    ensures Can(s, a) && a.Leave? ==> Step(s, a).status == if s.status == Waiting then Running else s.status
  {
  }

  /** The status before and after the last action of a run. */
  lemma LastStatus(run: seq<Action>, k: nat)
    requires k < |run| && LeftAlone(run, k)
    ensures LeftAlone(Front(run), k) && Front(run)[..k] == run[..k]
    ensures var old_, new_ := After(INITIAL, Front(run)).status, After(INITIAL, run).status;
            if Takes(run, |run| - 1) && Last(run).Arm? then new_ == Waiting
            else new_ == old_ || (old_ == Waiting && new_ == Running && Last(run).Leave? && Takes(run, |run| - 1))
  {
    FrontAlone(run, k);
    assert Front(run)[..k] == run[..k];
    StepStatus(After(INITIAL, Front(run)), Last(run));
    assert Takes(run, |run| - 1) ==> !Last(run).SetStatus? && !Last(run).StopApply?;
  }

  /** Left alone, and with no wait beginning to wait, a status other than Waiting stays. */
  lemma {:induction false} StatusStays(run: seq<Action>, k: nat)
    requires k <= |run| && LeftAlone(run, k) && NoneArms(run, k) && After(INITIAL, run[..k]).status != Waiting
    ensures After(INITIAL, run).status == After(INITIAL, run[..k]).status
    decreases |run|
  {
    if k == |run| {
      assert run[..k] == run;
    } else {
      LastStatus(run, k);
      FrontAlone(run, k);
      StatusStays(Front(run), k);
    }
  }

  /** Left alone, a status of Waiting can only become Running, and Running only Waiting. */
  lemma {:induction false} StaysActive(run: seq<Action>, k: nat)
    requires k <= |run| && LeftAlone(run, k) && After(INITIAL, run[..k]).status in {Waiting, Running}
    ensures After(INITIAL, run).status in {Waiting, Running}
    decreases |run|
  {
    if k == |run| {
      assert run[..k] == run;
    } else {
      LastStatus(run, k);
      StaysActive(Front(run), k);
    }
  }

  /** A wait that began to wait has made the session active. */
  lemma ArmMakesActive(run: seq<Action>, k: nat)
    requires LeftAlone(run, k) && !NoneArms(run, k)
    ensures After(INITIAL, run).status in {Waiting, Running}
  {
    var j: nat :| k <= j < |run| && Takes(run, j) && run[j].Arm?;
    AfterNext(run, j);
    StepStatus(After(INITIAL, run[..j]), run[j]);
    StaysActive(run, j + 1);
  }

  /** After the last stop, with no status set since, the session is stopped exactly if no wait began to wait
      since: a wait begun later makes it Waiting, and Running when it ends, and the stop is forgotten. */
  lemma StopLastsExact(run: seq<Action>, k: nat)
    requires Takes(run, k) && run[k].StopApply? && LeftAlone(run, k + 1)
    ensures After(INITIAL, run).status == Stopped <==> NoneArms(run, k + 1)
  {
    AfterNext(run, k);
    if NoneArms(run, k + 1) { StatusStays(run, k + 1); } else { ArmMakesActive(run, k + 1); }
  }

  /** A status set directly lasts in the same way. */
  lemma SetStatusLasts(run: seq<Action>, k: nat)
    requires k < |run| && run[k].SetStatus? && run[k].status != Waiting
    requires LeftAlone(run, k + 1) && NoneArms(run, k + 1)
    ensures After(INITIAL, run).status == run[k].status
  {
    AfterNext(run, k);
    StatusStays(run, k + 1);
  }

  /** The end of a wait takes the status back from Waiting, until the next one begins to wait. */
  lemma WaitingEnds(run: seq<Action>, k: nat)
    requires Takes(run, k) && run[k].Leave? && LeftAlone(run, k + 1) && NoneArms(run, k + 1)
    ensures var before := After(INITIAL, run[..k]).status;
            After(INITIAL, run).status == if before == Waiting then Running else before
  {
    AfterNext(run, k);
    StepStatus(After(INITIAL, run[..k]), run[k]);
    StatusStays(run, k + 1);
  }

  /** A wait keeps the session waiting until a wait ends, the status is set, or a stop takes effect. */
  lemma {:induction false} ArmedIsWaiting(run: seq<Action>, k: nat)
    requires Takes(run, k) && run[k].Arm? && LeftAlone(run, k + 1)
    requires forall j :: k < j < |run| && Takes(run, j) ==> !run[j].Leave?
    ensures After(INITIAL, run).status == Waiting
    decreases |run|
  {
    if k == |run| - 1 {
      AfterNext(run, k);
      assert run[..k + 1] == run;
      StepStatus(After(INITIAL, run[..k]), run[k]);
    } else {
      TakesFront(run, k);
      LastStatus(run, k + 1);
      forall j: nat | k < j < |run| - 1 ensures Takes(Front(run), j) <==> Takes(run, j) { TakesFront(run, j); }
      ArmedIsWaiting(Front(run), k);
    }
  }

  lemma StepCancel(s: State, a: Action)
    ensures Step(s, a).hasCancel <==> s.hasCancel || a == SetCancel
    ensures Step(s, a).cancelled <==> s.cancelled || a == ContextEnds || (a.StopApply? && Can(s, a) && s.hasCancel)
  {
  }

  lemma {:induction false} CancelIsSet(run: seq<Action>)
    ensures After(INITIAL, run).hasCancel <==> SetCancel in run
    decreases |run|
  {
    if run != [] {
      CancelIsSet(Front(run));
      StepCancel(After(INITIAL, Front(run)), Last(run));
      assert run == Front(run) + [Last(run)];
    }
  }

  /** A stop took effect after a cancel function had been set. */
  ghost predicate StopCancels(run: seq<Action>) {
    exists k: nat :: Takes(run, k) && run[k].StopApply? && SetCancel in run[..k]
  }

  /** The context is done exactly if it ended by itself or a stop took effect after its cancel function was
      set; so it stays done. */
  lemma {:induction false} CancelledExact(run: seq<Action>)
    ensures After(INITIAL, run).cancelled <==> ContextEnds in run || StopCancels(run)
    decreases |run|
  {
    if run != [] {
      var f, n := Front(run), |run| - 1;
      CancelledExact(f);
      CancelIsSet(f);
      StepCancel(After(INITIAL, f), Last(run));
      assert run == f + [Last(run)] && run[..n] == f;
      if StopCancels(f) {
        var k: nat :| Takes(f, k) && f[k].StopApply? && SetCancel in f[..k];
        TakesFront(run, k);
        assert Takes(run, k) && SetCancel in run[..k];
      }
      if StopCancels(run) {
        var k: nat :| Takes(run, k) && run[k].StopApply? && SetCancel in run[..k];
        if k < n { TakesFront(run, k); assert Takes(f, k) && SetCancel in f[..k]; }
      }
      if Can(After(INITIAL, f), Last(run)) { assert Takes(run, n); }
    }
  }

  /** A stop after the cancel function was set releases every wait: from then on each one that selects can
      leave through the context, and none needs a response or a timer. */
  lemma StopReleases(run: seq<Action>, k: nat, w: int)
    requires Takes(run, k) && run[k].StopApply? && SetCancel in run[..k]
    requires WaitAt(After(INITIAL, run), w, Selecting)
    ensures Can(After(INITIAL, run), SelectDone(w))
    ensures WaitAt(After(INITIAL, run + [SelectDone(w)]), w, Leaving)
  {
    CancelledExact(run);
    assert StopCancels(run);
    assert Front(run + [SelectDone(w)]) == run;
  }

  const CANCELLABLE := INITIAL.(hasCancel := true)
  const STOPPING := CANCELLABLE.(stops := {1}, used := {1})
  const STOPPED := STOPPING.(cancelled := true, status := Stopped, stops := {})
  const ARMING_LATE := STOPPED.(waits := map[2 := Wait(Arming, false)], used := {1, 2})
  const WAITING_LATE := ARMING_LATE.(status := Waiting, waits := map[2 := Wait(Selecting, false)])
  const LEAVING_LATE := WAITING_LATE.(waits := map[2 := Wait(Leaving, false)])
  const RUNNING_AGAIN := LEAVING_LATE.(status := Running, waits := map[])

  lemma StopSteps()
    ensures Advance(START, SetCancel) == Log(CANCELLABLE, [], [])
    ensures Advance(Log(CANCELLABLE, [], []), StopLookup(1)) == Log(STOPPING, [], [])
    ensures Advance(Log(STOPPING, [], []), StopApply(1)) == Log(STOPPED, [], [])
  {
  }

  lemma LateWaitSteps()
    ensures Advance(Log(STOPPED, [], []), BeginWait(2, false)) == Log(ARMING_LATE, [], [])
    ensures Advance(Log(ARMING_LATE, [], []), Arm(2)) == Log(WAITING_LATE, [], [])
  {
  }

  lemma LateLeaveSteps()
    ensures Advance(Log(WAITING_LATE, [], []), SelectDone(2)) == Log(LEAVING_LATE, [], [])
    ensures Advance(Log(LEAVING_LATE, [], []), Leave(2)) == Log(RUNNING_AGAIN, [], [])
  {
  }

  function LateWait(): seq<Action> {
    [BeginWait(2, false)] + ([Arm(2)] + ([SelectDone(2)] + ([Leave(2)] + [])))
  }

  /** A run in which a stop is forgotten: the session is stopped and its context done; a wait that begins
      after that leaves at once, and the session counts as running. */
  lemma StopForgotten()
    ensures Play(START, [SetCancel] + ([StopLookup(1)] + ([StopApply(1)] + LateWait()))).state == RUNNING_AGAIN
  {
    var stopped, arming, waiting, leaving :=
      Log(STOPPED, [], []), Log(ARMING_LATE, [], []), Log(WAITING_LATE, [], []), Log(LEAVING_LATE, [], []);
    StopSteps();
    LateWaitSteps();
    LateLeaveSteps();
    var cancellable, stopping := Log(CANCELLABLE, [], []), Log(STOPPING, [], []);
    PlayTwo(START, SetCancel, cancellable, StopLookup(1), stopping, [StopApply(1)] + LateWait());
    PlayTwo(stopping, StopApply(1), stopped, BeginWait(2, false), arming,
            [Arm(2)] + ([SelectDone(2)] + ([Leave(2)] + [])));
    PlayTwo(arming, Arm(2), waiting, SelectDone(2), leaving, [Leave(2)] + []);
    assert [Leave(2)] + [] == [Leave(2)];
    PlayOne(leaving, Leave(2));
  }
}
