/** Step counters and results of a session while callbacks finish concurrently: OnStepComplete
    (gulu/internal/executor/sse_callback.go) over IncrementSuccess, IncrementFailed and AddStepResult
    (gulu/internal/executor/session_manager.go). A callback takes the session lock twice: once to count,
    once to append its result. */
module StepAccounting {

  datatype ResultStatus = Success | Failed | Timeout | Skipped

  /** A callback in progress: its step's status, and whether it is past the counting. */
  datatype Callback = Callback(status: ResultStatus, counted: bool)

  datatype State = State(
    total: int, success: int, failed: int,
    results: seq<bool>,               // the Success field of each recorded result
    pending: map<int, Callback>)

  const INITIAL := State(0, 0, 0, [], map[])

  datatype Action = Complete(c: int, status: ResultStatus) | CountStep(c: int) | AddResult(c: int)

  predicate Can(s: State, a: Action) {
    match a
    case Complete(c, _) => c !in s.pending
    case CountStep(c) => c in s.pending && !s.pending[c].counted
    case AddResult(c) => c in s.pending && s.pending[c].counted
  }

  /** Success counts as success, skipped not at all, everything else as failed. */
  function Step(s: State, a: Action): State {
    if !Can(s, a) then s else
    match a
    case Complete(c, status) => s.(pending := s.pending[c := Callback(status, false)])
    case CountStep(c) =>
      var t := s.(pending := s.pending[c := s.pending[c].(counted := true)]);
      if s.pending[c].status == Success then t.(total := s.total + 1, success := s.success + 1)
      else if s.pending[c].status != Skipped then t.(total := s.total + 1, failed := s.failed + 1)
      else t
    case AddResult(c) =>
      s.(results := s.results + [s.pending[c].status == Success], pending := s.pending - {c})
  }

  ghost function After(run: seq<Action>): State {
    if run == [] then INITIAL else Step(After(run[..|run| - 1]), run[|run| - 1])
  }

  /** The status of a callback that appends its result in this step. */
  function RecordedBy(s: State, a: Action): seq<ResultStatus> {
    if a.AddResult? && Can(s, a) then [s.pending[a.c].status] else []
  }

  /** Statuses of the finished callbacks, in the order of their results. */
  ghost function Recorded(run: seq<Action>): seq<ResultStatus> {
    if run == [] then [] else Recorded(run[..|run| - 1]) + RecordedBy(After(run[..|run| - 1]), run[|run| - 1])
  }

  datatype Kind = Good | Bad | Uncounted

  function KindOf(status: ResultStatus): Kind {
    if status == Success then Good else if status == Skipped then Uncounted else Bad
  }

  function Tally(rec: seq<ResultStatus>, kind: Kind): nat {
    if rec == [] then 0
    else Tally(rec[..|rec| - 1], kind) + if KindOf(rec[|rec| - 1]) == kind then 1 else 0
  }

  /** Callbacks that have counted but not yet recorded. */
  ghost function Between(s: State, kind: Kind): set<int> {
    set c | c in s.pending && s.pending[c].counted && KindOf(s.pending[c].status) == kind
  }

  function Marked(results: seq<bool>): nat {
    if results == [] then 0 else Marked(results[..|results| - 1]) + if results[|results| - 1] then 1 else 0
  }

  ghost predicate Inv(s: State, rec: seq<ResultStatus>) {
    && s.total == s.success + s.failed
    && s.success == Tally(rec, Good) + |Between(s, Good)|
    && s.failed == Tally(rec, Bad) + |Between(s, Bad)|
    && |s.results| == |rec| && Marked(s.results) == Tally(rec, Good)
  }

  lemma TallyPush(rec: seq<ResultStatus>, x: ResultStatus, kind: Kind)
    ensures Tally(rec + [x], kind) == Tally(rec, kind) + if KindOf(x) == kind then 1 else 0
  {
    assert (rec + [x])[..|rec|] == rec;
  }

  lemma CountMember(s: State, c: int, kind: Kind, x: int)
    requires Can(s, CountStep(c))
    ensures x in Between(Step(s, CountStep(c)), kind)
            <==> x in Between(s, kind) || (x == c && KindOf(s.pending[c].status) == kind)
  {
    var t := Step(s, CountStep(c));
    assert t.pending == s.pending[c := s.pending[c].(counted := true)];
  }

  lemma BetweenCount(s: State, c: int, kind: Kind)
    requires Can(s, CountStep(c))
    ensures |Between(Step(s, CountStep(c)), kind)|
            == |Between(s, kind)| + if KindOf(s.pending[c].status) == kind then 1 else 0
  {
    var b, b' := Between(s, kind), Between(Step(s, CountStep(c)), kind);
    var added := if KindOf(s.pending[c].status) == kind then {c} else {};
    forall x ensures x in b' <==> x in b + added { CountMember(s, c, kind, x); }
    assert b' == b + added;
  }

  lemma BetweenAdd(s: State, c: int, kind: Kind)
    requires Can(s, AddResult(c))
    ensures |Between(Step(s, AddResult(c)), kind)|
            == |Between(s, kind)| - if KindOf(s.pending[c].status) == kind then 1 else 0
  {
    var b, b' := Between(s, kind), Between(Step(s, AddResult(c)), kind);
    assert b' == b - {c};
  }

  lemma BetweenStep(s: State, a: Action, kind: Kind)
    ensures var b, b' := Between(s, kind), Between(Step(s, a), kind);
            |b'| == if !Can(s, a) || a.Complete? || KindOf(s.pending[a.c].status) != kind then |b|
                    else if a.CountStep? then |b| + 1 else |b| - 1
  {
    if Can(s, a) {
      match a
      case Complete(c, status) => assert Between(Step(s, a), kind) == Between(s, kind);
      case CountStep(c) => BetweenCount(s, c, kind);
      case AddResult(c) => BetweenAdd(s, c, kind);
    }
  }

  lemma StepInv(s: State, a: Action, rec: seq<ResultStatus>)
    requires Inv(s, rec)
    ensures Inv(Step(s, a), rec + RecordedBy(s, a))
  {
    BetweenStep(s, a, Good);
    BetweenStep(s, a, Bad);
    if a.AddResult? && Can(s, a) {
      var x := s.pending[a.c].status;
      TallyPush(rec, x, Good);
      TallyPush(rec, x, Bad);
      assert (s.results + [x == Success])[..|s.results|] == s.results;
    } else {
      assert rec + [] == rec;
    }
  }

  lemma {:induction false} InvHolds(run: seq<Action>)
    ensures Inv(After(run), Recorded(run))
    decreases |run|
  {
    if run == [] {
      assert Between(INITIAL, Good) == {} && Between(INITIAL, Bad) == {};
    } else {
      InvHolds(run[..|run| - 1]);
      StepInv(After(run[..|run| - 1]), run[|run| - 1], Recorded(run[..|run| - 1]));
    }
  }

  lemma {:induction false} TallySplits(rec: seq<ResultStatus>)
    ensures |rec| == Tally(rec, Good) + Tally(rec, Bad) + Tally(rec, Uncounted)
    decreases |rec|
  {
    if rec != [] { TallySplits(rec[..|rec| - 1]); }
  }

  /** The tallies, by status. */
  lemma {:induction false} TallyIsCount(rec: seq<ResultStatus>)
    ensures Tally(rec, Good) == multiset(rec)[Success]
    ensures Tally(rec, Bad) == multiset(rec)[Failed] + multiset(rec)[Timeout]
    ensures Tally(rec, Uncounted) == multiset(rec)[Skipped]
    decreases |rec|
  {
    if rec != [] {
      TallyIsCount(rec[..|rec| - 1]);
      assert rec == rec[..|rec| - 1] + [rec[|rec| - 1]];
    }
  }

  lemma StepResults(s: State, a: Action)
    ensures Step(s, a).results == s.results +
              if RecordedBy(s, a) == [] then [] else [RecordedBy(s, a)[0] == Success]
    ensures |RecordedBy(s, a)| <= 1
  {
  }

  /** The results stand in the order in which they were appended, each marked by its own status. */
  lemma {:induction false} ResultsInOrder(run: seq<Action>)
    ensures |After(run).results| == |Recorded(run)|
    ensures forall i :: 0 <= i < |Recorded(run)| ==> (After(run).results[i] <==> Recorded(run)[i] == Success)
    decreases |run|
  {
    if run != [] {
      ResultsInOrder(run[..|run| - 1]);
      StepResults(After(run[..|run| - 1]), run[|run| - 1]);
    }
  }

  /** A callback counts and records the status its step completed with. */
  lemma {:induction false} PendingBegan(run: seq<Action>, c: int)
    requires c in After(run).pending
    ensures Complete(c, After(run).pending[c].status) in run
    decreases |run|
  {
    var front := run[..|run| - 1];
    assert run == front + [run[|run| - 1]];
    if c in After(front).pending { PendingBegan(front, c); }
  }

  /** In every interleaving total is success plus failed, and success is never behind the results marked
      success; when no callback is in progress success is the number of successful steps, failed that of failed
      and timed-out ones, and skipped steps are in the results alone. */
  lemma Accounts(run: seq<Action>)
    ensures var s, rec := After(run), Recorded(run);
            && s.total == s.success + s.failed
            && multiset(rec)[Success] <= s.success && multiset(rec)[Failed] + multiset(rec)[Timeout] <= s.failed
            && Marked(s.results) == multiset(rec)[Success]
            && |s.results| <= s.total + multiset(rec)[Skipped]
            && (s.pending == map[] ==>
                 && s.success == multiset(rec)[Success]
                 && s.failed == multiset(rec)[Failed] + multiset(rec)[Timeout]
                 && |s.results| == s.total + multiset(rec)[Skipped])
  {
    InvHolds(run);
    TallySplits(Recorded(run));
    TallyIsCount(Recorded(run));
    var s := After(run);
    if s.pending == map[] {
      assert Between(s, Good) == {} && Between(s, Bad) == {};
    }
  }
}
