/**
 * The router's handleIO as interleaved steps: two copier goroutines, a buffered result channel, the
 * waiting caller, a safety timer, and a close body behind a sync.Once. A schedule may take the steps
 * in any order; how many bytes a copier moves before its copy ends is up to the environment.
 */
module HandleIO {
  import opened Bytes

  // ---- Endpoints ----

  // Endpoints are object identities; `closers` and `halfClosers` say which interfaces they satisfy.
  datatype Endpoints = Endpoints(conn: int, w: int, r: int, closers: set<int>, halfClosers: set<int>)

  /** What the close body closes, in order: the connection, then the writer and reader unless already in the list. */
  function Targets(e: Endpoints): (t: seq<int>) {
    var wCloser := if e.w in e.closers && e.w != e.conn then [e.w] else [];
    var rCloser := if e.r in e.closers && e.r != e.conn && e.r !in wCloser then [e.r] else [];
    [e.conn] + wCloser + rCloser
  }

  /** No endpoint is closed twice, everything that can be closed is, and the connection goes first, the reader last. */
  lemma TargetsAreExact(e: Endpoints)
    ensures forall i, j | 0 <= i < j < |Targets(e)| :: Targets(e)[i] != Targets(e)[j]
    ensures forall x :: x in Targets(e) <==> x == e.conn || (x in {e.w, e.r} && x in e.closers)
    ensures Targets(e)[0] == e.conn
    ensures e.conn != e.w && e.conn != e.r && e.w != e.r && {e.w, e.r} <= e.closers ==> Targets(e) == [e.conn, e.w, e.r]
  {
    var wCloser := if e.w in e.closers && e.w != e.conn then [e.w] else [];
    assert forall x :: x in wCloser <==> x == e.w && e.w in e.closers && e.w != e.conn;
    assert forall x :: x in Targets(e) <==> x == e.conn || x in wCloser || (x == e.r && e.r in e.closers && e.r != e.conn);
  }

  // ---- States ----

  const CAPACITY: nat := 2

  datatype Dir = SNT | RCV

  datatype Copier = Copying | Signalling | Reporting | Gone

  datatype Caller = AwaitFirst | Arming | AwaitSecond | Stopping | Closing | Returned

  datatype Timer = Unarmed | Armed | Firing | Stopped | Ended

  datatype Runner = ByCaller | ByTimer

  // A sync.Once: a second caller waits while the body is running.
  datatype Once = Idle | Running(runner: Runner, stage: nat) | Done

  // `closes` logs what the close body closed; `closed` also has what signalEndOfWrite had to close.
  datatype State = State(
    snt: Copier,
    rcv: Copier,
    channel: seq<Dir>,
    received: seq<Dir>,
    caller: Caller,
    timer: Timer,
    once: Once,
    bodies: nat,
    closes: seq<int>,
    closed: set<int>,
    halfClosed: set<int>)
  {
    function At(d: Dir): Copier {
      if d == SNT then snt else rcv
    }

    function Move(d: Dir, c: Copier): State {
      if d == SNT then this.(snt := c) else this.(rcv := c)
    }
  }

  const START := State(Copying, Copying, [], [], AwaitFirst, Unarmed, Idle, 0, [], {}, {})

  datatype Action =
    | EndCopy(d: Dir) | Signal(d: Dir) | Report(d: Dir)
    | ReceiveFirst | ArmTimer | ReceiveSecond | StopTimer | CallerCloses
    | TimerFires | TimerCloses | CloseNext

  /** `signalEndOfWrite`: a half close where there is one, else a full close where there is one. */
  function EndOfWrite(e: Endpoints, s: State, dst: int): (t: State)
    ensures t == s.(closed := t.closed, halfClosed := t.halfClosed)
  {
    if dst in e.halfClosers then s.(halfClosed := s.halfClosed + {dst})
    else if dst in e.closers then s.(closed := s.closed + {dst})
    else s
  }

  /** Entering `once.Do`; None while another goroutine runs the body. */
  function Enter(s: State, runner: Runner): Option<State> {
    match s.once
    case Idle => Some(s.(once := Running(runner, 0), bodies := s.bodies + 1))
    case Running(_, _) => None
    case Done => Some(if runner == ByCaller then s.(caller := Returned) else s.(timer := Ended))
  }

  /** One step, or None where the goroutine would block or is somewhere else. */
  function Next(e: Endpoints, s: State, a: Action): Option<State> {
    match a
    case EndCopy(d) => if s.At(d).Copying? then Some(s.Move(d, Signalling)) else None
    case Signal(d) =>
      if s.At(d).Signalling? then Some(EndOfWrite(e, s, if d == SNT then e.conn else e.w).Move(d, Reporting)) else None
    case Report(d) =>
      if s.At(d).Reporting? && |s.channel| < CAPACITY then Some(s.(channel := s.channel + [d]).Move(d, Gone)) else None
    case ReceiveFirst =>
      if s.caller.AwaitFirst? && s.channel != []
      then Some(s.(received := s.received + [s.channel[0]], channel := s.channel[1..], caller := Arming)) else None
    case ArmTimer => if s.caller.Arming? then Some(s.(timer := Armed, caller := AwaitSecond)) else None
    case ReceiveSecond =>
      if s.caller.AwaitSecond? && s.channel != []
      then Some(s.(received := s.received + [s.channel[0]], channel := s.channel[1..], caller := Stopping)) else None
    case StopTimer =>
      if s.caller.Stopping? then Some(s.(timer := if s.timer.Armed? then Stopped else s.timer, caller := Closing)) else None
    case CallerCloses => if s.caller.Closing? then Enter(s, ByCaller) else None
    case TimerFires => if s.timer.Armed? then Some(s.(timer := Firing)) else None
    case TimerCloses => if s.timer.Firing? then Enter(s, ByTimer) else None
    case CloseNext =>
      match s.once
      case Running(runner, stage) =>
        if stage < |Targets(e)| then
          var x := Targets(e)[stage];
          Some(s.(once := Running(runner, stage + 1), closes := s.closes + [x], closed := s.closed + {x}))
        else Some(s.(once := Done))
      case _ => None
  }

  // ---- Safety ----

  /** Each direction that is gone has reported once, in the order of arrival. */
  predicate ReportsAddUp(s: State) {
    var reports := s.received + s.channel;
    if s.snt.Gone? && s.rcv.Gone? then reports == [SNT, RCV] || reports == [RCV, SNT]
    else if s.snt.Gone? then reports == [SNT]
    else if s.rcv.Gone? then reports == [RCV]
    else reports == []
  }

  /** The caller has taken as many reports as its position says. */
  predicate CallerCounts(s: State) {
    |s.received| == match s.caller case AwaitFirst => 0 case Arming => 1 case AwaitSecond => 1 case _ => 2
  }

  /** The timer fired after the first report, whether or not it has got to close anything yet. */
  predicate TimerFired(s: State) {
    s.timer.Firing? || s.timer.Ended?
  }

  ghost predicate CloseIsGuarded(e: Endpoints, s: State) {
    && (s.timer.Unarmed? <==> s.caller.AwaitFirst? || s.caller.Arming?)
    && (s.timer.Stopped? ==> s.caller.Closing? || s.caller.Returned?)
    && (s.caller.Closing? || s.caller.Returned? ==> !s.timer.Armed?)
    && (s.timer.Ended? || s.caller.Returned? ==> s.once.Done?)
    && s.bodies == (if s.once.Idle? then 0 else 1)
    && (!s.once.Idle? ==> |s.received| == 2 || TimerFired(s))
    && (e.conn in s.closed && e.conn in e.halfClosers ==> !s.once.Idle?)
    && match s.once
       case Idle => s.closes == []
       case Running(runner, stage) =>
         && stage <= |Targets(e)| && s.closes == Targets(e)[..stage]
         && (if runner == ByCaller then s.caller.Closing? else s.timer.Firing?)
       case Done => s.closes == Targets(e)
  }

  /** Direction `d` has said that it will write no more. */
  predicate Signalled(s: State, d: Dir) {
    s.At(d).Reporting? || s.At(d).Gone?
  }

  /** `x` is what some direction writes to that has signalled: the connection for what is sent, the writer for what is received. */
  predicate WriteEnded(e: Endpoints, s: State, x: int) {
    (Signalled(s, SNT) && x == e.conn) || (Signalled(s, RCV) && x == e.w)
  }

  /** Exactly the endpoints whose writing has ended are half closed, or closed where there is no half close; the rest is the close body's. */
  ghost predicate EndsAreSignalled(e: Endpoints, s: State) {
    && (forall x :: x in s.halfClosed <==> x in e.halfClosers && WriteEnded(e, s, x))
    && (forall x :: x in s.closed <==> x in s.closes || (x in e.closers && x !in e.halfClosers && WriteEnded(e, s, x)))
  }

  ghost predicate Safe(e: Endpoints, s: State) {
    ReportsAddUp(s) && CallerCounts(s) && CloseIsGuarded(e, s) && EndsAreSignalled(e, s)
  }

  lemma StepKeepsSignals(e: Endpoints, s: State, a: Action)
    requires EndsAreSignalled(e, s) && Next(e, s, a).Some?
    ensures EndsAreSignalled(e, Next(e, s, a).value)
  {
    hide Targets;
    var t := Next(e, s, a).value;
    if a.Signal? || a.Report? || a.EndCopy? {
      assert forall d: Dir :: Signalled(t, d) <==> Signalled(s, d) || (a.Signal? && d == a.d);
    } else {
      assert forall d: Dir :: Signalled(t, d) == Signalled(s, d);
    }
  }

  /** A report adds its direction at the end; every other step leaves the reports and the gone copiers alone. */
  lemma StepOnReports(e: Endpoints, s: State, a: Action)
    requires Next(e, s, a).Some?
    ensures var t := Next(e, s, a).value;
            && t.received + t.channel == s.received + s.channel + (if a.Report? then [a.d] else [])
            && (forall d: Dir :: t.At(d).Gone? <==> s.At(d).Gone? || (a.Report? && a.d == d))
            && (a.Report? ==> !s.At(a.d).Gone?)
            && (CallerCounts(s) ==> CallerCounts(t))
  {
    hide Targets, EndOfWrite;
    var t := Next(e, s, a).value;
    match a {
      case Report(d) =>
        assert t.received + t.channel == (s.received + s.channel) + [d];
      case ReceiveFirst =>
        assert t.received + t.channel == s.received + s.channel;
      case ReceiveSecond =>
        assert t.received + t.channel == s.received + s.channel;
      case _ =>
    }
  }

  lemma StepKeepsReports(e: Endpoints, s: State, a: Action)
    requires ReportsAddUp(s) && CallerCounts(s) && Next(e, s, a).Some?
    ensures ReportsAddUp(Next(e, s, a).value) && CallerCounts(Next(e, s, a).value)
  {
    hide Next, CallerCounts;
    StepOnReports(e, s, a);
    var t := Next(e, s, a).value;
    assert t.snt == t.At(SNT) && t.rcv == t.At(RCV) && s.snt == s.At(SNT) && s.rcv == s.At(RCV);
    if a.Report? {
      assert [] + [a.d] == [a.d] && [SNT] + [RCV] == [SNT, RCV] && [RCV] + [SNT] == [RCV, SNT];
    } else {
      assert s.received + s.channel + [] == s.received + s.channel;
    }
  }

  lemma StepKeepsGuard(e: Endpoints, s: State, a: Action)
    requires CallerCounts(s) && CloseIsGuarded(e, s) && Next(e, s, a).Some?
    ensures CloseIsGuarded(e, Next(e, s, a).value)
  {
    hide Targets;
  }

  // ---- Runs ----

  /** A step of some goroutine, or a pause in which bytes are copied. */
  ghost predicate Moves(e: Endpoints, s: State, t: State) {
    s == t || exists a :: Next(e, s, a) == Some(t)
  }

  /** A schedule: the state after every step, for ever. */
  ghost predicate IsRun(e: Endpoints, run: nat -> State) {
    run(0) == START && forall i: nat :: Moves(e, run(i), run(i + 1))
  }

  lemma {:induction false} RunsAreSafe(e: Endpoints, run: nat -> State, i: nat)
    requires IsRun(e, run)
    ensures Safe(e, run(i))
  {
    hide Next, CloseIsGuarded, ReportsAddUp, CallerCounts, EndsAreSignalled;
    if i == 0 {
      StartIsSafe(e);
    } else {
      RunsAreSafe(e, run, i - 1);
      assert Moves(e, run(i - 1), run(i - 1 + 1));
      if run(i) != run(i - 1) {
        var a :| Next(e, run(i - 1), a) == Some(run(i));
        StepKeepsReports(e, run(i - 1), a);
        StepKeepsGuard(e, run(i - 1), a);
        StepKeepsSignals(e, run(i - 1), a);
      }
    }
  }

  lemma StartIsSafe(e: Endpoints)
    ensures Safe(e, START)
  {
  }

  /**
   * Safety of every schedule: no copier ever blocks on the result channel; the close body runs at most
   * once, and has closed exactly its targets before the call returns; it never starts before both
   * directions reported unless the timer fired, and that only after the first report; and a connection
   * that can be half closed is not closed before that, so the other direction can drain.
   */
  lemma HandleIOIsSafe(e: Endpoints, run: nat -> State, i: nat)
    requires IsRun(e, run)
    ensures var s := run(i);
            && (forall d: Dir | s.At(d).Reporting? :: Next(e, s, Report(d)).Some?)
            && s.bodies <= 1
            && (s.caller.Returned? ==> s.bodies == 1 && s.once.Done? && s.closes == Targets(e))
            && (s.bodies > 0 ==> |s.received| == 2 || TimerFired(s))
            && (TimerFired(s) ==> |s.received| >= 1)
            && (s.caller.Returned? ==> !s.timer.Armed?)
            && (e.conn in e.halfClosers && e.conn in s.closed ==> |s.received| == 2 || TimerFired(s))
  {
    hide Targets;
    RunsAreSafe(e, run, i);
    var s := run(i);
    forall d: Dir | s.At(d).Reporting? ensures Next(e, s, Report(d)).Some? {
      assert |s.channel| <= |s.received + s.channel|;
    }
  }

  /**
   * Who is told, in every schedule: once the sending copy has signalled, the connection is half closed, or closed
   * where it has no half close; once the receiving copy has, the writer is. Nothing else is half closed, and before
   * the close body runs nothing else is closed.
   */
  lemma EndOfWriteIsSignalled(e: Endpoints, run: nat -> State, i: nat)
    requires IsRun(e, run)
    ensures var s := run(i);
            && (s.snt.Reporting? || s.snt.Gone? ==>
                  if e.conn in e.halfClosers then e.conn in s.halfClosed else e.conn in e.closers ==> e.conn in s.closed)
            && (s.rcv.Reporting? || s.rcv.Gone? ==>
                  if e.w in e.halfClosers then e.w in s.halfClosed else e.w in e.closers ==> e.w in s.closed)
            && (forall x | x in s.halfClosed ::
                  (x == e.conn && (s.snt.Reporting? || s.snt.Gone?)) || (x == e.w && (s.rcv.Reporting? || s.rcv.Gone?)))
            && (s.once.Idle? ==> forall x | x in s.closed ::
                  && x in e.closers && x !in e.halfClosers
                  && ((x == e.conn && (s.snt.Reporting? || s.snt.Gone?)) || (x == e.w && (s.rcv.Reporting? || s.rcv.Gone?))))
  {
    hide Targets, Next;
    RunsAreSafe(e, run, i);
    var s := run(i);
    assert s.At(SNT) == s.snt && s.At(RCV) == s.rcv;
    assert Signalled(s, SNT) ==> WriteEnded(e, s, e.conn);
    assert Signalled(s, RCV) ==> WriteEnded(e, s, e.w);
  }

  // ---- Progress ----

  /** Some direction's copy has ended. */
  predicate Begun(s: State) {
    !(s.snt.Copying? && s.rcv.Copying?)
  }

  /**
   * Steps that need no outside help. A copy that is still going on is only sure to end once everything
   * has been closed: that closing unblocks I/O is the assumption here.
   */
  predicate Guaranteed(e: Endpoints, s: State, a: Action) {
    Next(e, s, a).Some? && (a.EndCopy? ==> s.once.Done?)
  }

  /** No guaranteed step is put off for ever. */
  ghost predicate Fair(e: Endpoints, run: nat -> State) {
    forall i: nat, a: Action | Guaranteed(e, run(i), a) :: exists j: nat :: Honoured(e, run, i, a, j)
  }

  ghost predicate Honoured(e: Endpoints, run: nat -> State, i: nat, a: Action, j: nat) {
    i <= j && (!Guaranteed(e, run(j), a) || Next(e, run(j), a) == Some(run(j + 1)))
  }

  /** Once a copy has ended, some step is guaranteed until the call has returned: there is no deadlock. */
  lemma NothingGetsStuck(e: Endpoints, s: State) returns (a: Action)
    requires Safe(e, s) && Begun(s) && !s.caller.Returned?
    ensures Guaranteed(e, s, a)
  {
    hide Targets;
    match s.caller {
      case Arming => a := ArmTimer;
      case Stopping => a := StopTimer;
      case Closing => a := if s.once.Running? then CloseNext else CallerCloses;
      case AwaitFirst =>
        if s.channel != [] {
          a := ReceiveFirst;
        } else {
          var d := if s.snt.Copying? then RCV else SNT;
          a := if s.At(d).Signalling? then Signal(d) else Report(d);
        }
      case AwaitSecond =>
        if s.channel != [] {
          a := ReceiveSecond;
        } else {
          var d := if s.snt.Gone? then RCV else SNT;
          a := match s.At(d)
               case Signalling => Signal(d)
               case Reporting => Report(d)
               case _ => CloserStep(s, d);
        }
    }
  }

  // What moves on while direction `d` is still copying.
  function CloserStep(s: State, d: Dir): Action {
    if s.timer.Armed? then TimerFires
    else if s.once.Done? then EndCopy(d)
    else if s.once.Running? then CloseNext
    else TimerCloses
  }

  /** Steps left, if everything that can happen does. */
  function Rank(e: Endpoints, s: State): nat {
    CopierRank(s.snt) + CopierRank(s.rcv) + CallerRank(s.caller) + TimerRank(s.timer) + OnceRank(s.once, |Targets(e)|)
  }

  function CopierRank(c: Copier): nat {
    match c case Copying => 3 case Signalling => 2 case Reporting => 1 case Gone => 0
  }

  function CallerRank(c: Caller): nat {
    match c case AwaitFirst => 5 case Arming => 4 case AwaitSecond => 3 case Stopping => 2 case Closing => 1 case Returned => 0
  }

  function TimerRank(t: Timer): nat {
    match t case Unarmed => 3 case Armed => 2 case Firing => 1 case _ => 0
  }

  function OnceRank(o: Once, targets: nat): nat {
    match o
    case Idle => targets + 2
    case Running(_, stage) => if stage <= targets then targets - stage + 1 else 1
    case Done => 0
  }

  lemma StepLowersRank(e: Endpoints, s: State, a: Action)
    requires Next(e, s, a).Some? && CloseIsGuarded(e, s)
    ensures Rank(e, Next(e, s, a).value) < Rank(e, s)
  {
    hide Targets, EndOfWrite;
    var t := Next(e, s, a).value;
    if a.EndCopy? || a.Signal? || a.Report? {
      assert CopierRank(t.At(a.d)) < CopierRank(s.At(a.d));
    }
  }

  lemma StepKeepsBegun(e: Endpoints, s: State, a: Action)
    requires Next(e, s, a).Some? && Begun(s)
    ensures Begun(Next(e, s, a).value)
  {
    hide Targets, EndOfWrite;
  }

  /** Along a run the rank never grows, and while it stays the same nothing happens. */
  lemma {:induction false} RankNeverGrows(e: Endpoints, run: nat -> State, i: nat, j: nat)
    requires IsRun(e, run) && i <= j
    ensures Rank(e, run(j)) <= Rank(e, run(i))
    ensures Rank(e, run(j)) == Rank(e, run(i)) ==> run(j) == run(i)
    ensures Begun(run(i)) ==> Begun(run(j))
    decreases j
  {
    hide Next, Rank, CloseIsGuarded, ReportsAddUp, CallerCounts, EndsAreSignalled, Begun;
    if i < j {
      RankNeverGrows(e, run, i, j - 1);
      assert Moves(e, run(j - 1), run(j - 1 + 1));
      if run(j) != run(j - 1) {
        var a :| Next(e, run(j - 1), a) == Some(run(j));
        RunsAreSafe(e, run, j - 1);
        StepLowersRank(e, run(j - 1), a);
        if Begun(run(j - 1)) {
          StepKeepsBegun(e, run(j - 1), a);
        }
      }
    }
  }

  /** Progress: once a direction's copy has ended, every fair schedule returns. */
  lemma {:induction false} FairRunsReturn(e: Endpoints, run: nat -> State, i: nat)
    requires IsRun(e, run) && Fair(e, run) && Begun(run(i))
    ensures exists j: nat :: i <= j && run(j).caller.Returned?
    decreases Rank(e, run(i))
  {
    hide Next, Rank, Guaranteed, CloseIsGuarded, ReportsAddUp, CallerCounts, EndsAreSignalled, Begun;
    if !run(i).caller.Returned? {
      RunsAreSafe(e, run, i);
      var a := NothingGetsStuck(e, run(i));
      var j: nat :| Honoured(e, run, i, a, j);
      RankNeverGrows(e, run, i, j);
      RankNeverGrows(e, run, j, j + 1);
      if Next(e, run(j), a) == Some(run(j + 1)) {
        RunsAreSafe(e, run, j);
        StepLowersRank(e, run(j), a);
        FairRunsReturn(e, run, j + 1);
      } else {
        FairRunsReturn(e, run, j);
      }
    }
  }

  /** Exactly then: a fair schedule returns if and only if some copy ends. */
  lemma FairRunReturnsIff(e: Endpoints, run: nat -> State)
    requires IsRun(e, run) && Fair(e, run)
    ensures (exists j: nat :: run(j).caller.Returned?) <==> (exists i: nat :: Begun(run(i)))
  {
    hide Next, Fair, Rank;
    if i: nat :| Begun(run(i)) {
      FairRunsReturn(e, run, i);
    }
    if j: nat :| run(j).caller.Returned? {
      RunsAreSafe(e, run, j);
      assert |run(j).received + run(j).channel| >= 2;
      assert Begun(run(j));
    }
  }

  // ---- Fair schedules exist ----

  /** A schedule that ends one copy and then takes some guaranteed step as long as there is one. */
  ghost function Greedy(e: Endpoints, i: nat): State {
    if i == 0 then START
    else if i == 1 then START.(snt := Signalling)
    else
      var s := Greedy(e, i - 1);
      if exists a :: Guaranteed(e, s, a) then
        var a :| Guaranteed(e, s, a);
        Next(e, s, a).value
      else s
  }

  ghost predicate AtRest(e: Endpoints, s: State) {
    forall a :: !Guaranteed(e, s, a)
  }

  lemma GreedyMoves(e: Endpoints, i: nat)
    ensures Moves(e, Greedy(e, i), Greedy(e, i + 1))
    ensures i > 0 && AtRest(e, Greedy(e, i)) ==> Greedy(e, i + 1) == Greedy(e, i)
    ensures i > 0 && !AtRest(e, Greedy(e, i)) ==> exists a :: Next(e, Greedy(e, i), a) == Some(Greedy(e, i + 1))
  {
    if i == 0 {
      assert Next(e, START, EndCopy(SNT)) == Some(Greedy(e, 1));
    }
  }

  lemma {:induction false} GreedyComesToRest(e: Endpoints, i: nat)
    requires i > 0
    ensures Safe(e, Greedy(e, i))
    ensures AtRest(e, Greedy(e, i)) || Rank(e, Greedy(e, i)) + i <= Rank(e, Greedy(e, 1)) + 1
  {
    hide Next, Rank, Guaranteed, CloseIsGuarded, ReportsAddUp, CallerCounts, EndsAreSignalled, Greedy, Moves;
    if i == 1 {
      GreedyBegins(e);
    } else {
      GreedyComesToRest(e, i - 1);
      GreedyMoves(e, i - 1);
      var s := Greedy(e, i - 1);
      if !AtRest(e, s) {
        var a :| Next(e, s, a) == Some(Greedy(e, i));
        StepKeepsReports(e, s, a);
        StepKeepsGuard(e, s, a);
        StepKeepsSignals(e, s, a);
        StepLowersRank(e, s, a);
      }
    }
  }

  lemma GreedyBegins(e: Endpoints)
    ensures Greedy(e, 0) == START && Safe(e, Greedy(e, 1)) && Begun(Greedy(e, 1))
  {
  }

  lemma {:induction false} RestStays(e: Endpoints, i: nat, j: nat)
    requires 0 < i <= j && AtRest(e, Greedy(e, i))
    ensures Greedy(e, j) == Greedy(e, i)
    decreases j
  {
    hide Guaranteed, Greedy;
    if i < j {
      RestStays(e, i, j - 1);
      GreedyMoves(e, j - 1);
    }
  }

  /** So there are fair schedules of both kinds: one that returns, and one in which both copies go on for ever. */
  lemma FairRunsExist(e: Endpoints)
    ensures exists run: nat -> State :: IsRun(e, run) && Fair(e, run) && exists j: nat :: run(j).caller.Returned?
    ensures exists run: nat -> State :: IsRun(e, run) && Fair(e, run) && forall i: nat :: !Begun(run(i))
  {
    GreedyIsFair(e);
    GreedyBegins(e);
    var run := (i: nat) => Greedy(e, i);
    assert Begun(run(1));
    FairRunReturnsIff(e, run);
    CopyingForEver(e);
  }

  lemma CopyingForEver(e: Endpoints)
    ensures var run := (i: nat) => START; IsRun(e, run) && Fair(e, run) && forall i: nat :: !Begun(run(i))
  {
    var run := (i: nat) => START;
    assert forall a :: !Guaranteed(e, START, a);
  }

  lemma GreedyIsFair(e: Endpoints)
    ensures var run := (i: nat) => Greedy(e, i); IsRun(e, run) && Fair(e, run)
  {
    hide Next, Rank, Guaranteed, Greedy, CloseIsGuarded, ReportsAddUp, CallerCounts, EndsAreSignalled, Moves;
    var run := (i: nat) => Greedy(e, i);
    GreedyBegins(e);
    forall i: nat ensures Moves(e, run(i), run(i + 1)) {
      GreedyMoves(e, i);
    }
    var n := Rank(e, Greedy(e, 1)) + 2;
    GreedyComesToRest(e, n);
    forall i: nat, a: Action | Guaranteed(e, run(i), a) ensures exists j: nat :: Honoured(e, run, i, a, j) {
      var j := if i <= n then n else i;
      RestStays(e, n, j);
      assert Honoured(e, run, i, a, j);
    }
  }
}
