/** The garbage collector's fan-out (pkg/garbage/collector.go and the worker loop
    in pkg/garbage/projects.go) as a state machine. One distributor hands
    projects to workers over an unbuffered channel, workers report failures over
    a second one to a counter, and closing the channels ends it all. An
    interleaving is any sequence of enabled actions; a cancellation of the
    context may strike at any point. Project i is the i-th listed. */
module CollectorFanOut {

  datatype Worker =
    | Receiving               // in the outer select
    | Cleaning(project: nat)  // inside cleanProject
    | Reporting(project: nat) // in the select that sends on errCh
    | WorkerDone

  datatype Distributor =
    | Distributing(next: nat)
    | AwaitingWorkers // projectCh closed
    | AwaitingCounter // errCh closed
    | Returned(failed: bool)
    | ReturnedCancelled(next: nat)

  datatype State = State(
    main: Distributor,
    workers: seq<Worker>,
    counting: bool,           // the error counter has not returned
    errCount: nat,
    projectChClosed: bool,
    errChClosed: bool,
    cancelled: bool,
    log: seq<(nat, bool)>)    // history: completed calls of cleanProject, and their success

  datatype Action =
    | SendProject(worker: nat)
    | CloseProjects
    | FinishCleaning(worker: nat, ok: bool)
    | SendError(worker: nat)
    | WorkerSeesClosed(worker: nat)
    | WorkersWait
    | CounterSeesClosed
    | CounterWait
    | Cancel
    | DistributorCancelled
    | WorkerCancelled(worker: nat)
    | CounterCancelled

  /** How many workers Run starts. */
  function NumWorkers(configured: int, projects: nat): int
  {
    if configured < projects then configured else projects
  }

  function Initial(workers: nat): State
  {
    State(Distributing(0), seq(workers, i => Receiving), true, 0, false, false, false, [])
  }

  predicate AllDone(ws: seq<Worker>)
  {
    forall w :: 0 <= w < |ws| ==> ws[w].WorkerDone?
  }

  predicate Enabled(n: nat, s: State, a: Action)
  {
    match a
    case SendProject(w) =>
      s.main.Distributing? && s.main.next < n && w < |s.workers| && s.workers[w].Receiving?
    case CloseProjects => s.main == Distributing(n)
    case FinishCleaning(w, _) => w < |s.workers| && s.workers[w].Cleaning?
    case SendError(w) => w < |s.workers| && s.workers[w].Reporting? && s.counting && !s.errChClosed
    case WorkerSeesClosed(w) => w < |s.workers| && s.workers[w].Receiving? && s.projectChClosed
    case WorkersWait => s.main.AwaitingWorkers? && AllDone(s.workers)
    case CounterSeesClosed => s.counting && s.errChClosed
    case CounterWait => s.main.AwaitingCounter? && !s.counting
    case Cancel => !s.cancelled
    case DistributorCancelled => s.cancelled && s.main.Distributing? && s.main.next < n
    case WorkerCancelled(w) =>
      s.cancelled && w < |s.workers| && (s.workers[w].Receiving? || s.workers[w].Reporting?)
    case CounterCancelled => s.cancelled && s.counting
  }

  function Next(n: nat, s: State, a: Action): State
    requires Enabled(n, s, a)
  {
    match a
    case SendProject(w) =>
      s.(main := Distributing(s.main.next + 1), workers := s.workers[w := Cleaning(s.main.next)])
    case CloseProjects => s.(main := AwaitingWorkers, projectChClosed := true)
    case FinishCleaning(w, ok) =>
      var p := s.workers[w].project;
      s.(workers := s.workers[w := if ok then Receiving else Reporting(p)], log := s.log + [(p, ok)])
    case SendError(w) => s.(workers := s.workers[w := Receiving], errCount := s.errCount + 1)
    case WorkerSeesClosed(w) => s.(workers := s.workers[w := WorkerDone])
    case WorkersWait => s.(main := AwaitingCounter, errChClosed := true)
    case CounterSeesClosed => s.(counting := false)
    case CounterWait => s.(main := Returned(s.errCount > 0))
    case Cancel => s.(cancelled := true)
    case DistributorCancelled => s.(main := ReturnedCancelled(s.main.next))
    case WorkerCancelled(w) => s.(workers := s.workers[w := WorkerDone])
    case CounterCancelled => s.(counting := false)
  }

  ghost predicate Interleaving(n: nat, s: State, actions: seq<Action>)
    decreases |actions|
  {
    actions == [] || (Enabled(n, s, actions[0]) && Interleaving(n, Next(n, s, actions[0]), actions[1..]))
  }

  function Exec(n: nat, s: State, actions: seq<Action>): State
    requires Interleaving(n, s, actions)
    decreases |actions|
  {
    if actions == [] then s else Exec(n, Next(n, s, actions[0]), actions[1..])
  }

  ghost predicate Reachable(n: nat, workers: nat, s: State)
  {
    exists actions :: Interleaving(n, Initial(workers), actions) && Exec(n, Initial(workers), actions) == s
  }

  // ----- Counting

  function Sum(ws: seq<Worker>, weight: Worker -> nat): nat
  {
    if ws == [] then 0 else weight(ws[0]) + Sum(ws[1..], weight)
  }

  lemma {:induction false} SumUpdate(ws: seq<Worker>, w: nat, x: Worker, weight: Worker -> nat)
    requires w < |ws|
    ensures Sum(ws[w := x], weight) + weight(ws[w]) == Sum(ws, weight) + weight(x)
  {
    if w == 0 {
      assert ws[w := x][1..] == ws[1..];
    } else {
      assert ws[w := x][1..] == ws[1..][w - 1 := x];
      SumUpdate(ws[1..], w - 1, x, weight);
    }
  }

  lemma {:induction false} SumZero(ws: seq<Worker>, weight: Worker -> nat)
    requires forall w <- ws :: weight(w) == 0
    ensures Sum(ws, weight) == 0
  {
    if ws != [] {
      SumZero(ws[1..], weight);
    }
  }

  function IsReporting(w: Worker): nat { if w.Reporting? then 1 else 0 }

  function Failures(log: seq<(nat, bool)>): nat
  {
    if log == [] then 0
    else Failures(log[..|log| - 1]) + (if log[|log| - 1].1 then 0 else 1)
  }

  // ----- The invariant

  /** How many projects have been handed to workers. */
  function Handed(n: nat, s: State): nat
  {
    match s.main
    case Distributing(k) => k
    case ReturnedCancelled(k) => k
    case _ => n
  }

  predicate InLog(log: seq<(nat, bool)>, p: nat)
  {
    exists e <- log :: e.0 == p
  }

  ghost predicate InHand(ws: seq<Worker>, p: nat)
  {
    exists w :: 0 <= w < |ws| && ws[w] == Cleaning(p)
  }

  ghost predicate Channels(n: nat, s: State)
  {
    && (s.main.Distributing? ==> s.main.next <= n && !s.projectChClosed && !s.errChClosed)
    && (s.main.AwaitingWorkers? ==> s.projectChClosed && !s.errChClosed)
    && (s.main.AwaitingCounter? || s.main.Returned? ==>
          s.projectChClosed && s.errChClosed && AllDone(s.workers))
    && (s.main.Returned? ==> !s.counting && s.main.failed == (s.errCount > 0))
    && (s.main.ReturnedCancelled? ==> s.main.next < n && s.cancelled && !s.projectChClosed && !s.errChClosed)
    && (!s.counting ==> s.errChClosed || s.cancelled)
    && (forall w :: 0 <= w < |s.workers| && s.workers[w].WorkerDone? ==> s.projectChClosed || s.cancelled)
  }

  /** What is in hand has been handed out and is not in the log yet. */
  ghost predicate HeldFresh(ws: seq<Worker>, log: seq<(nat, bool)>, handed: nat)
  {
    forall p: nat :: InHand(ws, p) ==> p < handed && !InLog(log, p)
  }

  ghost predicate HeldApart(ws: seq<Worker>)
  {
    forall v, w :: 0 <= v < w < |ws| && ws[v].Cleaning? ==> ws[v] != ws[w]
  }

  ghost predicate LoggedOnce(log: seq<(nat, bool)>, handed: nat)
  {
    && (forall e <- log :: e.0 < handed)
    && (forall i, j :: 0 <= i < j < |log| ==> log[i].0 != log[j].0)
  }

  ghost predicate Accounted(ws: seq<Worker>, log: seq<(nat, bool)>, handed: nat)
  {
    forall p: nat :: p < handed ==> InHand(ws, p) || InLog(log, p)
  }

  /** Every handed-out project is with exactly one worker or in the log, once. */
  ghost predicate Custody(n: nat, s: State)
  {
    && HeldFresh(s.workers, s.log, Handed(n, s))
    && HeldApart(s.workers)
    && LoggedOnce(s.log, Handed(n, s))
    && Accounted(s.workers, s.log, Handed(n, s))
  }

  ghost predicate Tally(s: State)
  {
    && s.errCount + Sum(s.workers, IsReporting) <= Failures(s.log)
    && (!s.cancelled ==> s.errCount + Sum(s.workers, IsReporting) == Failures(s.log))
  }

  ghost predicate Inv(n: nat, s: State)
  {
    Channels(n, s) && Custody(n, s) && Tally(s)
  }

  lemma {:induction false} InitialInv(n: nat, workers: nat)
    ensures Inv(n, Initial(workers))
  {
    SumZero(Initial(workers).workers, IsReporting);
  }

  lemma {:induction false} ChannelsKept(n: nat, s: State, a: Action)
    requires Enabled(n, s, a) && Channels(n, s)
    ensures Channels(n, Next(n, s, a))
  {
  }

  lemma {:induction false} TallyKept(n: nat, s: State, a: Action)
    requires Enabled(n, s, a) && Tally(s)
    ensures Tally(Next(n, s, a))
  {
    match a
    case SendProject(w) => SumUpdate(s.workers, w, Cleaning(s.main.next), IsReporting);
    case FinishCleaning(w, ok) =>
      var p := s.workers[w].project;
      SumUpdate(s.workers, w, if ok then Receiving else Reporting(p), IsReporting);
      assert (s.log + [(p, ok)])[..|s.log|] == s.log;
    case SendError(w) => SumUpdate(s.workers, w, Receiving, IsReporting);
    case WorkerSeesClosed(w) => SumUpdate(s.workers, w, WorkerDone, IsReporting);
    case WorkerCancelled(w) => SumUpdate(s.workers, w, WorkerDone, IsReporting);
    case _ =>
  }

  /** What is in hand once worker w holds x. */
  lemma {:induction false} InHandUpdate(ws: seq<Worker>, w: nat, x: Worker, p: nat)
    requires w < |ws| && HeldApart(ws)
    ensures InHand(ws[w := x], p) <==> x == Cleaning(p) || (InHand(ws, p) && ws[w] != Cleaning(p))
  {
    var us := ws[w := x];
    assert us[w] == x;
    if v :| 0 <= v < |ws| && ws[v] == Cleaning(p) && v != w {
      assert us[v] == ws[v];
    }
  }

  lemma {:induction false} HeldApartUpdate(ws: seq<Worker>, w: nat, x: Worker)
    requires w < |ws| && HeldApart(ws)
    requires x.Cleaning? ==> !InHand(ws, x.project)
    ensures HeldApart(ws[w := x])
  {
  }

  lemma {:induction false} InLogAppend(log: seq<(nat, bool)>, e: (nat, bool), p: nat)
    ensures InLog(log + [e], p) <==> InLog(log, p) || e.0 == p
  {
    assert forall d :: d in log + [e] <==> d in log || d == e;
  }

  lemma {:induction false} LoggedOnceAppend(log: seq<(nat, bool)>, e: (nat, bool), handed: nat)
    requires LoggedOnce(log, handed) && !InLog(log, e.0) && e.0 < handed
    ensures LoggedOnce(log + [e], handed)
  {
    assert forall i :: 0 <= i < |log| ==> log[i] in log;
  }

  /** A worker receives project k. */
  lemma {:induction false} SendKeepsCustody(ws: seq<Worker>, log: seq<(nat, bool)>, w: nat, k: nat, handed: nat)
    requires w < |ws| && ws[w].Receiving? && handed == k + 1
    requires HeldFresh(ws, log, k) && HeldApart(ws) && LoggedOnce(log, k) && Accounted(ws, log, k)
    ensures HeldFresh(ws[w := Cleaning(k)], log, handed) && HeldApart(ws[w := Cleaning(k)])
    ensures LoggedOnce(log, handed) && Accounted(ws[w := Cleaning(k)], log, handed)
  {
    HeldApartUpdate(ws, w, Cleaning(k));
    var us := ws[w := Cleaning(k)];
    assert !InLog(log, k);
    forall p: nat | InHand(us, p)
      ensures p < handed && !InLog(log, p)
    {
      InHandUpdate(ws, w, Cleaning(k), p);
    }
    forall p: nat | p < handed
      ensures InHand(us, p) || InLog(log, p)
    {
      InHandUpdate(ws, w, Cleaning(k), p);
    }
  }

  /** A worker is done with its project, which goes to the log. */
  lemma {:induction false} FinishKeepsCustody(
    ws: seq<Worker>, log: seq<(nat, bool)>, w: nat, x: Worker, e: (nat, bool), handed: nat)
    requires w < |ws| && ws[w] == Cleaning(e.0) && !x.Cleaning?
    requires HeldFresh(ws, log, handed) && HeldApart(ws) && LoggedOnce(log, handed)
    ensures HeldFresh(ws[w := x], log + [e], handed) && HeldApart(ws[w := x])
    ensures LoggedOnce(log + [e], handed)
    ensures Accounted(ws, log, handed) ==> Accounted(ws[w := x], log + [e], handed)
  {
    assert InHand(ws, e.0);
    HeldApartUpdate(ws, w, x);
    LoggedOnceAppend(log, e, handed);
    var us, longer := ws[w := x], log + [e];
    forall p: nat | InHand(us, p)
      ensures p < handed && !InLog(longer, p)
    {
      InHandUpdate(ws, w, x, p);
      InLogAppend(log, e, p);
    }
    forall p: nat | p < handed && Accounted(ws, log, handed)
      ensures InHand(us, p) || InLog(longer, p)
    {
      InHandUpdate(ws, w, x, p);
      InLogAppend(log, e, p);
    }
  }

  /** A worker without a project still has none. */
  lemma {:induction false} IdleKeepsCustody(ws: seq<Worker>, log: seq<(nat, bool)>, w: nat, x: Worker, handed: nat)
    requires w < |ws| && !ws[w].Cleaning? && !x.Cleaning?
    requires HeldFresh(ws, log, handed) && HeldApart(ws)
    ensures HeldFresh(ws[w := x], log, handed) && HeldApart(ws[w := x])
    ensures Accounted(ws, log, handed) ==> Accounted(ws[w := x], log, handed)
  {
    HeldApartUpdate(ws, w, x);
    var us := ws[w := x];
    forall p: nat | InHand(us, p)
      ensures p < handed && !InLog(log, p)
    {
      InHandUpdate(ws, w, x, p);
    }
    forall p: nat | p < handed && Accounted(ws, log, handed)
      ensures InHand(us, p) || InLog(log, p)
    {
      InHandUpdate(ws, w, x, p);
    }
  }

  lemma {:induction false} CustodyKept(n: nat, s: State, a: Action)
    requires Enabled(n, s, a) && Channels(n, s) && Custody(n, s)
    ensures Custody(n, Next(n, s, a))
  {
    match a
    case SendProject(w) => SendKeepsCustody(s.workers, s.log, w, s.main.next, s.main.next + 1);
    case FinishCleaning(w, ok) =>
      var p := s.workers[w].project;
      FinishKeepsCustody(s.workers, s.log, w, if ok then Receiving else Reporting(p), (p, ok), Handed(n, s));
    case SendError(w) => IdleKeepsCustody(s.workers, s.log, w, Receiving, Handed(n, s));
    case WorkerSeesClosed(w) => IdleKeepsCustody(s.workers, s.log, w, WorkerDone, Handed(n, s));
    case WorkerCancelled(w) => IdleKeepsCustody(s.workers, s.log, w, WorkerDone, Handed(n, s));
    case _ =>
  }

  lemma {:induction false} InvKept(n: nat, s: State, a: Action)
    requires Enabled(n, s, a) && Inv(n, s)
    ensures Inv(n, Next(n, s, a))
  {
    ChannelsKept(n, s, a);
    TallyKept(n, s, a);
    CustodyKept(n, s, a);
  }

  lemma {:induction false} ExecKeepsInv(n: nat, s: State, actions: seq<Action>)
    requires Inv(n, s) && Interleaving(n, s, actions)
    ensures Inv(n, Exec(n, s, actions)) && |Exec(n, s, actions).workers| == |s.workers|
    decreases |actions|
  {
    if actions != [] {
      InvKept(n, s, actions[0]);
      ExecKeepsInv(n, Next(n, s, actions[0]), actions[1..]);
    }
  }

  lemma {:induction false} ReachableInv(n: nat, workers: nat, s: State)
    requires Reachable(n, workers, s)
    ensures Inv(n, s) && |s.workers| == workers
  {
    var actions :| Interleaving(n, Initial(workers), actions) && Exec(n, Initial(workers), actions) == s;
    InitialInv(n, workers);
    ExecKeepsInv(n, Initial(workers), actions);
  }

  // ----- The main results

  /** When Run returns without having been cancelled, every project has been
      cleaned exactly once, every failure has been counted exactly once, and the
      returned error says whether there was one. No goroutine is left behind. */
  lemma {:induction false} EachProjectCleanedOnce(n: nat, workers: nat, s: State)
    requires Reachable(n, workers, s) && s.main.Returned? && !s.cancelled
    ensures forall p: nat :: p < n <==> InLog(s.log, p)
    ensures forall i, j :: 0 <= i < j < |s.log| ==> s.log[i].0 != s.log[j].0
    ensures |s.log| == n
    ensures s.errCount == Failures(s.log)
    ensures s.main.failed <==> exists e <- s.log :: !e.1
    ensures AllDone(s.workers) && !s.counting
  {
    ReachableInv(n, workers, s);
    assert forall w <- s.workers :: IsReporting(w) == 0;
    SumZero(s.workers, IsReporting);
    FailuresPositive(s.log);
    forall p: nat
      ensures p < n <==> InLog(s.log, p)
    {
      assert !InHand(s.workers, p);
    }
    DistinctCover(s.log, n);
  }

  /** When it returns because it was cancelled, it has been so before it came to the
      last project, which no worker will ever get. */
  lemma {:induction false} CancelledEarly(n: nat, workers: nat, s: State)
    requires Reachable(n, workers, s) && s.main.ReturnedCancelled?
    ensures s.cancelled && n > 0 && !InHand(s.workers, n - 1) && !InLog(s.log, n - 1)
    ensures forall p: nat :: p < s.main.next <==> InHand(s.workers, p) || InLog(s.log, p)
  {
    ReachableInv(n, workers, s);
  }

  lemma {:induction false} FailuresPositive(log: seq<(nat, bool)>)
    ensures Failures(log) > 0 <==> exists e <- log :: !e.1
  {
    if log != [] {
      var init, last := log[..|log| - 1], log[|log| - 1];
      assert log == init + [last];
      FailuresPositive(init);
    }
  }

  /** A list of distinct projects naming exactly 0..n-1 has n entries. */
  lemma {:induction false} DistinctCover(log: seq<(nat, bool)>, n: nat)
    requires forall p: nat :: p < n <==> InLog(log, p)
    requires forall i, j :: 0 <= i < j < |log| ==> log[i].0 != log[j].0
    ensures |log| == n
  {
    var named := set i | 0 <= i < |log| :: log[i].0;
    assert Below(n) == named by {
      forall p: nat
        ensures p in Below(n) <==> p in named
      {
        assert p < n <==> InLog(log, p);
      }
    }
    CountNamed(log);
  }

  function Below(n: nat): (r: set<nat>)
    ensures forall p: nat :: p in r <==> p < n
    ensures |r| == n
  {
    if n == 0 then {} else Below(n - 1) + {n - 1}
  }

  lemma {:induction false} CountNamed(log: seq<(nat, bool)>)
    requires forall i, j :: 0 <= i < j < |log| ==> log[i].0 != log[j].0
    ensures |set i | 0 <= i < |log| :: log[i].0| == |log|
  {
    if log != [] {
      var init := log[..|log| - 1];
      CountNamed(init);
      assert (set i | 0 <= i < |log| :: log[i].0) ==
             (set i | 0 <= i < |init| :: init[i].0) + {log[|log| - 1].0};
    }
  }

  /** Under cancellation nothing is cleaned twice either, and no failure is
      invented; some may go uncounted. */
  lemma {:induction false} NothingCleanedTwice(n: nat, workers: nat, s: State)
    requires Reachable(n, workers, s)
    ensures forall i, j :: 0 <= i < j < |s.log| ==> s.log[i].0 != s.log[j].0
    ensures forall e <- s.log :: e.0 < n
    ensures s.errCount <= Failures(s.log)
  {
    ReachableInv(n, workers, s);
  }

  /** No goroutine ever sends on a closed channel. */
  lemma {:induction false} NoSendOnClosedChannel(n: nat, workers: nat, s: State)
    requires Reachable(n, workers, s)
    ensures s.main.Distributing? ==> !s.projectChClosed
    ensures forall w <- s.workers :: w.Reporting? ==> !s.errChClosed
  {
    ReachableInv(n, workers, s);
  }

  /** Everything has returned. */
  predicate Quiescent(s: State)
  {
    (s.main.Returned? || s.main.ReturnedCancelled?) && AllDone(s.workers) && !s.counting
  }

  /** As long as something has not returned, some action other than a
      cancellation is possible: there is no deadlock. */
  lemma {:induction false} NeverStuck(n: nat, workers: nat, s: State)
    requires Reachable(n, workers, s) && !Quiescent(s)
    requires workers > 0 || n == 0 || s.cancelled
    ensures exists a :: a != Cancel && Enabled(n, s, a)
  {
    ReachableInv(n, workers, s);
    var a: Action;
    if w :| 0 <= w < |s.workers| && s.workers[w].Cleaning? {
      a := FinishCleaning(w, true);
    } else if s.cancelled && s.counting {
      a := CounterCancelled;
    } else if w :| 0 <= w < |s.workers| && s.workers[w].Reporting? {
      a := if s.cancelled then WorkerCancelled(w) else SendError(w);
    } else if s.main == Distributing(n) {
      a := CloseProjects;
    } else if s.main.Distributing? && s.cancelled {
      a := DistributorCancelled;
    } else if w :| 0 <= w < |s.workers| && s.workers[w].Receiving? {
      a := if s.main.Distributing? then SendProject(w)
           else if s.projectChClosed then WorkerSeesClosed(w) else WorkerCancelled(w);
    } else if s.main.AwaitingWorkers? {
      a := WorkersWait;
    } else if s.main.AwaitingCounter? {
      a := if s.counting then CounterSeesClosed else CounterWait;
    } else {
      assert false;
    }
    assert Enabled(n, s, a);
  }

  /** So an uncancelled run that can go no further has returned, with the
      counts EachProjectCleanedOnce gives it. */
  lemma {:induction false} MaximalRunReturns(n: nat, workers: nat, s: State)
    requires Reachable(n, workers, s) && (workers > 0 || n == 0) && !s.cancelled
    requires forall a :: Enabled(n, s, a) ==> a == Cancel
    ensures s.main == Returned(Failures(s.log) > 0) && AllDone(s.workers) && !s.counting && |s.log| == n
  {
    if !Quiescent(s) {
      NeverStuck(n, workers, s);
    }
    ReachableInv(n, workers, s);
    EachProjectCleanedOnce(n, workers, s);
  }

  function Weight(w: Worker): nat
  {
    match w
    case Receiving => 1
    case Cleaning(_) => 3
    case Reporting(_) => 2
    case WorkerDone => 0
  }

  function DistributorWork(n: nat, main: Distributor): nat
  {
    match main
    case Distributing(k) => 3 + 3 * (if k < n then n - k else 0)
    case AwaitingWorkers => 2
    case AwaitingCounter => 1
    case _ => 0
  }

  /** The work left before everything has returned. */
  function WorkLeft(n: nat, s: State): nat
  {
    DistributorWork(n, s.main) + Sum(s.workers, Weight) + (if s.counting then 1 else 0) + (if s.cancelled then 0 else 1)
  }

  /** A worker moves on without the distributor. */
  lemma {:induction false} WorkerMakesProgress(ws: seq<Worker>, w: nat, x: Worker)
    requires w < |ws| && Weight(x) < Weight(ws[w])
    ensures Sum(ws[w := x], Weight) < Sum(ws, Weight)
  {
    SumUpdate(ws, w, x, Weight);
  }

  /** Every action leaves less work: there is no livelock, and an interleaving
      is at most as long as the work left at its start. */
  lemma {:induction false} EveryActionMakesProgress(n: nat, s: State, a: Action)
    requires Enabled(n, s, a)
    ensures WorkLeft(n, Next(n, s, a)) < WorkLeft(n, s)
  {
    match a
    case SendProject(w) => SumUpdate(s.workers, w, Cleaning(s.main.next), Weight);
    case FinishCleaning(w, ok) =>
      WorkerMakesProgress(s.workers, w, if ok then Receiving else Reporting(s.workers[w].project));
    case SendError(w) => WorkerMakesProgress(s.workers, w, Receiving);
    case WorkerSeesClosed(w) => WorkerMakesProgress(s.workers, w, WorkerDone);
    case WorkerCancelled(w) => WorkerMakesProgress(s.workers, w, WorkerDone);
    case _ =>
  }

  lemma {:induction false} InterleavingsAreBounded(n: nat, s: State, actions: seq<Action>)
    requires Interleaving(n, s, actions)
    ensures |actions| <= WorkLeft(n, s)
    decreases |actions|
  {
    if actions != [] {
      EveryActionMakesProgress(n, s, actions[0]);
      InterleavingsAreBounded(n, Next(n, s, actions[0]), actions[1..]);
    }
  }

  /** Run can get past its start without a cancellation exactly if it is
      configured with at least one worker or there is nothing to do. (A negative
      setting makes the WaitGroup panic before this.) */
  lemma {:induction false} ProgressNeedsWorkers(n: nat, configured: nat)
    ensures
      var s := Initial(NumWorkers(configured, n));
      (exists a :: a != Cancel && Enabled(n, s, a) && (a.SendProject? || a.CloseProjects?)) <==> configured > 0 || n == 0
    ensures
      var s := Initial(NumWorkers(configured, n));
      configured == 0 && n > 0 ==> forall a :: Enabled(n, s, a) ==> a == Cancel
  {
    var s := Initial(NumWorkers(configured, n));
    if n == 0 {
      assert Enabled(n, s, CloseProjects);
    } else if configured > 0 {
      assert Enabled(n, s, SendProject(0));
    }
  }
}
