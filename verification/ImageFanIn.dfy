/** The newest-build selector's concurrent fetch (getImagesByTags in
    pkg/image/newest_build_selector.go) as a state machine: one goroutine a tag,
    started under a semaphore, sending its image on a channel buffered for all
    tags, or its error on a channel buffered for one. The first error cancels the
    others. An interleaving is any sequence of enabled actions. */
module ImageFanIn {
  import opened Results
  import opened Images
  import opened ImageSelection

  datatype Worker =
    | Fetching
    | SendingImage(image: Image)  // about to send on imageCh
    | SendingError(error: string)      // in the select that sends on errCh
    | WorkerDone

  datatype Main =
    | Starting       // workers started so far: as many as there are
    | Returned(result: Result<seq<Image>, string>)

  datatype State = State(
    main: Main,
    workers: seq<Worker>,
    permits: nat,
    imageCh: seq<Image>,
    errCh: seq<string>,
    cancelled: bool)

  datatype Action =
    | Start
    | AcquireCancelled(error: string)
    | Fetch(worker: nat)
    | FetchCancelled(worker: nat, error: string) // a cancelled fetch may fail in its own way
    | SendImage(worker: nat)
    | SendError(worker: nat)
    | Finish

  function Initial(permits: nat): State
  {
    State(Starting, [], permits, [], [], false)
  }

  predicate AllDone(ws: seq<Worker>)
  {
    forall w :: 0 <= w < |ws| ==> ws[w].WorkerDone?
  }

  /** The calling goroutine is in its loop until it has started a worker a tag. */
  predicate Enabled(tags: seq<string>, s: State, a: Action)
  {
    match a
    case Start => s.main.Starting? && |s.workers| < |tags| && s.permits > 0
    case AcquireCancelled(_) => s.main.Starting? && |s.workers| < |tags| && s.cancelled
    case Fetch(w) => w < |s.workers| && w < |tags| && s.workers[w].Fetching?
    case FetchCancelled(w, _) => s.cancelled && w < |s.workers| && s.workers[w].Fetching?
    // A buffered send blocks while the buffer is full.
    case SendImage(w) => w < |s.workers| && s.workers[w].SendingImage? && |s.imageCh| < |tags|
    case SendError(w) => w < |s.workers| && s.workers[w].SendingError?
    case Finish => s.main.Starting? && |s.workers| == |tags| && AllDone(s.workers)
  }

  function Next(tags: seq<string>, fetch: ImageSelection.Fetch<string>, s: State, a: Action): State
    requires Enabled(tags, s, a)
  {
    match a
    case Start => s.(workers := s.workers + [Fetching], permits := s.permits - 1)
    case AcquireCancelled(e) => s.(main := Returned(Failure(e)))
    case Fetch(w) =>
      (match fetch(tags[w])
       case Success(Some(image)) => s.(workers := s.workers[w := SendingImage(image)])
       case Success(None) => s.(workers := s.workers[w := WorkerDone], permits := s.permits + 1)
       case Failure(e) => s.(workers := s.workers[w := SendingError(e)]))
    case FetchCancelled(w, e) => s.(workers := s.workers[w := SendingError(e)])
    case SendImage(w) =>
      s.(workers := s.workers[w := WorkerDone], permits := s.permits + 1, imageCh := s.imageCh + [s.workers[w].image])
    case SendError(w) =>
      // Reported right away or not at all: errCh has room for one.
      if |s.errCh| < 1 then
        s.(workers := s.workers[w := WorkerDone], permits := s.permits + 1,
           errCh := s.errCh + [s.workers[w].error], cancelled := true)
      else s.(workers := s.workers[w := WorkerDone], permits := s.permits + 1)
    case Finish =>
      s.(main := Returned(if s.errCh != [] then Failure(s.errCh[0]) else Success(s.imageCh)))
  }

  ghost predicate Interleaving(
    tags: seq<string>, fetch: ImageSelection.Fetch<string>, s: State, actions: seq<Action>)
    decreases |actions|
  {
    actions == []
    || (Enabled(tags, s, actions[0]) && Interleaving(tags, fetch, Next(tags, fetch, s, actions[0]), actions[1..]))
  }

  function Exec(
    tags: seq<string>, fetch: ImageSelection.Fetch<string>, s: State, actions: seq<Action>): State
    requires Interleaving(tags, fetch, s, actions)
    decreases |actions|
  {
    if actions == [] then s else Exec(tags, fetch, Next(tags, fetch, s, actions[0]), actions[1..])
  }

  // ----- The invariant

  /** What a worker has found, if it has finished; worker w fetches the w-th tag. */
  function Contribution(tags: seq<string>, fetch: ImageSelection.Fetch<string>): (int, Worker) -> multiset<Image>
  {
    (w, worker: Worker) =>
      if 0 <= w < |tags| && worker.WorkerDone? then multiset(FoundBy(tags[w], fetch)) else multiset{}
  }

  function Total(ws: seq<Worker>, found: (int, Worker) -> multiset<Image>): multiset<Image>
  {
    if ws == [] then multiset{}
    else Total(ws[..|ws| - 1], found) + found(|ws| - 1, ws[|ws| - 1])
  }

  /** What the finished workers found. */
  function Contributions(tags: seq<string>, fetch: ImageSelection.Fetch<string>, ws: seq<Worker>): multiset<Image>
  {
    Total(ws, Contribution(tags, fetch))
  }

  function CountUndone(ws: seq<Worker>): nat
  {
    if ws == [] then 0 else CountUndone(ws[..|ws| - 1]) + (if ws[|ws| - 1].WorkerDone? then 0 else 1)
  }

  function CountToSend(ws: seq<Worker>): nat
  {
    if ws == [] then 0
    else
      CountToSend(ws[..|ws| - 1])
      + (if ws[|ws| - 1].Fetching? || ws[|ws| - 1].SendingImage? then 1 else 0)
  }

  ghost predicate Counts(tags: seq<string>, permits: nat, s: State)
  {
    && |s.workers| <= |tags|
    && s.permits + CountUndone(s.workers) == permits
    && |s.imageCh| + CountToSend(s.workers) <= |s.workers|
    && |s.errCh| <= 1 && (s.cancelled <==> s.errCh != [])
  }

  /** Until an error is reported, the channel holds what the finished workers found. */
  ghost predicate Gathers(tags: seq<string>, fetch: ImageSelection.Fetch<string>, s: State)
    requires |s.workers| <= |tags|
  {
    s.errCh == [] ==>
      && multiset(s.imageCh) == Contributions(tags, fetch, s.workers)
      && forall w :: 0 <= w < |s.workers| ==>
           match s.workers[w]
           case SendingImage(image) => fetch(tags[w]) == Success(Some(image))
           case WorkerDone => fetch(tags[w]).Success?
           case SendingError(_) => fetch(tags[w]).Failure?
           case Fetching => true
  }

  ghost predicate Result(tags: seq<string>, s: State)
  {
    s.main.Returned? ==>
      || (s.main.result.Failure? && s.cancelled && |s.workers| < |tags|)
      || (s.errCh != [] && s.main.result == Failure(s.errCh[0]) && |s.workers| == |tags| && AllDone(s.workers))
      || (s.main.result == Success(s.imageCh) && s.errCh == [] && |s.workers| == |tags| && AllDone(s.workers))
  }

  ghost predicate FailedWith(tags: seq<string>, fetch: ImageSelection.Fetch<string>, error: string)
  {
    exists w :: 0 <= w < |tags| && fetch(tags[w]) == Failure(error)
  }

  /** The error reported, or about to be while none is, is that of some fetch: a
      cancelled fetch only fails once an error has been reported. */
  ghost predicate Genuine(tags: seq<string>, fetch: ImageSelection.Fetch<string>, s: State)
  {
    && (s.errCh != [] ==> FailedWith(tags, fetch, s.errCh[0]))
    && (s.errCh == [] ==>
          !s.cancelled
          && forall w :: 0 <= w < |s.workers| && s.workers[w].SendingError? ==>
               FailedWith(tags, fetch, s.workers[w].error))
  }

  ghost predicate Inv(tags: seq<string>, fetch: ImageSelection.Fetch<string>, permits: nat, s: State)
  {
    Counts(tags, permits, s) && Gathers(tags, fetch, s) && Result(tags, s) && Genuine(tags, fetch, s)
  }

  lemma {:induction false} CountsUpdate(ws: seq<Worker>, w: nat, x: Worker)
    requires w < |ws| && !ws[w].WorkerDone?
    ensures CountUndone(ws[w := x]) == CountUndone(ws) - (if x.WorkerDone? then 1 else 0)
    ensures CountToSend(ws[w := x]) + (if ws[w].Fetching? || ws[w].SendingImage? then 1 else 0)
      == CountToSend(ws) + (if x.Fetching? || x.SendingImage? then 1 else 0)
  {
    var n := |ws| - 1;
    if w == n {
      assert ws[w := x][..n] == ws[..n];
    } else {
      assert ws[w := x][..n] == ws[..n][w := x];
      CountsUpdate(ws[..n], w, x);
    }
  }

  lemma {:induction false} TotalUpdate(
    ws: seq<Worker>, w: nat, x: Worker, found: (int, Worker) -> multiset<Image>)
    requires w < |ws| && found(w, ws[w]) == multiset{}
    ensures Total(ws[w := x], found) == Total(ws, found) + found(w, x)
  {
    var n, us := |ws| - 1, ws[w := x];
    if w == n {
      assert us[..n] == ws[..n];
    } else {
      assert us[..n] == ws[..n][w := x];
      TotalUpdate(ws[..n], w, x, found);
    }
  }

  /** A worker that becomes done adds what it found. */
  lemma {:induction false} ContributionsUpdate(
    tags: seq<string>, fetch: ImageSelection.Fetch<string>, ws: seq<Worker>, w: nat, x: Worker)
    requires w < |ws| <= |tags| && !ws[w].WorkerDone?
    ensures Contributions(tags, fetch, ws[w := x]) ==
      Contributions(tags, fetch, ws) + if x.WorkerDone? then multiset(FoundBy(tags[w], fetch)) else multiset{}
  {
    TotalUpdate(ws, w, x, Contribution(tags, fetch));
  }

  lemma {:induction false} CountsAfterMove(tags: seq<string>, permits: nat, s: State, w: nat, x: Worker, t: State)
    requires Counts(tags, permits, s) && w < |s.workers| && !s.workers[w].WorkerDone?
    requires t.workers == s.workers[w := x]
    requires t.permits == s.permits + (if x.WorkerDone? then 1 else 0)
    requires s.workers[w].SendingError? ==> !x.Fetching? && !x.SendingImage?
    requires |t.imageCh| == |s.imageCh| + (if x.WorkerDone? && s.workers[w].SendingImage? then 1 else 0)
    requires |t.errCh| <= 1 && (t.cancelled <==> t.errCh != [])
    ensures Counts(tags, permits, t)
  {
    CountsUpdate(s.workers, w, x);
  }

  lemma {:induction false} CountsKept(
    tags: seq<string>, fetch: ImageSelection.Fetch<string>, permits: nat, s: State, a: Action)
    requires Counts(tags, permits, s) && Enabled(tags, s, a)
    ensures Counts(tags, permits, Next(tags, fetch, s, a))
  {
    var t := Next(tags, fetch, s, a);
    match a
    case Start =>
      assert (s.workers + [Fetching])[..|s.workers|] == s.workers;
    case Fetch(w) => CountsAfterMove(tags, permits, s, w, t.workers[w], t);
    case FetchCancelled(w, e) => CountsAfterMove(tags, permits, s, w, SendingError(e), t);
    case SendImage(w) => CountsAfterMove(tags, permits, s, w, WorkerDone, t);
    case SendError(w) => CountsAfterMove(tags, permits, s, w, WorkerDone, t);
    case _ =>
  }

  lemma {:induction false} GathersAfterStart(
    tags: seq<string>, fetch: ImageSelection.Fetch<string>, s: State)
    requires Enabled(tags, s, Start) && Gathers(tags, fetch, s)
    ensures Gathers(tags, fetch, Next(tags, fetch, s, Start))
  {
    assert (s.workers + [Fetching])[..|s.workers|] == s.workers;
  }

  /** A worker moves on without having finished. */
  lemma {:induction false} GathersAfterMove(
    tags: seq<string>, fetch: ImageSelection.Fetch<string>, s: State, w: nat, x: Worker)
    requires |s.workers| <= |tags| && Gathers(tags, fetch, s)
    requires w < |s.workers| && !s.workers[w].WorkerDone? && !x.WorkerDone?
    requires s.errCh == [] && x.SendingImage? ==> fetch(tags[w]) == Success(Some(x.image))
    requires s.errCh == [] && x.SendingError? ==> fetch(tags[w]).Failure?
    ensures Gathers(tags, fetch, s.(workers := s.workers[w := x]))
  {
    ContributionsUpdate(tags, fetch, s.workers, w, x);
  }

  /** A worker finishes, having put on the channel what it found. */
  lemma {:induction false} GathersAfterFinish(
    tags: seq<string>, fetch: ImageSelection.Fetch<string>, s: State, w: nat, found: seq<Image>)
    requires |s.workers| <= |tags| && Gathers(tags, fetch, s)
    requires w < |s.workers| && !s.workers[w].WorkerDone?
    requires s.errCh == [] ==> fetch(tags[w]).Success? && found == FoundBy(tags[w], fetch)
    ensures Gathers(tags, fetch,
      s.(workers := s.workers[w := WorkerDone], permits := s.permits + 1, imageCh := s.imageCh + found))
  {
    ContributionsUpdate(tags, fetch, s.workers, w, WorkerDone);
  }

  lemma {:induction false} GathersAfterFetch(
    tags: seq<string>, fetch: ImageSelection.Fetch<string>, s: State, w: nat)
    requires |s.workers| <= |tags| && Gathers(tags, fetch, s) && Enabled(tags, s, Fetch(w))
    ensures Gathers(tags, fetch, Next(tags, fetch, s, Fetch(w)))
  {
    match fetch(tags[w])
    case Success(None) =>
      GathersAfterFinish(tags, fetch, s, w, []);
      assert s.imageCh + [] == s.imageCh;
    case Success(Some(image)) => GathersAfterMove(tags, fetch, s, w, SendingImage(image));
    case Failure(e) => GathersAfterMove(tags, fetch, s, w, SendingError(e));
  }

  lemma {:induction false} GathersKept(
    tags: seq<string>, fetch: ImageSelection.Fetch<string>, permits: nat, s: State, a: Action)
    requires Counts(tags, permits, s) && Gathers(tags, fetch, s) && Enabled(tags, s, a)
    requires |Next(tags, fetch, s, a).workers| <= |tags|
    ensures Gathers(tags, fetch, Next(tags, fetch, s, a))
  {
    match a
    case Start => GathersAfterStart(tags, fetch, s);
    case Fetch(w) => GathersAfterFetch(tags, fetch, s, w);
    case FetchCancelled(w, e) => GathersAfterMove(tags, fetch, s, w, SendingError(e));
    case SendImage(w) => GathersAfterFinish(tags, fetch, s, w, [s.workers[w].image]);
    case SendError(w) => assert Next(tags, fetch, s, a).errCh != [];
    case _ =>
  }

  lemma {:induction false} ResultKept(
    tags: seq<string>, fetch: ImageSelection.Fetch<string>, permits: nat, s: State, a: Action)
    requires Counts(tags, permits, s) && Result(tags, s) && Enabled(tags, s, a)
    ensures Result(tags, Next(tags, fetch, s, a))
  {
  }

  lemma {:induction false} GenuineKept(
    tags: seq<string>, fetch: ImageSelection.Fetch<string>, s: State, a: Action)
    requires Genuine(tags, fetch, s) && Enabled(tags, s, a)
    ensures Genuine(tags, fetch, Next(tags, fetch, s, a))
  {
    if a.Fetch? && fetch(tags[a.worker]).Failure? {
      assert FailedWith(tags, fetch, fetch(tags[a.worker]).error);
    }
  }

  lemma {:induction false} ExecKeepsInv(
    tags: seq<string>, fetch: ImageSelection.Fetch<string>, permits: nat, s: State, actions: seq<Action>)
    requires Inv(tags, fetch, permits, s) && Interleaving(tags, fetch, s, actions)
    ensures Inv(tags, fetch, permits, Exec(tags, fetch, s, actions))
    decreases |actions|
  {
    if actions != [] {
      var a := actions[0];
      CountsKept(tags, fetch, permits, s, a);
      GathersKept(tags, fetch, permits, s, a);
      ResultKept(tags, fetch, permits, s, a);
      GenuineKept(tags, fetch, s, a);
      ExecKeepsInv(tags, fetch, permits, Next(tags, fetch, s, a), actions[1..]);
    }
  }

  ghost predicate Reachable(tags: seq<string>, fetch: ImageSelection.Fetch<string>, permits: nat, s: State)
  {
    exists actions ::
      Interleaving(tags, fetch, Initial(permits), actions) && Exec(tags, fetch, Initial(permits), actions) == s
  }

  lemma {:induction false} ReachableInv(
    tags: seq<string>, fetch: ImageSelection.Fetch<string>, permits: nat, s: State)
    requires Reachable(tags, fetch, permits, s)
    ensures Inv(tags, fetch, permits, s)
  {
    var actions :|
      Interleaving(tags, fetch, Initial(permits), actions) && Exec(tags, fetch, Initial(permits), actions) == s;
    ExecKeepsInv(tags, fetch, permits, Initial(permits), actions);
  }

  // ----- The main results

  lemma {:induction false} AllContribute(
    tags: seq<string>, fetch: ImageSelection.Fetch<string>, ws: seq<Worker>)
    requires |ws| == |tags| && AllDone(ws)
    ensures Contributions(tags, fetch, ws) == multiset(Found(tags, fetch))
  {
    if tags != [] {
      var n := |tags| - 1;
      LastContributes(tags, fetch, ws, n);
      AllContribute(tags[..n], fetch, ws[..n]);
      FoundLast(tags, fetch, n);
    }
  }

  lemma {:induction false} LastContributes(
    tags: seq<string>, fetch: ImageSelection.Fetch<string>, ws: seq<Worker>, n: nat)
    requires |ws| == |tags| == n + 1 && ws[n].WorkerDone?
    ensures Contributions(tags, fetch, ws) ==
      Contributions(tags[..n], fetch, ws[..n]) + multiset(FoundBy(tags[n], fetch))
  {
    TotalSame(ws[..n], Contribution(tags, fetch), Contribution(tags[..n], fetch));
  }

  lemma {:induction false} TotalSame(
    ws: seq<Worker>, f: (int, Worker) -> multiset<Image>, g: (int, Worker) -> multiset<Image>)
    requires forall w :: 0 <= w < |ws| ==> f(w, ws[w]) == g(w, ws[w])
    ensures Total(ws, f) == Total(ws, g)
  {
    if ws != [] {
      TotalSame(ws[..|ws| - 1], f, g);
    }
  }

  lemma {:induction false} FoundLast(tags: seq<string>, fetch: ImageSelection.Fetch<string>, n: nat)
    requires |tags| == n + 1
    ensures multiset(Found(tags, fetch)) == multiset(Found(tags[..n], fetch)) + multiset(FoundBy(tags[n], fetch))
  {
  }

  /** A gathering succeeds exactly if every fetch does, and then it has exactly the
      images that fetching the tags one after the other would find. */
  lemma {:induction false} GatheringIsComplete(
    tags: seq<string>, fetch: ImageSelection.Fetch<string>, permits: nat, s: State)
    requires Reachable(tags, fetch, permits, s) && s.main.Returned?
    ensures s.main.result.Success? <==> NoErrors(tags, fetch)
    ensures s.main.result.Success? ==> multiset(s.main.result.value) == multiset(Found(tags, fetch))
  {
    ReachableInv(tags, fetch, permits, s);
    if s.main.result.Success? {
      AllContribute(tags, fetch, s.workers);
      forall t <- tags
        ensures fetch(t).Success?
      {
        var w :| 0 <= w < |tags| && tags[w] == t;
        assert s.workers[w].WorkerDone?;
      }
    } else {
      var w :| 0 <= w < |tags| && fetch(tags[w]) == Failure(s.errCh[0]);
      assert tags[w] in tags;
    }
  }

  /** A gathering that fails had a reason: either some fetch had failed before the
      last was started, or all have been started, none is going on, and the error is
      that of one that failed. */
  lemma {:induction false} FailureHasReason(
    tags: seq<string>, fetch: ImageSelection.Fetch<string>, permits: nat, s: State)
    requires Reachable(tags, fetch, permits, s) && s.main.Returned? && s.main.result.Failure?
    ensures exists w :: 0 <= w < |tags| && fetch(tags[w]).Failure?
    ensures
      || |s.workers| < |tags|
      || (|s.workers| == |tags| && AllDone(s.workers) && FailedWith(tags, fetch, s.main.result.error))
  {
    ReachableInv(tags, fetch, permits, s);
  }

  /** If no fetch fails, every interleaving gathers, and selecting the newest of
      what it gathered is selecting from a sequential fetch, provided the tags are
      distinct and every image carries the tag it was fetched by. */
  lemma {:induction false} ConcurrentSelectionIsSequential(
    tags: seq<string>, fetch: ImageSelection.Fetch<string>, permits: nat, s: State,
    concurrent: seq<Image>, sequential: seq<Image>, discoveryLimit: nat)
    requires Reachable(tags, fetch, permits, s) && s.main.Returned?
    requires NoErrors(tags, fetch)
    requires forall i, j :: 0 <= i < j < |tags| ==> tags[i] != tags[j]
    requires Tagged(tags, fetch)
    requires s.main.result.Success? ==> NewestOf(concurrent, s.main.result.value, discoveryLimit)
    requires NewestOf(sequential, Found(tags, fetch), discoveryLimit)
    ensures s.main.result.Success? && concurrent == sequential
  {
    GatheringIsComplete(tags, fetch, permits, s);
    FoundTagsDistinct(tags, fetch);
    CompletionOrderIsIrrelevant(Found(tags, fetch), s.main.result.value, sequential, concurrent, discoveryLimit);
  }

  /** Every image carries the tag it was fetched by. */
  ghost predicate Tagged(tags: seq<string>, fetch: ImageSelection.Fetch<string>)
  {
    forall t <- tags :: fetch(t).Success? && fetch(t).value.Some? ==> fetch(t).value.value.tag == t
  }

  lemma {:induction false} FoundTagIn(
    tags: seq<string>, fetch: ImageSelection.Fetch<string>, found: seq<Image>, k: nat)
    requires Tagged(tags, fetch) && found == Found(tags, fetch) && k < |found|
    ensures found[k].tag in tags
  {
    var init := tags[..|tags| - 1];
    if k < |Found(init, fetch)| {
      FoundTagIn(init, fetch, Found(init, fetch), k);
    }
  }

  lemma {:induction false} FoundTagsDistinct(tags: seq<string>, fetch: ImageSelection.Fetch<string>)
    requires forall i, j :: 0 <= i < j < |tags| ==> tags[i] != tags[j]
    requires Tagged(tags, fetch)
    ensures DistinctTags(Found(tags, fetch))
  {
    if tags != [] {
      var init, last := tags[..|tags| - 1], tags[|tags| - 1];
      FoundTagsDistinct(init, fetch);
      var found := Found(init, fetch);
      forall k | 0 <= k < |found|
        ensures found[k].tag != last
      {
        FoundTagIn(init, fetch, found, k);
      }
    }
  }

  /** No worker ever finds the image channel full. */
  lemma {:induction false} ImageSendsNeverBlock(
    tags: seq<string>, fetch: ImageSelection.Fetch<string>, permits: nat, s: State, w: nat)
    requires Reachable(tags, fetch, permits, s)
    requires w < |s.workers| && s.workers[w].SendingImage?
    ensures Enabled(tags, s, SendImage(w))
  {
    ReachableInv(tags, fetch, permits, s);
    CountsUpdate(s.workers, w, WorkerDone);
  }

  lemma {:induction false} UndoneWorker(ws: seq<Worker>)
    ensures CountUndone(ws) == 0 <==> AllDone(ws)
  {
    if ws != [] {
      UndoneWorker(ws[..|ws| - 1]);
      if AllDone(ws[..|ws| - 1]) && ws[|ws| - 1].WorkerDone? {
        forall w | 0 <= w < |ws|
          ensures ws[w].WorkerDone?
        {
          assert w < |ws| - 1 ==> ws[..|ws| - 1][w].WorkerDone?;
        }
      }
    }
  }

  /** With a permit to give, some action is possible until everything has returned. */
  lemma {:induction false} NeverStuck(
    tags: seq<string>, fetch: ImageSelection.Fetch<string>, permits: nat, s: State)
    requires Reachable(tags, fetch, permits, s) && permits > 0
    requires !(s.main.Returned? && AllDone(s.workers))
    ensures exists a :: Enabled(tags, s, a)
  {
    ReachableInv(tags, fetch, permits, s);
    UndoneWorker(s.workers);
    if AllDone(s.workers) {
      assert Enabled(tags, s, if |s.workers| == |tags| then Finish else Start);
    } else {
      var w: nat :| w < |s.workers| && !s.workers[w].WorkerDone?;
      if s.workers[w].SendingImage? {
        ImageSendsNeverBlock(tags, fetch, permits, s, w);
      } else {
        assert Enabled(tags, s, if s.workers[w].Fetching? then Fetch(w) else SendError(w));
      }
    }
  }

  /** So a run that can go no further has returned, with all the images if no
      fetch fails, and otherwise with an error. */
  lemma {:induction false} MaximalRunReturns(
    tags: seq<string>, fetch: ImageSelection.Fetch<string>, permits: nat, s: State)
    requires Reachable(tags, fetch, permits, s) && permits > 0
    requires forall a :: !Enabled(tags, s, a)
    ensures s.main.Returned? && AllDone(s.workers)
    ensures s.main.result.Success? <==> NoErrors(tags, fetch)
    ensures s.main.result.Success? ==> multiset(s.main.result.value) == multiset(Found(tags, fetch))
  {
    if !(s.main.Returned? && AllDone(s.workers)) {
      NeverStuck(tags, fetch, permits, s);
    }
    GatheringIsComplete(tags, fetch, permits, s);
  }

  function Weight(w: Worker): nat
  {
    if w.WorkerDone? then 0 else if w.Fetching? then 2 else 1
  }

  function TotalWeight(ws: seq<Worker>): nat
  {
    if ws == [] then 0 else TotalWeight(ws[..|ws| - 1]) + Weight(ws[|ws| - 1])
  }

  lemma {:induction false} TotalWeightUpdate(ws: seq<Worker>, w: nat, x: Worker)
    requires w < |ws|
    ensures TotalWeight(ws[w := x]) + Weight(ws[w]) == TotalWeight(ws) + Weight(x)
  {
    var n := |ws| - 1;
    if w == n {
      assert ws[w := x][..n] == ws[..n];
    } else {
      assert ws[w := x][..n] == ws[..n][w := x];
      TotalWeightUpdate(ws[..n], w, x);
    }
  }

  function WorkLeft(tags: seq<string>, s: State): int
  {
    3 * (|tags| - |s.workers|) + TotalWeight(s.workers) + (if s.main.Returned? then 0 else 1)
  }

  /** Every action leaves less to do. */
  lemma {:induction false} EveryActionMakesProgress(
    tags: seq<string>, fetch: ImageSelection.Fetch<string>, s: State, a: Action)
    requires |s.workers| <= |tags| && Enabled(tags, s, a)
    ensures 0 <= WorkLeft(tags, Next(tags, fetch, s, a)) < WorkLeft(tags, s)
  {
    var t := Next(tags, fetch, s, a);
    match a
    case Start => assert (s.workers + [Fetching])[..|s.workers|] == s.workers;
    case Fetch(w) => TotalWeightUpdate(s.workers, w, t.workers[w]);
    case FetchCancelled(w, e) => TotalWeightUpdate(s.workers, w, SendingError(e));
    case SendImage(w) => TotalWeightUpdate(s.workers, w, WorkerDone);
    case SendError(w) => TotalWeightUpdate(s.workers, w, WorkerDone);
    case _ =>
  }

  /** So no interleaving is longer than the work there is at its start. */
  lemma {:induction false} InterleavingsAreBounded(
    tags: seq<string>, fetch: ImageSelection.Fetch<string>, permits: nat, s: State, actions: seq<Action>)
    requires Inv(tags, fetch, permits, s) && Interleaving(tags, fetch, s, actions)
    ensures |actions| <= WorkLeft(tags, s)
    decreases |actions|
  {
    if actions != [] {
      var a := actions[0];
      EveryActionMakesProgress(tags, fetch, s, a);
      CountsKept(tags, fetch, permits, s, a);
      GathersKept(tags, fetch, permits, s, a);
      ResultKept(tags, fetch, permits, s, a);
      GenuineKept(tags, fetch, s, a);
      InterleavingsAreBounded(tags, fetch, permits, Next(tags, fetch, s, a), actions[1..]);
    }
  }
}
