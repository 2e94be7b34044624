/** What the soak ledger means: over any run of status updates under a clock
    that never runs backwards, the ledger's answers are read off the history of
    that run. */
module SoakHistory {
  import opened Results
  import opened Times
  import opened FreightLedger

  datatype Step =
    | Enter(stage: string, since: Time)
    | Leave(stage: string)
    | Verify(stage: string, at: Time)
    | Approve(stage: string, at: Time)

  /** A status update and the clock reading at which it happened. */
  datatype Event = Event(now: Time, step: Step)

  function Apply(l: Ledger, e: Event): Ledger
  {
    match e.step
    case Enter(s, since) => l.Enter(s, since)
    case Leave(s) => l.Leave(s, e.now)
    case Verify(s, at) => l.Verify(s, at)
    case Approve(s, at) => l.Approve(s, at)
  }

  /** The ledger after the first n events of a run that started from l. */
  function After(l: Ledger, run: seq<Event>, n: nat): Ledger
    requires n <= |run|
  {
    if n == 0 then l else Apply(After(l, run, n - 1), run[n - 1])
  }

  /** The clock starts at `from`, never runs backwards, has not passed `now`
      yet, and no Stage is entered in the future. */
  ghost predicate Clocked(run: seq<Event>, from: Time, now: Time)
  {
    && from <= now
    && (forall i :: 0 <= i < |run| ==> from <= run[i].now <= now)
    && (forall i, j :: 0 <= i < j < |run| ==> run[i].now <= run[j].now)
    && (forall i :: 0 <= i < |run| && run[i].step.Enter? ==> run[i].step.since <= run[i].now)
  }

  // ----- The history of one Stage, in terms of the run alone

  predicate EntersAt(run: seq<Event>, s: string, i: int)
  {
    0 <= i < |run| && run[i].step.Enter? && run[i].step.stage == s
  }

  predicate LeavesAt(run: seq<Event>, s: string, i: int)
  {
    0 <= i < |run| && run[i].step == Leave(s)
  }

  ghost predicate LeftBetween(run: seq<Event>, s: string, i: int, j: int)
  {
    exists k :: i < k < j && LeavesAt(run, s, k)
  }

  /** Event i really enters s: any earlier entry was followed by a departure. */
  ghost predicate Entry(run: seq<Event>, s: string, i: int)
  {
    && EntersAt(run, s, i)
    && forall k :: 0 <= k < i && EntersAt(run, s, k) ==> LeftBetween(run, s, k, i)
  }

  /** The Freight entered s at event i and was there until just before event j. */
  ghost predicate Occupied(run: seq<Event>, s: string, i: int, j: int)
  {
    Entry(run, s, i) && i < j && !LeftBetween(run, s, i, j)
  }

  ghost predicate VerifiedBefore(run: seq<Event>, s: string, j: int)
  {
    exists k :: 0 <= k < j && k < |run| && run[k].step.Verify? && run[k].step.stage == s
  }

  /** An occupancy that ended at event j, by when the Freight had been verified in s. */
  ghost predicate Completed(run: seq<Event>, s: string, i: int, j: int)
  {
    LeavesAt(run, s, j) && Occupied(run, s, i, j) && VerifiedBefore(run, s, j)
  }

  /** d is the length of the current occupancy, or of a completed one. */
  ghost predicate Soak(run: seq<Event>, s: string, now: Time, d: Duration)
  {
    || (exists i :: Occupied(run, s, i, |run|) && d == now - run[i].step.since)
    || (exists i, j :: Completed(run, s, i, j) && d == run[j].now - run[i].step.since)
  }

  // ----- The ledger after n events against the history of those n events

  ghost predicate CurrentMirrors(l: Ledger, run: seq<Event>, s: string, n: nat)
    requires n <= |run|
  {
    && (s in l.currentlyIn ==>
          exists i :: Occupied(run, s, i, n) && l.currentlyIn[s].since == Some(run[i].step.since))
    && (s !in l.currentlyIn ==> forall i :: !Occupied(run, s, i, n))
  }

  /** The recorded soak is the longest of the completed ones, if there are any. */
  ghost predicate SoakMirrors(recorded: Option<Duration>, run: seq<Event>, s: string, n: nat)
    requires n <= |run|
  {
    && (forall i, j :: j < n && Completed(run, s, i, j) ==>
          recorded.Some? && run[j].now - run[i].step.since <= recorded.value)
    && (recorded.Some? ==>
          exists i, j :: j < n && Completed(run, s, i, j) && recorded.value == run[j].now - run[i].step.since)
  }

  ghost predicate Mirrors(l: Ledger, run: seq<Event>, s: string, n: nat)
    requires n <= |run|
  {
    && CurrentMirrors(l, run, s, n)
    && (s in l.verifiedIn <==> VerifiedBefore(run, s, n))
    && SoakMirrors(if s in l.verifiedIn then l.verifiedIn[s].longestCompletedSoak else None, run, s, n)
  }

  lemma {:induction false} OccupancyUnique(run: seq<Event>, s: string, i: int, k: int, n: int)
    requires Occupied(run, s, i, n) && Occupied(run, s, k, n)
    ensures i == k
  {
    assert i < k ==> LeftBetween(run, s, i, k);
    assert k < i ==> LeftBetween(run, s, k, i);
  }

  /** How event n moves the occupancies. */
  lemma {:induction false} OccupancyStep(run: seq<Event>, s: string, n: nat, m: nat)
    requires m == n + 1 <= |run|
    ensures LeavesAt(run, s, n) ==> forall i :: !Occupied(run, s, i, m)
    ensures !LeavesAt(run, s, n) ==>
      forall i :: i != n ==> (Occupied(run, s, i, m) <==> Occupied(run, s, i, n))
    ensures !EntersAt(run, s, n) ==> !Occupied(run, s, n, m)
    ensures EntersAt(run, s, n) ==> (Occupied(run, s, n, m) <==> forall i :: !Occupied(run, s, i, n))
  {
    if EntersAt(run, s, n) {
      if Entry(run, s, n) {
        forall i
          ensures !Occupied(run, s, i, n)
        {
          assert i < n && EntersAt(run, s, i) ==> LeftBetween(run, s, i, n);
        }
      } else {
        var k :| 0 <= k < n && EntersAt(run, s, k) && !LeftBetween(run, s, k, n);
        var i := FirstEntry(run, s, k, n);
      }
    }
  }

  /** An entry event that no departure has followed belongs to an occupancy. */
  lemma {:induction false} FirstEntry(run: seq<Event>, s: string, k: nat, n: nat) returns (i: nat)
    requires k < n <= |run| && EntersAt(run, s, k) && !LeftBetween(run, s, k, n)
    ensures Occupied(run, s, i, n)
    decreases k
  {
    if Entry(run, s, k) {
      i := k;
    } else {
      var m :| 0 <= m < k && EntersAt(run, s, m) && !LeftBetween(run, s, m, k);
      assert !LeftBetween(run, s, m, n) by {
        assert !LeavesAt(run, s, k);
      }
      i := FirstEntry(run, s, m, n);
    }
  }

  /** The ledger of a run is a summary of the run's history. */
  lemma {:induction false} LedgerMirrorsHistory(run: seq<Event>, s: string, n: nat)
    requires n <= |run|
    ensures Mirrors(After(EMPTY, run, n), run, s, n)
  {
    if n > 0 {
      LedgerMirrorsHistory(run, s, n - 1);
      var l := After(EMPTY, run, n - 1);
      CurrentStep(l, run, s, n - 1, n);
      SoakStep(l, run, s, n - 1, n);
    }
  }

  lemma {:induction false} CurrentStep(l: Ledger, run: seq<Event>, s: string, n: nat, m: nat)
    requires m == n + 1 <= |run| && CurrentMirrors(l, run, s, n)
    ensures CurrentMirrors(Apply(l, run[n]), run, s, m)
  {
    OccupancyStep(run, s, n, m);
    var l' := Apply(l, run[n]);
    if s in l.currentlyIn {
      var i :| Occupied(run, s, i, n) && l.currentlyIn[s].since == Some(run[i].step.since);
      assert !LeavesAt(run, s, n) ==> Occupied(run, s, i, m) && l'.currentlyIn[s] == l.currentlyIn[s];
    } else {
      assert EntersAt(run, s, n) ==> Occupied(run, s, n, m);
    }
  }

  lemma {:induction false} SoakStep(l: Ledger, run: seq<Event>, s: string, n: nat, m: nat)
    requires m == n + 1 <= |run| && Mirrors(l, run, s, n)
    ensures s in Apply(l, run[n]).verifiedIn <==> VerifiedBefore(run, s, m)
    ensures
      var l' := Apply(l, run[n]);
      SoakMirrors(if s in l'.verifiedIn then l'.verifiedIn[s].longestCompletedSoak else None, run, s, m)
  {
    var l' := Apply(l, run[n]);
    assert VerifiedBefore(run, s, m) <==>
      VerifiedBefore(run, s, n) || (run[n].step.Verify? && run[n].step.stage == s);
    if LeavesAt(run, s, n) && s in l.currentlyIn {
      var i :| Occupied(run, s, i, n) && l.currentlyIn[s].since == Some(run[i].step.since);
      forall k | Occupied(run, s, k, n)
        ensures k == i
      {
        OccupancyUnique(run, s, i, k, n);
      }
      assert s in l.verifiedIn ==> Completed(run, s, i, n);
    }
  }

  // ----- Verifications and approvals

  predicate VerifiesAt(run: seq<Event>, s: string, i: int)
  {
    0 <= i < |run| && run[i].step.Verify? && run[i].step.stage == s
  }

  predicate ApprovesAt(run: seq<Event>, s: string, i: int)
  {
    0 <= i < |run| && run[i].step.Approve? && run[i].step.stage == s
  }

  /** Event i is the first of its kind for s. */
  ghost predicate FirstVerifies(run: seq<Event>, s: string, i: int)
  {
    VerifiesAt(run, s, i) && forall k :: 0 <= k < i ==> !VerifiesAt(run, s, k)
  }

  ghost predicate FirstApproves(run: seq<Event>, s: string, i: int)
  {
    ApprovesAt(run, s, i) && forall k :: 0 <= k < i ==> !ApprovesAt(run, s, k)
  }

  ghost predicate VerificationMirrors(l: Ledger, run: seq<Event>, s: string, n: nat)
  {
    && (s in l.verifiedIn <==> exists i :: i < n && VerifiesAt(run, s, i))
    && (forall i :: i < n && FirstVerifies(run, s, i) ==> s in l.verifiedIn && l.verifiedIn[s].verifiedAt == run[i].step.at)
  }

  ghost predicate ApprovalMirrors(l: Ledger, run: seq<Event>, s: string, n: nat)
  {
    && (s in l.approvedFor <==> exists i :: i < n && ApprovesAt(run, s, i))
    && (forall i :: i < n && FirstApproves(run, s, i) ==> s in l.approvedFor && l.approvedFor[s].approvedAt == run[i].step.at)
  }

  lemma {:induction false} VerificationStep(l: Ledger, run: seq<Event>, s: string, m: nat)
    requires m < |run| && VerificationMirrors(l, run, s, m)
    ensures VerificationMirrors(Apply(l, run[m]), run, s, m + 1)
  {
    var l' := Apply(l, run[m]);
    if VerifiesAt(run, s, m) {
      assert s in l'.verifiedIn;
    } else {
      assert s in l'.verifiedIn <==> s in l.verifiedIn;
    }
  }

  lemma {:induction false} ApprovalStep(l: Ledger, run: seq<Event>, s: string, m: nat)
    requires m < |run| && ApprovalMirrors(l, run, s, m)
    ensures ApprovalMirrors(Apply(l, run[m]), run, s, m + 1)
  {
    var l' := Apply(l, run[m]);
    if ApprovesAt(run, s, m) {
      assert s in l'.approvedFor;
    } else {
      assert s in l'.approvedFor <==> s in l.approvedFor;
    }
  }

  /** A verification or approval is on record exactly if there was one, with the
      time of the first. */
  lemma {:induction false} RecordsMirrorHistory(run: seq<Event>, s: string, n: nat)
    requires n <= |run|
    ensures VerificationMirrors(After(EMPTY, run, n), run, s, n)
    ensures ApprovalMirrors(After(EMPTY, run, n), run, s, n)
  {
    if n > 0 {
      RecordsMirrorHistory(run, s, n - 1);
      VerificationStep(After(EMPTY, run, n - 1), run, s, n - 1);
      ApprovalStep(After(EMPTY, run, n - 1), run, s, n - 1);
    }
  }

  // ----- The main results

  function LastTime(run: seq<Event>, n: nat, from: Time): Time
    requires n <= |run|
  {
    if n == 0 then from else run[n - 1].now
  }

  /** One status update under the clock rules keeps the ledger sound. */
  lemma {:induction false} StepKeepsSound(l: Ledger, e: Event, now: Time)
    requires l.Sound(e.now) && e.now <= now
    requires e.step.Enter? ==> e.step.since <= e.now
    ensures Apply(l, e).Sound(now)
  {
  }

  /** So does every run. */
  lemma {:induction false} RunKeepsSound(l: Ledger, run: seq<Event>, n: nat, from: Time, end: Time, now: Time)
    requires l.Sound(from) && Clocked(run, from, end) && n <= |run| && LastTime(run, n, from) <= now
    ensures After(l, run, n).Sound(now)
  {
    if n > 0 {
      var e := run[n - 1];
      RunKeepsSound(l, run, n - 1, from, end, e.now);
      StepKeepsSound(After(l, run, n - 1), e, now);
    }
  }

  /** GetLongestSoak is the maximum, over the history of the run, of the current
      occupancy and of the occupancies that ended while the Freight was verified
      in the Stage; it is zero while the Freight is unverified there. */
  lemma {:induction false} LongestSoakIsMaximum(run: seq<Event>, s: string, from: Time, now: Time)
    requires Clocked(run, from, now)
    ensures After(EMPTY, run, |run|).Readable(s)
    ensures
      var g := After(EMPTY, run, |run|).GetLongestSoak(s, now);
      if !VerifiedBefore(run, s, |run|) then g == 0
      else
        && (forall d :: Soak(run, s, now, d) ==> d <= g)
        && (if exists d :: Soak(run, s, now, d) then Soak(run, s, now, g) else g == 0)
  {
    RunKeepsSound(EMPTY, run, |run|, from, now, now);
    LedgerMirrorsHistory(run, s, |run|);
    var l := After(EMPTY, run, |run|);
    if s in l.verifiedIn {
      var g := l.GetLongestSoak(s, now);
      if s in l.currentlyIn {
        var i :| Occupied(run, s, i, |run|) && l.currentlyIn[s].since == Some(run[i].step.since);
        CurrentSoakBounds(run, s, now, i, g);
        assert Soak(run, s, now, now - run[i].step.since);
      }
      if l.verifiedIn[s].longestCompletedSoak.Some? {
        assert Soak(run, s, now, l.verifiedIn[s].longestCompletedSoak.value);
      }
    }
  }

  lemma {:induction false} CurrentSoakBounds(run: seq<Event>, s: string, now: Time, i: int, g: Duration)
    requires Occupied(run, s, i, |run|) && now - run[i].step.since <= g
    ensures forall k :: Occupied(run, s, k, |run|) ==> now - run[k].step.since <= g
  {
    forall k | Occupied(run, s, k, |run|)
      ensures k == i
    {
      OccupancyUnique(run, s, i, k, |run|);
    }
  }

  /** One status update takes back neither a verification nor an approval. */
  lemma {:induction false} StepKeepsRecords(l: Ledger, e: Event)
    ensures l.verifiedIn.Keys <= Apply(l, e).verifiedIn.Keys
    ensures l.approvedFor.Keys <= Apply(l, e).approvedFor.Keys
  {
  }

  /** Nor does it shorten a soak. */
  lemma {:induction false} StepKeepsSoak(l: Ledger, e: Event, s: string, now: Time)
    requires l.Sound(e.now) && e.now <= now && Apply(l, e).Sound(now)
    requires e.step.Enter? ==> e.step.since <= e.now
    ensures l.GetLongestSoak(s, e.now) <= Apply(l, e).GetLongestSoak(s, now)
  {
  }

  /** Nor does any run of updates, as time advances. */
  lemma {:induction false} RunKeepsStanding(
    l: Ledger, run: seq<Event>, n: nat, s: string, from: Time, end: Time, now: Time)
    requires l.Sound(from) && Clocked(run, from, end) && n <= |run| && LastTime(run, n, from) <= now
    ensures
      var l' := After(l, run, n);
      && l'.Sound(now)
      && l.verifiedIn.Keys <= l'.verifiedIn.Keys
      && l.approvedFor.Keys <= l'.approvedFor.Keys
      && l.GetLongestSoak(s, from) <= l'.GetLongestSoak(s, now)
  {
    RunKeepsSound(l, run, n, from, end, now);
    if n > 0 {
      var t := run[n - 1].now;
      RunKeepsStanding(l, run, n - 1, s, from, end, t);
      StepKeepsRecords(After(l, run, n - 1), run[n - 1]);
      StepKeepsSoak(After(l, run, n - 1), run[n - 1], s, now);
    }
  }
}
