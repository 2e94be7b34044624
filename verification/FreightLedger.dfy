/** The status of a piece of Freight (api/v1alpha1/freight_types.go): in which
    Stages it currently is, where it has been verified and how long it soaked
    there, and for which Stages it is approved. An operation that reads the clock
    takes the reading as `now`. */
module FreightLedger {
  import opened Results
  import opened Times

  datatype CurrentStage = CurrentStage(since: Option<Time>)
  datatype VerifiedStage = VerifiedStage(verifiedAt: Time, longestCompletedSoak: Option<Duration>)
  datatype ApprovedStage = ApprovedStage(approvedAt: Time)

  /** The value of a FreightStatus. */
  datatype Ledger = Ledger(
    currentlyIn: map<string, CurrentStage>,
    verifiedIn: map<string, VerifiedStage>,
    approvedFor: map<string, ApprovedStage>)
  {
    /** No entry lacks its entry time, none lies in the future, and no recorded
        soak is negative. */
    ghost predicate Sound(now: Time)
    {
      && (forall s <- currentlyIn :: currentlyIn[s].since.Some? && currentlyIn[s].since.value <= now)
      && (forall s <- verifiedIn :: verifiedIn[s].longestCompletedSoak.Some? ==>
            verifiedIn[s].longestCompletedSoak.value >= 0)
    }

    /** Every entry has its entry time. */
    ghost predicate SinceKnown()
    {
      forall s <- currentlyIn :: currentlyIn[s].since.Some?
    }

    /** GetLongestSoak dereferences the entry time, so it must be there. */
    predicate Readable(stage: string)
    {
      stage in verifiedIn && stage in currentlyIn ==> currentlyIn[stage].since.Some?
    }

    function GetLongestSoak(stage: string, now: Time): Duration
      requires Readable(stage)
    {
      if stage !in verifiedIn then 0
      else
        var completed := match verifiedIn[stage].longestCompletedSoak case Some(d) => d case None => 0;
        var current := if stage in currentlyIn then now - currentlyIn[stage].since.value else 0;
        if completed >= current then completed else current
    }

    predicate HasSoakedIn(stage: string, dur: Option<Duration>, now: Time)
      requires Readable(stage)
    {
      dur.None? || GetLongestSoak(stage, now) >= dur.value
    }

    function Enter(stage: string, since: Time): Ledger
    {
      if stage in currentlyIn then this
      else this.(currentlyIn := currentlyIn[stage := CurrentStage(Some(since))])
    }

    function Leave(stage: string, now: Time): Ledger
    {
      if stage !in currentlyIn then this
      else
        var left := this.(currentlyIn := currentlyIn - {stage});
        if currentlyIn[stage].since.None? || stage !in verifiedIn then left
        else
          var soak := now - currentlyIn[stage].since.value;
          var record := verifiedIn[stage];
          if record.longestCompletedSoak.Some? && soak <= record.longestCompletedSoak.value then left
          else left.(verifiedIn := verifiedIn[stage := record.(longestCompletedSoak := Some(soak))])
    }

    function Verify(stage: string, at: Time): Ledger
    {
      if stage in verifiedIn then this
      else this.(verifiedIn := verifiedIn[stage := VerifiedStage(at, None)])
    }

    function Approve(stage: string, at: Time): Ledger
    {
      if stage in approvedFor then this
      else this.(approvedFor := approvedFor[stage := ApprovedStage(at)])
    }
  }

  const EMPTY := Ledger(map[], map[], map[])

  /** FreightStatus, updated in place by the Stage reconciler and the API server. */
  class FreightStatus {
    var currentlyIn: map<string, CurrentStage>
    var verifiedIn: map<string, VerifiedStage>
    var approvedFor: map<string, ApprovedStage>

    constructor ()
      ensures Value() == EMPTY
    {
      currentlyIn, verifiedIn, approvedFor := map[], map[], map[];
    }

    function Value(): Ledger
      reads this
    {
      Ledger(currentlyIn, verifiedIn, approvedFor)
    }

    method AddCurrentStage(stage: string, since: Time)
      modifies this
      ensures Value() == old(Value()).Enter(stage, since)
    {
      if stage !in currentlyIn {
        currentlyIn := currentlyIn[stage := CurrentStage(Some(since))];
      }
    }

    method RemoveCurrentStage(stage: string, now: Time)
      modifies this
      ensures Value() == old(Value()).Leave(stage, now)
    {
      if stage in currentlyIn {
        var record := currentlyIn[stage];
        if record.since.Some? {
          var soak := now - record.since.value;
          if stage in verifiedIn {
            var vi := verifiedIn[stage];
            if vi.longestCompletedSoak.None? || soak > vi.longestCompletedSoak.value {
              vi := vi.(longestCompletedSoak := Some(soak));
              verifiedIn := verifiedIn[stage := vi];
            }
          }
        }
        currentlyIn := currentlyIn - {stage};
      }
    }

    method AddVerifiedStage(stage: string, verifiedAt: Time)
      modifies this
      ensures Value() == old(Value()).Verify(stage, verifiedAt)
    {
      if stage !in verifiedIn {
        verifiedIn := verifiedIn[stage := VerifiedStage(verifiedAt, None)];
      }
    }

    method AddApprovedStage(stage: string, approvedAt: Time)
      modifies this
      ensures Value() == old(Value()).Approve(stage, approvedAt)
    {
      if stage !in approvedFor {
        approvedFor := approvedFor[stage := ApprovedStage(approvedAt)];
      }
    }
  }
}
