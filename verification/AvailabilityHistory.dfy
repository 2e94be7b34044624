/** What it takes for Freight to become available to a Stage, in terms of what
    happened to it: of its entries, departures, verifications and approvals
    alone (api/v1alpha1/freight_types.go, api/v1alpha1/stage_types.go). */
module AvailabilityHistory {
  import opened Results
  import opened Times
  import opened FreightLedger
  import opened SoakHistory
  import opened Availability

  ghost predicate Approved(run: seq<Event>, stage: string)
  {
    exists i :: ApprovesAt(run, stage, i)
  }

  /** The Freight was verified in the upstream Stage and, if a soak of more than
      nothing is required, one of its stays there was, or is, that long. */
  ghost predicate RipeByHistory(run: seq<Event>, upstream: string, required: Option<Duration>, now: Time)
  {
    && (exists i :: VerifiesAt(run, upstream, i))
    && (required.Some? && required.value > 0 ==> exists d :: Soak(run, upstream, now, d) && d >= required.value)
  }

  ghost predicate AdmittedByHistory(r: Request, stage: string, run: seq<Event>, now: Time)
  {
    || Approved(run, stage)
    || r.sources.direct
    || (r.sources.strategy == "All"
        && forall u <- r.sources.stages :: RipeByHistory(run, u, r.sources.requiredSoakTime, now))
    || (r.sources.strategy != "All"
        && exists u <- r.sources.stages :: RipeByHistory(run, u, r.sources.requiredSoakTime, now))
  }

  /** Request i asks for the Freight's origin and admits it, and no earlier "All"
      request for that origin fails to. */
  ghost predicate AdmittedVia(s: Stage, f: Freight, run: seq<Event>, now: Time, i: nat)
  {
    && i < |s.requested| && s.requested[i].origin == f.origin
    && AdmittedByHistory(s.requested[i], s.name, run, now)
    && forall j :: 0 <= j < i && s.requested[j].origin == f.origin && s.requested[j].sources.strategy == "All" ==>
         AdmittedByHistory(s.requested[j], s.name, run, now)
  }

  lemma {:induction false} VerifiedBeforeEnd(run: seq<Event>, s: string)
    ensures VerifiedBefore(run, s, |run|) <==> exists i :: VerifiesAt(run, s, i)
  {
    if i :| VerifiesAt(run, s, i) {
      assert 0 <= i < |run|;
    }
    if VerifiedBefore(run, s, |run|) {
      var k :| 0 <= k < |run| && run[k].step.Verify? && run[k].step.stage == s;
      assert VerifiesAt(run, s, k);
    }
  }

  lemma {:induction false} RipenedExactly(
    f: Freight, run: seq<Event>, upstream: string, required: Option<Duration>, from: Time, now: Time)
    requires Clocked(run, from, now) && f.status == After(EMPTY, run, |run|) && f.status.SinceKnown()
    ensures Ripened(f, upstream, required, now) <==> RipeByHistory(run, upstream, required, now)
  {
    RecordsMirrorHistory(run, upstream, |run|);
    VerifiedBeforeEnd(run, upstream);
    LongestSoakIsMaximum(run, upstream, from, now);
    var g := f.status.GetLongestSoak(upstream, now);
    assert f.status.Readable(upstream);
    RunKeepsSound(EMPTY, run, |run|, from, now, now);
    assert g >= 0;
  }

  lemma {:induction false} AdmitsExactly(
    r: Request, stage: string, f: Freight, run: seq<Event>, from: Time, now: Time)
    requires Clocked(run, from, now) && f.status == After(EMPTY, run, |run|) && f.status.SinceKnown()
    ensures Admits(r, stage, f, now) <==> AdmittedByHistory(r, stage, run, now)
  {
    RecordsMirrorHistory(run, stage, |run|);
    forall u
      ensures Ripened(f, u, r.sources.requiredSoakTime, now) <==>
        RipeByHistory(run, u, r.sources.requiredSoakTime, now)
    {
      RipenedExactly(f, run, u, r.sources.requiredSoakTime, from, now);
    }
  }

  /** Freight with a history is available to a Stage exactly if they share a
      namespace and some request admits it by that history. */
  lemma {:induction false} AvailableExactly(s: Stage, f: Freight, run: seq<Event>, from: Time, now: Time)
    requires Clocked(run, from, now) && f.status == After(EMPTY, run, |run|)
    ensures f.status.SinceKnown()
    ensures Available(s, f, now) <==>
      s.namespace == f.namespace && exists i :: AdmittedVia(s, f, run, now, i)
  {
    RunKeepsSound(EMPTY, run, |run|, from, now, now);
    forall i | 0 <= i < |s.requested|
      ensures Admits(s.requested[i], s.name, f, now) <==> AdmittedByHistory(s.requested[i], s.name, run, now)
    {
      AdmitsExactly(s.requested[i], s.name, f, run, from, now);
    }
    assert forall i :: AvailableVia(s, f, now, i) <==> AdmittedVia(s, f, run, now, i);
  }

  /** In particular an approval suffices wherever the Freight's origin is requested. */
  lemma {:induction false} ApprovedIsAvailable(s: Stage, f: Freight, run: seq<Event>, from: Time, now: Time, k: nat, i: nat)
    requires Clocked(run, from, now) && f.status == After(EMPTY, run, |run|)
    requires k < |run| && run[k].step.Approve? && run[k].step.stage == s.name
    requires i < |s.requested| && s.requested[i].origin == f.origin && s.namespace == f.namespace
    ensures f.status.SinceKnown() && Available(s, f, now)
  {
    AvailableExactly(s, f, run, from, now);
    assert ApprovesAt(run, s.name, k);
    assert AdmittedVia(s, f, run, now, i);
  }
}
