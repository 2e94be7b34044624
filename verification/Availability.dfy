/** Freight, Stages, and the point predicate that decides whether a piece of
    Freight is available to a Stage (api/v1alpha1/stage_types.go). */
module Availability {
  import opened Results
  import opened Times
  import opened Origins
  import opened FreightLedger
  import SoakHistory

  datatype Freight = Freight(
    namespace: string,
    name: string,
    origin: Origin,
    discoveredAt: Option<Time>,
    createdAt: Time,
    status: Ledger)
  {
    function EffectiveDiscoveredAt(): Time
    {
      match discoveredAt case Some(t) => t case None => createdAt
    }

    predicate IsCurrentlyIn(stage: string) { stage in status.currentlyIn }
    predicate IsVerifiedIn(stage: string) { stage in status.verifiedIn }
    predicate IsApprovedFor(stage: string) { stage in status.approvedFor }
  }

  const ALL := "All"
  const ONE_OF := "OneOf"
  const MATCH_UPSTREAM := "MatchUpstream"

  datatype Sources = Sources(
    direct: bool,
    stages: seq<string>,
    requiredSoakTime: Option<Duration>,
    strategy: string,
    selectionPolicy: Option<string>)
  {
    predicate MatchUpstream() { selectionPolicy == Some(MATCH_UPSTREAM) }
  }

  datatype Request = Request(origin: Origin, sources: Sources)
  datatype Stage = Stage(namespace: string, name: string, requested: seq<Request>)

  /** Verified in the upstream Stage, and soaked there for as long as required. */
  predicate Ripened(f: Freight, upstream: string, soak: Option<Duration>, now: Time)
    requires f.status.SinceKnown()
  {
    f.IsVerifiedIn(upstream) && f.status.HasSoakedIn(upstream, soak, now)
  }

  /** The request's sources, or an approval, let the Freight through. */
  predicate Admits(r: Request, stage: string, f: Freight, now: Time)
    requires f.status.SinceKnown()
  {
    || f.IsApprovedFor(stage)
    || r.sources.direct
    || (if r.sources.strategy == ALL then
          forall u <- r.sources.stages :: Ripened(f, u, r.sources.requiredSoakTime, now)
        else
          exists u <- r.sources.stages :: Ripened(f, u, r.sources.requiredSoakTime, now))
  }

  /** An "All" request that does not admit the Freight ends the search. */
  predicate Blocks(r: Request, stage: string, f: Freight, now: Time)
    requires f.status.SinceKnown()
  {
    r.origin == f.origin && r.sources.strategy == ALL && !Admits(r, stage, f, now)
  }

  /** Some request for the Freight's origin admits it, and none before that one blocks. */
  ghost predicate AvailableVia(s: Stage, f: Freight, now: Time, i: nat)
    requires f.status.SinceKnown()
  {
    && i < |s.requested|
    && s.requested[i].origin == f.origin
    && Admits(s.requested[i], s.name, f, now)
    && forall j :: 0 <= j < i ==> !Blocks(s.requested[j], s.name, f, now)
  }

  ghost predicate Available(s: Stage, f: Freight, now: Time)
    requires f.status.SinceKnown()
  {
    s.namespace == f.namespace && exists i :: AvailableVia(s, f, now, i)
  }

  /** Stage.IsFreightAvailable. */
  method IsFreightAvailable(s: Stage, freight: Freight, now: Time) returns (available: bool)
    requires freight.status.SinceKnown()
    ensures available <==> Available(s, freight, now)
  {
    if s.namespace != freight.namespace {
      return false;
    }
    for i := 0 to |s.requested|
      invariant forall k :: 0 <= k < i ==>
        !(s.requested[k].origin == freight.origin && Admits(s.requested[k], s.name, freight, now))
      invariant forall k :: 0 <= k < i ==> !Blocks(s.requested[k], s.name, freight, now)
    {
      var req := s.requested[i];
      if req.origin != freight.origin {
        continue;
      }
      if freight.IsApprovedFor(s.name) || req.sources.direct {
        assert AvailableVia(s, freight, now, i);
        return true;
      }
      if req.sources.strategy == ALL {
        for k := 0 to |req.sources.stages|
          invariant forall m :: 0 <= m < k ==>
            Ripened(freight, req.sources.stages[m], req.sources.requiredSoakTime, now)
        {
          var upstream := req.sources.stages[k];
          if !freight.IsVerifiedIn(upstream)
            || !freight.status.HasSoakedIn(upstream, req.sources.requiredSoakTime, now)
          {
            assert upstream in req.sources.stages;
            assert Blocks(req, s.name, freight, now);
            return false;
          }
        }
        assert AvailableVia(s, freight, now, i);
        return true;
      }
      for k := 0 to |req.sources.stages|
        invariant forall m :: 0 <= m < k ==>
          !Ripened(freight, req.sources.stages[m], req.sources.requiredSoakTime, now)
      {
        var upstream := req.sources.stages[k];
        if freight.IsVerifiedIn(upstream)
          && freight.status.HasSoakedIn(upstream, req.sources.requiredSoakTime, now)
        {
          assert upstream in req.sources.stages;
          assert AvailableVia(s, freight, now, i);
          return true;
        }
      }
    }
    return false;
  }

  ghost predicate DistinctOrigins(s: Stage)
  {
    forall i, j :: 0 <= i < j < |s.requested| ==> s.requested[i].origin != s.requested[j].origin
  }

  /** With one request per origin, nothing can block the request that admits. */
  lemma {:induction false} AvailableWithDistinctOrigins(s: Stage, f: Freight, now: Time)
    requires DistinctOrigins(s) && f.status.SinceKnown()
    ensures
      Available(s, f, now) <==>
      s.namespace == f.namespace
      && exists r <- s.requested :: r.origin == f.origin && Admits(r, s.name, f, now)
  {
    if r :| r in s.requested && r.origin == f.origin && Admits(r, s.name, f, now) {
      var i :| 0 <= i < |s.requested| && s.requested[i] == r;
      assert s.namespace == f.namespace ==> AvailableVia(s, f, now, i);
    }
  }

  /** Availability, once gained, is never lost to a status update or to the
      passing of time. */
  lemma {:induction false} AvailabilityIsStable(
    s: Stage, f: Freight, run: seq<SoakHistory.Event>, from: Time, now: Time)
    requires f.status.Sound(from) && SoakHistory.Clocked(run, from, now)
    requires Available(s, f, from)
    ensures
      var later := f.(status := SoakHistory.After(f.status, run, |run|));
      later.status.Sound(now) && Available(s, later, now)
  {
    SoakHistory.RunKeepsSound(f.status, run, |run|, from, now, now);
    var later := f.(status := SoakHistory.After(f.status, run, |run|));
    forall k | 0 <= k < |s.requested| && Admits(s.requested[k], s.name, f, from)
      ensures Admits(s.requested[k], s.name, later, now)
    {
      AdmissionIsStable(s.requested[k], s.name, f, run, from, now);
    }
    var i :| AvailableVia(s, f, from, i);
    assert AvailableVia(s, later, now, i);
  }

  lemma {:induction false} AdmissionIsStable(
    r: Request, stage: string, f: Freight, run: seq<SoakHistory.Event>, from: Time, now: Time)
    requires f.status.Sound(from) && SoakHistory.Clocked(run, from, now)
    requires Admits(r, stage, f, from)
    ensures
      var later := f.(status := SoakHistory.After(f.status, run, |run|));
      later.status.Sound(now) && Admits(r, stage, later, now)
  {
    var later := f.(status := SoakHistory.After(f.status, run, |run|));
    SoakHistory.RunKeepsStanding(f.status, run, |run|, stage, from, now, now);
    forall u | Ripened(f, u, r.sources.requiredSoakTime, from)
      ensures Ripened(later, u, r.sources.requiredSoakTime, now)
    {
      SoakHistory.RunKeepsStanding(f.status, run, |run|, u, from, now, now);
    }
  }
}
