/** The two ways Kargo decides availability agree: the indexed listing contains
    exactly the Freight for which the point predicate holds. */
module ListingAgreement {
  import opened Results
  import opened Times
  import opened Origins
  import opened FreightLedger
  import opened Availability
  import opened FreightListing

  /** Kubernetes names are never empty, and every origin is a Warehouse. */
  ghost predicate Named(s: Stage)
  {
    && s.name != ""
    && forall req <- s.requested :: req.origin.kind == WAREHOUSE && "" !in req.sources.stages
  }

  /** MatchUpstream further confines a listing to the upstream Stage's current Freight. */
  ghost predicate MatchesUpstream(req: Request, f: Freight)
  {
    (req.sources.MatchUpstream() && !req.sources.direct && req.sources.stages != [])
      ==> f.IsCurrentlyIn(req.sources.stages[0])
  }

  /** The query finds the Freight by one upstream Stage, the soak filter lets it
      pass by another that never verified it. */
  ghost predicate Misled(req: Request, stage: string, f: Freight, now: Time)
    requires f.status.SinceKnown()
  {
    && !req.sources.direct && req.sources.strategy != ALL && !f.IsApprovedFor(stage)
    && req.sources.requiredSoakTime.Some? && req.sources.requiredSoakTime.value <= 0
    && (exists u <- req.sources.stages :: f.IsVerifiedIn(u))
    && (exists u <- req.sources.stages :: !f.IsVerifiedIn(u))
    && !exists u <- req.sources.stages :: Ripened(f, u, req.sources.requiredSoakTime, now)
  }

  /** On a sound ledger nothing is misled, and no ledger can mislead a request that
      asks for a positive soak, or for none. */
  lemma {:induction false} NeverMisled(req: Request, stage: string, f: Freight, now: Time)
    requires f.status.SinceKnown()
    requires f.status.Sound(now) || req.sources.requiredSoakTime.None? || req.sources.requiredSoakTime.value > 0
    ensures !Misled(req, stage, f, now)
  {
    if f.status.Sound(now) {
      assert forall u <- req.sources.stages :: f.status.GetLongestSoak(u, now) >= 0;
    }
  }

  lemma {:induction false} ListedForMeans(s: Stage, warehouses: set<(string, string)>, req: Request, f: Freight, now: Time)
    requires Named(s) && Listable(s, warehouses) && req in s.requested && f.status.SinceKnown()
    ensures
      ListedFor(s, req, f, now) <==>
      && f.namespace == s.namespace && f.origin == req.origin
      && MatchesUpstream(req, f) && (Admits(req, s.name, f, now) || Misled(req, s.name, f, now))
  {
    var o := match OptionsFor(s, req.sources) case Some(o) => o case None => NO_OPTIONS;
    QueryAndFilterMeanRipened(o, req.origin.name, f, now);
  }

  ghost predicate AdmittedBy(s: Stage, f: Freight, now: Time, i: int)
    requires f.status.SinceKnown()
  {
    && 0 <= i < |s.requested|
    && s.requested[i].origin == f.origin
    && Admits(s.requested[i], s.name, f, now)
  }

  ghost predicate MisledBy(s: Stage, f: Freight, now: Time, i: int)
    requires f.status.SinceKnown()
  {
    && 0 <= i < |s.requested|
    && s.requested[i].origin == f.origin
    && Misled(s.requested[i], s.name, f, now)
  }

  /** What a listing contains, for every Stage and every ledger. */
  lemma {:induction false} ListedMeans(s: Stage, warehouses: set<(string, string)>, f: Freight, now: Time)
    requires Named(s) && Listable(s, warehouses) && f.status.SinceKnown()
    ensures
      Listed(s, warehouses, f, now) <==>
      && s.namespace == f.namespace
      && exists i ::
           (AdmittedBy(s, f, now, i) || MisledBy(s, f, now, i)) && MatchesUpstream(s.requested[i], f)
  {
    forall req <- s.requested
      ensures ListedFor(s, req, f, now) <==>
        && f.namespace == s.namespace && f.origin == req.origin
        && MatchesUpstream(req, f) && (Admits(req, s.name, f, now) || Misled(req, s.name, f, now))
    {
      ListedForMeans(s, warehouses, req, f, now);
    }
    if i :| (AdmittedBy(s, f, now, i) || MisledBy(s, f, now, i)) && MatchesUpstream(s.requested[i], f) {
      assert s.requested[i] in s.requested;
    }
  }

  /** The predicate holds and, where a request for the Freight's origin says
      MatchUpstream, the Freight is also currently in the upstream Stage. */
  ghost predicate AvailableUpstream(s: Stage, f: Freight, now: Time)
    requires f.status.SinceKnown()
  {
    && Available(s, f, now)
    && forall req <- s.requested :: req.origin == f.origin ==> MatchesUpstream(req, f)
  }

  /** For a Stage that requests each origin once, listing and predicate agree on
      a piece of Freight exactly if the Freight's request, where the upstream
      Stage is right, is not misled. */
  lemma {:induction false} ListingAgreesExactly(s: Stage, warehouses: set<(string, string)>, f: Freight, now: Time)
    requires Named(s) && DistinctOrigins(s) && Listable(s, warehouses) && f.status.SinceKnown()
    ensures
      (Listed(s, warehouses, f, now) <==> AvailableUpstream(s, f, now)) <==>
      !(s.namespace == f.namespace && exists i :: MisledBy(s, f, now, i) && MatchesUpstream(s.requested[i], f))
  {
    ListedMeans(s, warehouses, f, now);
    AvailableWithDistinctOrigins(s, f, now);
    if r :| r in s.requested && r.origin == f.origin && Admits(r, s.name, f, now) {
      var i :| 0 <= i < |s.requested| && s.requested[i] == r;
      assert AdmittedBy(s, f, now, i);
    }
    forall i, j | 0 <= i < |s.requested| && 0 <= j < |s.requested|
        && s.requested[i].origin == f.origin && s.requested[j].origin == f.origin
      ensures i == j
    {
    }
  }

  /** Every request asks for a positive soak or for none. */
  predicate PositiveSoaks(s: Stage)
  {
    forall req <- s.requested :: req.sources.requiredSoakTime.Some? ==> req.sources.requiredSoakTime.value > 0
  }

  /** So they agree on every sound ledger, such as every run of status updates
      under an advancing clock leaves; and on every ledger whatever, for requests
      that ask for a positive soak or for none. */
  lemma {:induction false} ListingAgreesWithPredicate(
    s: Stage, warehouses: set<(string, string)>, f: Freight, now: Time)
    requires Named(s) && DistinctOrigins(s) && Listable(s, warehouses) && f.status.SinceKnown()
    requires f.status.Sound(now) || PositiveSoaks(s)
    ensures Listed(s, warehouses, f, now) <==> AvailableUpstream(s, f, now)
  {
    ListingAgreesExactly(s, warehouses, f, now);
    forall i | 0 <= i < |s.requested|
      ensures !MisledBy(s, f, now, i)
    {
      assert s.requested[i] in s.requested;
      NeverMisled(s.requested[i], s.name, f, now);
    }
  }

  // ----- Repeated origins

  /** The request admits Freight that is verified in these Stages only, with this
      soak in each. */
  predicate Covers(r: Request, verified: set<string>, soak: Duration)
  {
    var enough := r.sources.requiredSoakTime.None? || r.sources.requiredSoakTime.value <= soak;
    || r.sources.direct
    || (if r.sources.strategy == ALL then
          forall u <- r.sources.stages :: u in verified && enough
        else
          exists u <- r.sources.stages :: u in verified && enough)
  }

  /** The least soak that satisfies the request. */
  function LeastSoak(r: Request): Duration
  {
    match r.sources.requiredSoakTime
    case None => 0
    case Some(d) => if d > 0 then d else 0
  }

  /** No request before i for the same origin admits such Freight. */
  ghost predicate NoneCovers(rs: seq<Request>, i: nat, verified: set<string>)
    requires i < |rs|
  {
    forall k :: 0 <= k < i && rs[k].origin == rs[i].origin ==> !Covers(rs[k], verified, LeastSoak(rs[i]))
  }

  /** Some Freight is admitted by request i and by none before it: it suffices to
      look at the Freight that does the least to be admitted. */
  ghost predicate CanBeFirst(rs: seq<Request>, i: nat)
    requires i < |rs|
  {
    var r := rs[i];
    if r.sources.direct then NoneCovers(rs, i, {})
    else if r.sources.strategy == ALL then NoneCovers(rs, i, set u | u in r.sources.stages)
    else exists u <- r.sources.stages :: NoneCovers(rs, i, {u})
  }

  ghost predicate Shadowed(rs: seq<Request>, i: nat)
    requires i < |rs|
  {
    && CanBeFirst(rs, i)
    && exists j :: 0 <= j < i && rs[j].origin == rs[i].origin && rs[j].sources.strategy == ALL
  }

  ghost predicate AgreesOn(s: Stage, warehouses: set<(string, string)>, f: Freight, now: Time)
    requires Listable(s, warehouses) && f.status.Sound(now)
  {
    Listed(s, warehouses, f, now) <==> Available(s, f, now)
  }

  ghost predicate AgreesAlways(s: Stage, warehouses: set<(string, string)>)
    requires Listable(s, warehouses)
  {
    forall f: Freight, now | f.status.Sound(now) :: AgreesOn(s, warehouses, f, now)
  }

  /** Freight that meets request i and is Ripened wherever it must be meets every
      request that its least form meets. */
  lemma {:induction false} CoversAdmits(
    r: Request, i: Request, verified: set<string>, stage: string, f: Freight, now: Time)
    requires f.status.Sound(now) && Covers(r, verified, LeastSoak(i))
    requires forall u <- verified :: Ripened(f, u, i.sources.requiredSoakTime, now)
    ensures Admits(r, stage, f, now)
  {
    assert forall u <- verified :: f.status.GetLongestSoak(u, now) >= 0;
    if !r.sources.direct && r.sources.strategy != ALL {
      var u :| u in r.sources.stages && u in verified;
      assert Ripened(f, u, r.sources.requiredSoakTime, now);
    }
  }

  /** A request that admits Freight before any other can be first. */
  lemma {:induction false} FirstCanBeFirst(s: Stage, f: Freight, now: Time, i: nat)
    requires f.status.Sound(now) && AdmittedBy(s, f, now, i) && !f.IsApprovedFor(s.name)
    requires forall k :: 0 <= k < i ==> !AdmittedBy(s, f, now, k)
    ensures CanBeFirst(s.requested, i)
  {
    var r := s.requested[i];
    var verified :=
      if r.sources.direct then {}
      else if r.sources.strategy == ALL then set u | u in r.sources.stages
      else var u :| u in r.sources.stages && Ripened(f, u, r.sources.requiredSoakTime, now); {u};
    forall k | 0 <= k < i && s.requested[k].origin == r.origin
      ensures !Covers(s.requested[k], verified, LeastSoak(r))
    {
      if Covers(s.requested[k], verified, LeastSoak(r)) {
        CoversAdmits(s.requested[k], r, verified, s.name, f, now);
        assert AdmittedBy(s, f, now, k);
      }
    }
    assert NoneCovers(s.requested, i, verified);
  }

  /** The Freight that does the least to be admitted by request i. */
  function Least(s: Stage, i: nat, verified: set<string>): Freight
    requires i < |s.requested|
  {
    var r := s.requested[i];
    Freight(s.namespace, "f", r.origin, None, 0,
            Ledger(map[], map u | u in verified :: VerifiedStage(0, Some(LeastSoak(r))), map[]))
  }

  lemma {:induction false} LeastIsCovered(s: Stage, i: nat, verified: set<string>, r: Request, now: Time)
    requires i < |s.requested|
    ensures Least(s, i, verified).status.Sound(now)
    ensures Admits(r, s.name, Least(s, i, verified), now) <==> Covers(r, verified, LeastSoak(s.requested[i]))
  {
    var f := Least(s, i, verified);
    assert forall u :: Ripened(f, u, r.sources.requiredSoakTime, now) <==>
      u in verified
      && (r.sources.requiredSoakTime.None? || r.sources.requiredSoakTime.value <= LeastSoak(s.requested[i]));
  }

  lemma {:induction false} ShadowedDisagrees(s: Stage, warehouses: set<(string, string)>, i: nat, now: Time)
    requires Named(s) && Listable(s, warehouses)
    requires forall req <- s.requested :: !req.sources.MatchUpstream()
    requires i < |s.requested| && Shadowed(s.requested, i)
    ensures exists f: Freight :: f.status.Sound(now) && !AgreesOn(s, warehouses, f, now)
  {
    var r := s.requested[i];
    var verified :=
      if r.sources.direct then {}
      else if r.sources.strategy == ALL then set u | u in r.sources.stages
      else var u :| u in r.sources.stages && NoneCovers(s.requested, i, {u}); {u};
    assert NoneCovers(s.requested, i, verified);
    assert Covers(r, verified, LeastSoak(r));
    var f := Least(s, i, verified);
    forall k | 0 <= k < |s.requested|
      ensures Admits(s.requested[k], s.name, f, now) <==> Covers(s.requested[k], verified, LeastSoak(r))
    {
      LeastIsCovered(s, i, verified, s.requested[k], now);
    }
    LeastIsCovered(s, i, verified, r, now);
    var j :| 0 <= j < i && s.requested[j].origin == r.origin && s.requested[j].sources.strategy == ALL;
    ListedMeans(s, warehouses, f, now);
    assert AdmittedBy(s, f, now, i) && MatchesUpstream(r, f);
    assert Blocks(s.requested[j], s.name, f, now);
    assert forall k: nat :: !AvailableVia(s, f, now, k);
  }

  lemma {:induction false} UnshadowedAgrees(s: Stage, warehouses: set<(string, string)>, f: Freight, now: Time)
    requires Named(s) && Listable(s, warehouses) && f.status.Sound(now)
    requires forall req <- s.requested :: !req.sources.MatchUpstream()
    requires forall i :: 0 <= i < |s.requested| ==> !Shadowed(s.requested, i)
    ensures AgreesOn(s, warehouses, f, now)
  {
    ListedMeans(s, warehouses, f, now);
    forall i | 0 <= i < |s.requested|
      ensures !MisledBy(s, f, now, i)
      ensures MatchesUpstream(s.requested[i], f)
    {
      NeverMisled(s.requested[i], s.name, f, now);
    }
    if i: nat :| AvailableVia(s, f, now, i) {
      assert AdmittedBy(s, f, now, i);
    }
    if m :| AdmittedBy(s, f, now, m) {
      var i := First(s, f, now, m);
      if !f.IsApprovedFor(s.name) {
        FirstCanBeFirst(s, f, now, i);
        assert !Shadowed(s.requested, i);
        assert forall j :: 0 <= j < i && s.requested[j].origin == f.origin ==> s.requested[j].sources.strategy != ALL;
      }
      assert AvailableVia(s, f, now, i);
    }
  }

  lemma {:induction false} First(s: Stage, f: Freight, now: Time, m: nat) returns (i: nat)
    requires f.status.SinceKnown() && AdmittedBy(s, f, now, m)
    ensures AdmittedBy(s, f, now, i) && forall k :: 0 <= k < i ==> !AdmittedBy(s, f, now, k)
    decreases m
  {
    if k :| 0 <= k < m && AdmittedBy(s, f, now, k) {
      i := First(s, f, now, k);
    } else {
      i := m;
    }
  }

  /** For which Stages, in terms of their requests alone, listing and predicate
      agree on all sound Freight at all times: those where no request that can
      be the first to admit some Freight follows one for all of some Stages and
      the same origin. (MatchUpstream confines the listing only.) */
  lemma {:induction false} StageAgreesExactly(s: Stage, warehouses: set<(string, string)>)
    requires Named(s) && Listable(s, warehouses)
    requires forall req <- s.requested :: !req.sources.MatchUpstream()
    ensures AgreesAlways(s, warehouses) <==> forall i :: 0 <= i < |s.requested| ==> !Shadowed(s.requested, i)
  {
    if i :| 0 <= i < |s.requested| && Shadowed(s.requested, i) {
      ShadowedDisagrees(s, warehouses, i, 0);
    } else {
      forall f: Freight, now | f.status.Sound(now)
        ensures AgreesOn(s, warehouses, f, now)
      {
        UnshadowedAgrees(s, warehouses, f, now);
      }
    }
  }

  /** The two do part when an origin is requested twice: a first request for all
      of no verified Stage hides a second, direct one. */
  lemma {:induction false} RepeatedOriginsDisagree()
    ensures exists s: Stage, warehouses, f: Freight, now ::
      && Named(s) && Listable(s, warehouses) && f.status.Sound(now)
      && Listed(s, warehouses, f, now) && !Available(s, f, now)
  {
    var w := Origin(WAREHOUSE, "w");
    var strict := Request(w, Sources(false, ["up"], None, ALL, None));
    var direct := Request(w, Sources(true, [], None, "", None));
    var s := Stage("p", "s", [strict, direct]);
    var f := Freight("p", "f", w, None, 0, EMPTY);
    var warehouses := {("p", "w")};
    assert "up" in strict.sources.stages;
    assert Listable(s, warehouses);
    assert ListedFor(s, s.requested[1], f, 0);
    assert Listed(s, warehouses, f, 0);
    assert Blocks(s.requested[0], s.name, f, 0);
    assert !Available(s, f, 0);
  }

  /** And they part on an unsound ledger: entered in the future after a negative
      soak, a verified Freight is older in a Stage it never saw. */
  lemma {:induction false} UnsoundLedgerDisagrees()
    ensures exists s: Stage, warehouses, f: Freight, now ::
      && Named(s) && DistinctOrigins(s) && Listable(s, warehouses) && f.status.SinceKnown()
      && Listed(s, warehouses, f, now) && !Available(s, f, now)
  {
    var w := Origin(WAREHOUSE, "w");
    var req := Request(w, Sources(false, ["a", "b"], Some(0), ONE_OF, None));
    var s := Stage("p", "s", [req]);
    var status := Ledger(map["a" := CurrentStage(Some(1))], map["a" := VerifiedStage(0, Some(-1))], map[]);
    var f := Freight("p", "f", w, None, 0, status);
    var warehouses := {("p", "w")};
    assert Listable(s, warehouses);
    assert "a" in req.sources.stages && "b" in req.sources.stages;
    assert status.HasSoakedIn("b", Some(0), 0) && !status.HasSoakedIn("a", Some(0), 0);
    assert ListedFor(s, s.requested[0], f, 0);
    assert Listed(s, warehouses, f, 0);
    assert !Admits(req, s.name, f, 0);
    assert !Available(s, f, 0);
  }
}
