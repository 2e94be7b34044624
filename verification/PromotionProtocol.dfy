/** How Promotions to one Stage are serialized. The Stage reconciler makes the
    first Promotion, and the first PromotionRequest, in comparator order current
    (pkg/controller/stages/regular_stages.go); the Promotion reconciler starts a
    Promotion only while the Stage awaits it (pkg/api/promotion.go,
    pkg/controller/promotions/promotions.go). Users create, abort and delete at
    any time in between. */
module PromotionProtocol {
  import opened Results
  import opened Strings
  import opened Sorting
  import opened Promotions
  import opened PromotionNames

  /** Unlike a Promotion's, a request's phase has no aborted form. */
  datatype RequestPhase = RNew | RPending | RRunning | RSucceeded | RFailed | RErrored | RUnknown(text: string)
  {
    predicate IsTerminal() { RSucceeded? || RFailed? || RErrored? }
  }

  datatype PromotionRequest = PromotionRequest(name: string, phase: RequestPhase)

  /** ComparePromotionRequestPhase. */
  function CompareRequestPhase(a: RequestPhase, b: RequestPhase): int
  {
    if a.RRunning? && !b.RRunning? then -1
    else if !a.RRunning? && b.RRunning? then 1
    else if !a.IsTerminal() && b.IsTerminal() then -1
    else if a.IsTerminal() && !b.IsTerminal() then 1
    else 0
  }

  /** ComparePromotionRequestByPhaseAndCreationTime. */
  function CompareRequest(a: PromotionRequest, b: PromotionRequest): int
  {
    if CompareRequestPhase(a.phase, b.phase) != 0 then CompareRequestPhase(a.phase, b.phase)
    else if !a.phase.IsTerminal() then Compare(a.name, b.name)
    else Compare(b.name, a.name)
  }

  lemma {:induction false} CompareRequestIsComparator()
    ensures Comparator(CompareRequest)
  {
    forall a, b
      ensures Sorting.Ordered(CompareRequest, a, b)
    {
      CompareFlips(a.name, b.name);
    }
    forall a, b, c
      ensures Chained(CompareRequest, a, b, c)
    {
      if CompareRequest(a, b) <= 0 && CompareRequest(b, c) <= 0 {
        if Compare(a.name, b.name) <= 0 && Compare(b.name, c.name) <= 0 {
          CompareTransitive(a.name, b.name, c.name);
        }
        if Compare(c.name, b.name) <= 0 && Compare(b.name, a.name) <= 0 {
          CompareTransitive(c.name, b.name, a.name);
        }
      }
    }
  }

  /** How admission names the Promotions of a Stage, and those of its Targets, from
      the ULID of their creation and their Freight; it overwrites any other name. */
  datatype Naming = Naming(own: (Ulid, string) -> string, child: (string, Ulid, string) -> string)

  function NamingOf(stage: string): Naming
  {
    Naming(
      (u: Ulid, freight) => StyleName(stage, u, freight),
      (target, u: Ulid, freight) => ChildName(stage, target, u, freight))
  }

  ghost predicate EarlierLesser(naming: Naming, m: Ulid, f: string, n: Ulid, g: string)
  {
    Compare(naming.own(m, f), naming.own(n, g)) < 0
  }

  /** Earlier creation, lesser name. */
  ghost predicate Ascending(naming: Naming)
  {
    forall m: Ulid, n: Ulid, f, g :: m < n && f != "" && g != "" ==> EarlierLesser(naming, m, f, n, g)
  }

  /** Generated names ascend. */
  lemma {:induction false} GeneratedNamesAscend(stage: string)
    requires stage != ""
    ensures Ascending(NamingOf(stage))
  {
    SamePrefixOrdersByCreation(stage, stage);
    forall m: Ulid, n: Ulid, f, g | m < n && f != "" && g != ""
      ensures EarlierLesser(NamingOf(stage), m, f, n, g)
    {
      assert EarlierFirst(stage, m, f, stage, n, g);
    }
  }

  /** One Stage with its Promotions and PromotionRequests, by name. The rest is
      history: the Promotions ever stored, for a ULID is never issued twice; which
      were stored since the latest reconciliation that found none running; and the
      ULIDs of those stored last, -1 before the first. */
  datatype Cluster = Cluster(
    naming: Naming,
    promotions: map<string, Promotion>,
    requests: map<string, PromotionRequest>,
    currentPromotion: Option<string>,
    currentRequest: Option<string>,
    issued: set<string>,
    latePromotions: set<string>,
    lateRequests: set<string>,
    lastPromotion: int,
    lastRequest: int)

  function Start(stage: string): Cluster
  {
    Cluster(NamingOf(stage), map[], map[], None, None, {}, {}, {}, -1, -1)
  }

  /** A Promotion to the Stage itself; the others are children of a request. */
  predicate Own(c: Cluster, p: string)
  {
    p in c.promotions && c.promotions[p].target == ""
  }

  predicate Child(c: Cluster, p: string)
  {
    p in c.promotions && c.promotions[p].target != ""
  }

  /** StageAwaitsPromotion. */
  predicate StageAwaitsPromotion(c: Cluster, p: Promotion)
  {
    if p.target != "" then p.owner != "" && c.currentRequest == Some(p.owner)
    else c.currentPromotion == Some(p.name)
  }

  /** The first of the Stage's own Promotions in comparator order. */
  ghost predicate FirstPromotion(c: Cluster, p: string)
  {
    Own(c, p) && forall q :: Own(c, q) ==> ComparePromotion(c.promotions[p], c.promotions[q]) <= 0
  }

  ghost predicate FirstRequest(c: Cluster, r: string)
  {
    r in c.requests && forall q <- c.requests :: CompareRequest(c.requests[r], c.requests[q]) <= 0
  }

  /** What the reconciler finds of the Stage's current Freight: nothing, or the
      phases of its verifications, newest first, and the Stage's health. */
  datatype Gate = NoFreight | Gate(verifications: seq<string>, health: Option<string>)
  {
    /** Verification must come first. */
    predicate Held()
    {
      && Gate?
      && ((exists v <- verifications :: !TerminalVerification(v))
          || ((health.None? || health.value == "Healthy")
              && (verifications == [] || !TerminalVerification(verifications[0]))))
    }
  }

  predicate TerminalVerification(phase: string)
  {
    phase in {"Successful", "Failed", "Error", "Aborted", "Inconclusive"}
  }

  datatype Step =
    | CreatePromotion(ulid: Ulid, freight: string)
    | CreateChild(ulid: Ulid, freight: string, target: string, owner: string)
    | MarkPending(name: string)
    | Begin(name: string)                 // the Promotion reconciler
    | End(name: string, phase: Phase)     // the Promotion reconciler
    | Abort(name: string)
    | Delete(name: string)
    | SyncPromotions(first: string, gate: Gate)
    | SyncNoPromotions
    | CreateRequest(ulid: Ulid, freight: string)
    | BeginRequest(name: string)
    | EndRequest(name: string, outcome: RequestPhase)
    | SyncRequests(first: string)
    | SyncNoRequests

  ghost predicate Enabled(c: Cluster, s: Step)
  {
    match s
    // The ULID is drawn before the object is stored: it may be less than that of
    // one already stored.
    case CreatePromotion(u, f) =>
      f != "" && c.naming.own(u, f) !in c.issued && c.naming.own(u, f) !in c.promotions
    // Admission demands an owner of a child; a request creates one child per
    // Target, while it is running.
    case CreateChild(u, f, t, o) =>
      && f != "" && c.naming.child(t, u, f) !in c.promotions && t != "" && o != ""
      && o in c.requests && c.requests[o].phase.RRunning?
      && forall p :: Child(c, p) && c.promotions[p].owner == o ==> c.promotions[p].target != t
    case MarkPending(n) => n in c.promotions && c.promotions[n].phase.New?
    case Begin(n) =>
      && n in c.promotions && !c.promotions[n].phase.IsTerminal()
      && StageAwaitsPromotion(c, c.promotions[n])
    case End(n, ph) => n in c.promotions && c.promotions[n].phase.Running? && ph.IsTerminal()
    case Abort(n) => n in c.promotions && !c.promotions[n].phase.IsTerminal()
    case Delete(n) => n in c.promotions
    case SyncPromotions(f, _) => FirstPromotion(c, f)
    case SyncNoPromotions => forall p :: !Own(c, p)
    case CreateRequest(u, f) => f != "" && c.naming.own(u, f) !in c.requests
    // Assumed of whatever runs requests: it works on the current one, and ends
    // a request when its children have ended.
    case BeginRequest(n) => n in c.requests && !c.requests[n].phase.IsTerminal() && c.currentRequest == Some(n)
    case EndRequest(n, ph) =>
      && n in c.requests && !c.requests[n].phase.IsTerminal() && ph.IsTerminal()
      && forall p :: Child(c, p) && c.promotions[p].owner == n ==> c.promotions[p].phase.IsTerminal()
    case SyncRequests(f) => FirstRequest(c, f)
    case SyncNoRequests => c.requests == map[]
  }

  function SetPhase(c: Cluster, n: string, phase: Phase): Cluster
    requires n in c.promotions
  {
    c.(promotions := c.promotions[n := c.promotions[n].(phase := phase)])
  }

  /** syncPromotions' choice of the current Promotion. */
  function Current(c: Cluster, first: Promotion, gate: Gate): Option<string>
  {
    if c.currentPromotion.Some? && (c.currentPromotion.value != first.name || first.phase.IsTerminal()) then None
    else if gate.Held() then c.currentPromotion
    else if !first.phase.IsTerminal() then Some(first.name)
    else c.currentPromotion
  }

  ghost function Next(c: Cluster, s: Step): Cluster
    requires Enabled(c, s)
  {
    match s
    case CreatePromotion(u, f) =>
      var n := c.naming.own(u, f);
      c.(promotions := c.promotions[n := Promotion(n, New, "", "", 0)],
         issued := c.issued + {n}, latePromotions := c.latePromotions + {n}, lastPromotion := u)
    case CreateChild(u, f, t, o) =>
      var n := c.naming.child(t, u, f);
      c.(promotions := c.promotions[n := Promotion(n, New, t, o, 0)])
    case MarkPending(n) => SetPhase(c, n, Pending)
    case Begin(n) => SetPhase(c, n, Running)
    case End(n, ph) => SetPhase(c, n, ph)
    case Abort(n) => SetPhase(c, n, Aborted)
    case Delete(n) => c.(promotions := c.promotions - {n})
    case SyncPromotions(f, gate) =>
      c.(currentPromotion := Current(c, c.promotions[f], gate),
         latePromotions := if c.promotions[f].phase.Running? then c.latePromotions else {})
    case SyncNoPromotions => c.(currentPromotion := None, latePromotions := {})
    case CreateRequest(u, f) =>
      var n := c.naming.own(u, f);
      c.(requests := c.requests[n := PromotionRequest(n, RNew)],
         lateRequests := c.lateRequests + {n}, lastRequest := u)
    case BeginRequest(n) => c.(requests := c.requests[n := PromotionRequest(n, RRunning)])
    case EndRequest(n, ph) => c.(requests := c.requests[n := PromotionRequest(n, ph)])
    case SyncRequests(f) =>
      c.(currentRequest := if c.requests[f].phase.IsTerminal() then None else Some(f),
         lateRequests := if c.requests[f].phase.RRunning? then c.lateRequests else {})
    case SyncNoRequests => c.(currentRequest := None, lateRequests := {})
  }

  // ----- The invariant

  ghost predicate Named(c: Cluster)
  {
    && (forall p <- c.promotions :: c.promotions[p].name == p)
    && (forall r <- c.requests :: c.requests[r].name == r)
    && (c.currentPromotion.Some? ==> c.currentPromotion.value in c.issued)
    && (forall p :: Own(c, p) ==> p in c.issued)
    && (c.currentRequest.Some? ==> c.currentRequest.value in c.requests)
  }

  predicate Open(c: Cluster, p: string)
  {
    Own(c, p) && !c.promotions[p].phase.IsTerminal()
  }

  predicate OpenRequest(c: Cluster, r: string)
  {
    r in c.requests && !c.requests[r].phase.IsTerminal()
  }

  /** Only the current Promotion runs; if it has not ended, those older that have
      not either are late. */
  ghost predicate OwnSerialized(c: Cluster)
  {
    && (forall p :: Own(c, p) && c.promotions[p].phase.Running? ==> c.currentPromotion == Some(p))
    && (c.currentPromotion.Some? && Open(c, c.currentPromotion.value) ==>
          forall q :: Open(c, q) && Compare(q, c.currentPromotion.value) < 0 ==> q in c.latePromotions)
  }

  ghost predicate RequestsSerialized(c: Cluster)
  {
    && (forall r <- c.requests :: c.requests[r].phase.RRunning? ==> c.currentRequest == Some(r))
    && (c.currentRequest.Some? && OpenRequest(c, c.currentRequest.value) ==>
          forall q :: OpenRequest(c, q) && Compare(q, c.currentRequest.value) < 0 ==> q in c.lateRequests)
  }

  /** Children that have not ended belong to a running request, which has one for
      each Target. */
  ghost predicate ChildrenSerialized(c: Cluster)
  {
    && (forall p :: Child(c, p) && !c.promotions[p].phase.IsTerminal() ==>
          c.promotions[p].owner in c.requests && c.requests[c.promotions[p].owner].phase.RRunning?)
    && (forall p, q :: Child(c, p) && Child(c, q)
          && c.promotions[p].owner == c.promotions[q].owner && c.promotions[p].target == c.promotions[q].target
          ==> p == q)
  }

  ghost predicate Inv(c: Cluster)
  {
    Named(c) && OwnSerialized(c) && RequestsSerialized(c) && ChildrenSerialized(c)
  }

  lemma {:induction false} NamedKept(c: Cluster, s: Step)
    requires Named(c) && Enabled(c, s)
    ensures Named(Next(c, s))
  {
    var d := Next(c, s);
    assert forall p <- d.promotions :: d.promotions[p].name == p;
    assert forall p :: Own(d, p) ==> Own(c, p) || (s.CreatePromotion? && p == c.naming.own(s.ulid, s.freight));
  }

  // ----- The Stage's own Promotions

  /** Of Promotions that have not ended, the first in order is a running one or
      the oldest. */
  lemma {:induction false} FirstIsOldest(c: Cluster, f: string, q: string)
    requires Named(c) && FirstPromotion(c, f) && Open(c, q)
    requires Open(c, f) && !c.promotions[f].phase.Running?
    ensures Compare(q, f) >= 0
  {
    assert ComparePromotion(c.promotions[f], c.promotions[q]) <= 0;
    CompareFlips(f, q);
  }

  lemma {:induction false} FirstOfOpen(c: Cluster, f: string, p: string)
    requires Named(c) && FirstPromotion(c, f) && Open(c, p)
    ensures Open(c, f)
    ensures c.promotions[p].phase.Running? ==> c.promotions[f].phase.Running?
  {
    assert ComparePromotion(c.promotions[f], c.promotions[p]) <= 0;
  }

  lemma {:induction false} OwnAfterCreation(c: Cluster, u: Ulid, f: string)
    requires Inv(c) && Enabled(c, CreatePromotion(u, f))
    ensures OwnSerialized(Next(c, CreatePromotion(u, f)))
  {
    var d, n := Next(c, CreatePromotion(u, f)), c.naming.own(u, f);
    assert forall q :: Open(d, q) <==> Open(c, q) || q == n;
    assert forall q :: Own(d, q) && q != n ==> Own(c, q) && d.promotions[q] == c.promotions[q];
  }

  lemma {:induction false} OwnAfterSync(c: Cluster, f: string, gate: Gate)
    requires Inv(c) && FirstPromotion(c, f)
    ensures OwnSerialized(Next(c, SyncPromotions(f, gate)))
  {
    var d := Next(c, SyncPromotions(f, gate));
    assert c.promotions[f].name == f;
    assert forall q :: Open(d, q) <==> Open(c, q);
    assert forall q :: Own(d, q) <==> Own(c, q);
    forall p | Own(c, p) && c.promotions[p].phase.Running?
      ensures d.currentPromotion == Some(p)
    {
      FirstOfOpen(c, f, p);
      assert c.currentPromotion == Some(p) == Some(f);
    }
    if Open(c, f) && !c.promotions[f].phase.Running? {
      forall q | Open(c, q)
        ensures Compare(q, f) >= 0
      {
        FirstIsOldest(c, f, q);
      }
    }
  }

  /** A new phase opens no Promotion and starts none but the current one. */
  lemma {:induction false} OwnAfterPhase(c: Cluster, n: string, phase: Phase)
    requires OwnSerialized(c) && n in c.promotions
    requires !phase.IsTerminal() ==> !c.promotions[n].phase.IsTerminal()
    requires phase.Running? && Own(c, n) ==> c.currentPromotion == Some(n)
    ensures OwnSerialized(SetPhase(c, n, phase))
  {
    var d := SetPhase(c, n, phase);
    assert forall q :: Open(d, q) ==> Open(c, q);
    assert forall q :: Own(d, q) <==> Own(c, q);
  }

  lemma {:induction false} OwnAfterRemoval(c: Cluster, s: Step)
    requires OwnSerialized(c) && Enabled(c, s) && (s.Delete? || s.CreateChild? || s.SyncNoPromotions?)
    ensures OwnSerialized(Next(c, s))
  {
    var d := Next(c, s);
    assert forall q :: Open(d, q) ==> Open(c, q);
    assert forall q :: Own(d, q) ==> Own(c, q) && d.promotions[q] == c.promotions[q];
  }

  lemma {:induction false} OwnUntouched(c: Cluster, d: Cluster)
    requires OwnSerialized(c) && d.promotions == c.promotions && d.currentPromotion == c.currentPromotion
    requires d.latePromotions == c.latePromotions
    ensures OwnSerialized(d)
  {
    assert forall q :: Open(d, q) <==> Open(c, q);
    assert forall q :: Own(d, q) <==> Own(c, q);
  }

  lemma {:induction false} OwnKept(c: Cluster, s: Step)
    requires Inv(c) && Enabled(c, s)
    ensures OwnSerialized(Next(c, s))
  {
    match s
    case CreatePromotion(u, f) => OwnAfterCreation(c, u, f);
    case SyncPromotions(f, gate) => OwnAfterSync(c, f, gate);
    case MarkPending(n) => OwnAfterPhase(c, n, Pending);
    case Begin(n) =>
      assert c.promotions[n].name == n;
      OwnAfterPhase(c, n, Running);
    case End(n, phase) => OwnAfterPhase(c, n, phase);
    case Abort(n) => OwnAfterPhase(c, n, Aborted);
    case Delete(_) => OwnAfterRemoval(c, s);
    case CreateChild(_, _, _, _) => OwnAfterRemoval(c, s);
    case SyncNoPromotions => OwnAfterRemoval(c, s);
    case _ => OwnUntouched(c, Next(c, s));
  }

  // ----- Requests and children

  lemma {:induction false} FirstRequestIsOldest(c: Cluster, f: string, q: string)
    requires Named(c) && FirstRequest(c, f) && OpenRequest(c, q)
    ensures OpenRequest(c, f)
    ensures c.requests[q].phase.RRunning? ==> c.requests[f].phase.RRunning?
    ensures !c.requests[f].phase.RRunning? ==> Compare(q, f) >= 0
  {
    assert CompareRequest(c.requests[f], c.requests[q]) <= 0;
    CompareFlips(f, q);
  }

  lemma {:induction false} RequestsAfterSync(c: Cluster, f: string)
    requires Inv(c) && FirstRequest(c, f)
    ensures RequestsSerialized(Next(c, SyncRequests(f)))
  {
    var d := Next(c, SyncRequests(f));
    assert forall q :: OpenRequest(d, q) <==> OpenRequest(c, q);
    forall q | OpenRequest(c, q)
      ensures OpenRequest(c, f)
      ensures c.requests[q].phase.RRunning? ==> c.currentRequest == Some(q) == Some(f)
      ensures !c.requests[f].phase.RRunning? ==> Compare(q, f) >= 0
    {
      FirstRequestIsOldest(c, f, q);
    }
    assert c.requests[f].phase.RRunning? ==> c.currentRequest == Some(f);
  }

  lemma {:induction false} RequestsAfterCreation(c: Cluster, u: Ulid, f: string)
    requires Inv(c) && Enabled(c, CreateRequest(u, f))
    ensures RequestsSerialized(Next(c, CreateRequest(u, f)))
  {
    var d, n := Next(c, CreateRequest(u, f)), c.naming.own(u, f);
    assert forall q :: OpenRequest(d, q) <==> OpenRequest(c, q) || q == n;
  }

  /** A request moves on: none opens, and none starts but the current one. */
  lemma {:induction false} RequestsAfterPhase(c: Cluster, d: Cluster, n: string, phase: RequestPhase)
    requires RequestsSerialized(c) && OpenRequest(c, n)
    requires phase.RRunning? ==> c.currentRequest == Some(n)
    requires d.requests == c.requests[n := PromotionRequest(n, phase)] && d.currentRequest == c.currentRequest
    requires d.lateRequests == c.lateRequests
    ensures RequestsSerialized(d)
  {
    assert forall q :: OpenRequest(d, q) ==> OpenRequest(c, q);
  }

  lemma {:induction false} RequestsUntouched(c: Cluster, d: Cluster)
    requires RequestsSerialized(c) && d.requests == c.requests && d.currentRequest == c.currentRequest
    requires d.lateRequests == c.lateRequests
    ensures RequestsSerialized(d)
  {
    assert forall q :: OpenRequest(d, q) <==> OpenRequest(c, q);
  }

  lemma {:induction false} RequestsKept(c: Cluster, s: Step)
    requires Inv(c) && Enabled(c, s)
    ensures RequestsSerialized(Next(c, s))
  {
    var d := Next(c, s);
    match s
    case CreateRequest(u, f) => RequestsAfterCreation(c, u, f);
    case SyncRequests(f) => RequestsAfterSync(c, f);
    case SyncNoRequests =>
    case BeginRequest(n) => RequestsAfterPhase(c, d, n, RRunning);
    case EndRequest(n, phase) => RequestsAfterPhase(c, d, n, phase);
    case _ => RequestsUntouched(c, d);
  }

  lemma {:induction false} ChildrenAfterPhase(c: Cluster, n: string, phase: Phase)
    requires ChildrenSerialized(c) && n in c.promotions
    requires !phase.IsTerminal() ==> !c.promotions[n].phase.IsTerminal()
    ensures ChildrenSerialized(SetPhase(c, n, phase))
  {
    var d := SetPhase(c, n, phase);
    assert forall p :: Child(d, p) <==> Child(c, p);
  }

  lemma {:induction false} ChildrenAfterRequests(c: Cluster, s: Step)
    requires Inv(c) && Enabled(c, s)
    requires s.CreateRequest? || s.BeginRequest? || s.EndRequest? || s.SyncRequests? || s.SyncNoRequests?
    ensures ChildrenSerialized(Next(c, s))
  {
    var d := Next(c, s);
    assert forall p :: Child(d, p) <==> Child(c, p);
  }

  lemma {:induction false} ChildrenAfterPromotions(c: Cluster, s: Step)
    requires ChildrenSerialized(c) && Enabled(c, s)
    requires s.CreatePromotion? || s.CreateChild? || s.Delete? || s.SyncPromotions? || s.SyncNoPromotions?
    ensures ChildrenSerialized(Next(c, s))
  {
    var d := Next(c, s);
    assert forall p :: Child(d, p) && !(s.CreateChild? && p == c.naming.child(s.target, s.ulid, s.freight)) ==>
      Child(c, p) && d.promotions[p] == c.promotions[p];
  }

  lemma {:induction false} ChildrenKept(c: Cluster, s: Step)
    requires Inv(c) && Enabled(c, s)
    ensures ChildrenSerialized(Next(c, s))
  {
    match s
    case MarkPending(n) => ChildrenAfterPhase(c, n, Pending);
    case Begin(n) => ChildrenAfterPhase(c, n, Running);
    case End(n, phase) => ChildrenAfterPhase(c, n, phase);
    case Abort(n) => ChildrenAfterPhase(c, n, Aborted);
    case CreatePromotion(_, _) => ChildrenAfterPromotions(c, s);
    case CreateChild(_, _, _, _) => ChildrenAfterPromotions(c, s);
    case Delete(_) => ChildrenAfterPromotions(c, s);
    case SyncPromotions(_, _) => ChildrenAfterPromotions(c, s);
    case SyncNoPromotions => ChildrenAfterPromotions(c, s);
    case _ => ChildrenAfterRequests(c, s);
  }

  lemma {:induction false} InvKept(c: Cluster, s: Step)
    requires Inv(c) && Enabled(c, s)
    ensures Inv(Next(c, s))
  {
    NamedKept(c, s);
    OwnKept(c, s);
    RequestsKept(c, s);
    ChildrenKept(c, s);
  }

  // ----- The main results, over every run

  ghost predicate Run(c: Cluster, steps: seq<Step>, d: Cluster)
    decreases |steps|
  {
    if steps == [] then c == d
    else Enabled(c, steps[0]) && Run(Next(c, steps[0]), steps[1..], d)
  }

  lemma {:induction false} RunKeepsInv(c: Cluster, steps: seq<Step>, d: Cluster)
    requires Inv(c) && Run(c, steps, d)
    ensures Inv(d)
    decreases |steps|
  {
    if steps != [] {
      InvKept(c, steps[0]);
      RunKeepsInv(Next(c, steps[0]), steps[1..], d);
    }
  }

  /** At most one of the Stage's own Promotions is running. */
  lemma {:induction false} AtMostOneRuns(stage: string, steps: seq<Step>, c: Cluster, p: string, q: string)
    requires Run(Start(stage), steps, c)
    requires Own(c, p) && c.promotions[p].phase.Running?
    requires Own(c, q) && c.promotions[q].phase.Running?
    ensures p == q
  {
    RunKeepsInv(Start(stage), steps, c);
  }

  /** The Stage awaits one of its own Promotions only while no other is running,
      and ahead of an older one that has yet to end only if that one was stored
      after the reconciliation that chose. */
  lemma {:induction false} OvertakesOnlyLateArrivals(stage: string, steps: seq<Step>, c: Cluster, p: string, q: string)
    requires Run(Start(stage), steps, c)
    requires Own(c, p) && Enabled(c, Begin(p)) && Open(c, q)
    ensures c.promotions[q].phase.Running? ==> p == q
    ensures Compare(q, p) < 0 ==> q in c.latePromotions
  {
    RunKeepsInv(Start(stage), steps, c);
    assert c.promotions[p].name == p;
  }

  /** All running children belong to the current request, one for each Target. */
  lemma {:induction false} RunningChildrenShareTheirRequest(stage: string, steps: seq<Step>, c: Cluster, p: string, q: string)
    requires Run(Start(stage), steps, c)
    requires Child(c, p) && c.promotions[p].phase.Running?
    requires Child(c, q) && c.promotions[q].phase.Running?
    ensures c.currentRequest == Some(c.promotions[p].owner) == Some(c.promotions[q].owner)
    ensures c.promotions[p].target == c.promotions[q].target ==> p == q
  {
    RunKeepsInv(Start(stage), steps, c);
  }

  /** No child starts while a child of another request is running, nor ahead of an
      older request that has yet to end unless that one was stored after the
      reconciliation that chose. */
  lemma {:induction false} ChildrenStartInRounds(stage: string, steps: seq<Step>, c: Cluster, p: string, q: string, r: string)
    requires Run(Start(stage), steps, c)
    requires Child(c, p) && Enabled(c, Begin(p))
    requires Child(c, q) && c.promotions[q].phase.Running?
    requires OpenRequest(c, r)
    ensures c.promotions[q].owner == c.promotions[p].owner
    ensures Compare(r, c.promotions[p].owner) < 0 ==> r in c.lateRequests
  {
    RunKeepsInv(Start(stage), steps, c);
  }

  /** Late arrivals are overtaken indeed: of two Promotions created in one order
      and stored in the other, the newer may start first. */
  lemma {:induction false} LateArrivalIsOvertaken(
    stage: string, u: Ulid, f: string, v: Ulid, g: string) returns (steps: seq<Step>, c: Cluster)
    requires stage != "" && u < v && f != "" && g != ""
    ensures Run(Start(stage), steps, c) && |steps| == 3
    ensures
      var older, newer := StyleName(stage, u, f), StyleName(stage, v, g);
      Compare(older, newer) < 0 && Open(c, older) && Own(c, newer) && Enabled(c, Begin(newer))
  {
    var older, newer := StyleName(stage, u, f), StyleName(stage, v, g);
    GeneratedNamesAscend(stage);
    assert EarlierLesser(NamingOf(stage), u, f, v, g);
    CompareFlips(older, newer);
    CompareFlips(newer, newer);
    var c0 := Start(stage);
    var s1, s2, s3 := CreatePromotion(v, g), SyncPromotions(newer, NoFreight), CreatePromotion(u, f);
    var c1 := Next(c0, s1);
    assert forall q :: Own(c1, q) <==> q == newer;
    var c2 := Next(c1, s2);
    c := Next(c2, s3);
    steps := [s1, s2, s3];
    RunOfThree(c0, s1, s2, s3);
  }

  lemma {:induction false} RunOfThree(c: Cluster, s: Step, t: Step, u: Step)
    requires Enabled(c, s) && Enabled(Next(c, s), t) && Enabled(Next(Next(c, s), t), u)
    ensures Run(c, [s, t, u], Next(Next(Next(c, s), t), u))
  {
    var c1 := Next(c, s);
    var c2 := Next(c1, t);
    var d := Next(c2, u);
    assert Run(d, [], d);
    RunStep(c2, u, [], d);
    RunStep(c1, t, [u], d);
    RunStep(c, s, [t, u], d);
  }

  lemma {:induction false} RunStep(c: Cluster, s: Step, steps: seq<Step>, d: Cluster)
    requires Enabled(c, s) && Run(Next(c, s), steps, d)
    ensures Run(c, [s] + steps, d)
  {
    assert ([s] + steps)[1..] == steps;
  }

  // ----- Stored in the order of creation

  /** What is stored was created after all that was stored before. */
  predicate Ordered(c: Cluster, s: Step)
  {
    && (s.CreatePromotion? ==> c.lastPromotion < s.ulid)
    && (s.CreateRequest? ==> c.lastRequest < s.ulid)
  }

  ghost predicate OrderedRun(c: Cluster, steps: seq<Step>, d: Cluster)
    decreases |steps|
  {
    if steps == [] then c == d
    else Enabled(c, steps[0]) && Ordered(c, steps[0]) && OrderedRun(Next(c, steps[0]), steps[1..], d)
  }

  /** The name was generated from a ULID no later than the last. */
  ghost predicate Issued(naming: Naming, last: int, name: string)
  {
    exists m: Ulid, f :: m <= last && f != "" && name == naming.own(m, f)
  }

  /** No name is less than the current one. */
  ghost predicate NoneBefore(current: Option<string>, late: set<string>)
  {
    current.Some? ==> forall q <- late :: Compare(current.value, q) <= 0
  }

  /** Names follow the ULIDs, and what is late is newer than what is current. */
  ghost predicate InOrder(c: Cluster)
  {
    && Ascending(c.naming)
    && (forall p <- c.issued :: Issued(c.naming, c.lastPromotion, p))
    && (forall r <- c.requests :: Issued(c.naming, c.lastRequest, r))
    && NoneBefore(c.currentPromotion, c.latePromotions)
    && NoneBefore(c.currentRequest, c.lateRequests)
  }

  /** A name issued before is less than one issued now, and remains issued. */
  lemma {:induction false} IssuedBefore(naming: Naming, last: int, name: string, u: Ulid, freight: string)
    requires Ascending(naming) && Issued(naming, last, name) && last < u && freight != ""
    ensures Compare(name, naming.own(u, freight)) < 0
    ensures Issued(naming, u, name)
  {
    var m: Ulid, f :| m <= last && f != "" && name == naming.own(m, f);
    assert EarlierLesser(naming, m, f, u, freight);
  }

  lemma {:induction false} OrderAfterPromotion(c: Cluster, u: Ulid, f: string)
    requires Named(c) && InOrder(c) && Enabled(c, CreatePromotion(u, f)) && c.lastPromotion < u
    ensures InOrder(Next(c, CreatePromotion(u, f)))
  {
    var n := c.naming.own(u, f);
    forall p <- c.issued
      ensures Issued(c.naming, u, p) && Compare(p, n) < 0
    {
      IssuedBefore(c.naming, c.lastPromotion, p, u, f);
    }
    assert Issued(c.naming, u, n);
  }

  lemma {:induction false} OrderAfterRequest(c: Cluster, u: Ulid, f: string)
    requires Named(c) && InOrder(c) && Enabled(c, CreateRequest(u, f)) && c.lastRequest < u
    ensures InOrder(Next(c, CreateRequest(u, f)))
  {
    var n := c.naming.own(u, f);
    forall r <- c.requests
      ensures Issued(c.naming, u, r) && Compare(r, n) < 0
    {
      IssuedBefore(c.naming, c.lastRequest, r, u, f);
    }
    assert Issued(c.naming, u, n);
  }

  lemma {:induction false} OrderAfterSync(c: Cluster, s: Step)
    requires Inv(c) && InOrder(c) && Enabled(c, s) && (s.SyncPromotions? || s.SyncRequests?)
    ensures InOrder(Next(c, s))
  {
    if s.SyncPromotions? && c.promotions[s.first].phase.Running? {
      assert c.promotions[s.first].name == s.first && c.currentPromotion == Some(s.first);
    }
    if s.SyncRequests? && c.requests[s.first].phase.RRunning? {
      assert c.currentRequest == Some(s.first);
    }
  }

  lemma {:induction false} OrderKept(c: Cluster, s: Step)
    requires Inv(c) && InOrder(c) && Enabled(c, s) && Ordered(c, s)
    ensures InOrder(Next(c, s))
  {
    match s
    case CreatePromotion(u, f) => OrderAfterPromotion(c, u, f);
    case CreateRequest(u, f) => OrderAfterRequest(c, u, f);
    case SyncPromotions(_, _) => OrderAfterSync(c, s);
    case SyncRequests(_) => OrderAfterSync(c, s);
    case _ =>
  }

  lemma {:induction false} OrderedRunKeeps(c: Cluster, steps: seq<Step>, d: Cluster)
    requires Inv(c) && InOrder(c) && OrderedRun(c, steps, d)
    ensures Inv(d) && InOrder(d)
    decreases |steps|
  {
    if steps != [] {
      InvKept(c, steps[0]);
      OrderKept(c, steps[0]);
      OrderedRunKeeps(Next(c, steps[0]), steps[1..], d);
    }
  }

  lemma {:induction false} ReachedInOrder(stage: string, steps: seq<Step>, c: Cluster)
    requires stage != "" && OrderedRun(Start(stage), steps, c)
    ensures Inv(c) && InOrder(c)
  {
    GeneratedNamesAscend(stage);
    OrderedRunKeeps(Start(stage), steps, c);
  }

  /** If Promotions are stored in the order of their creation, the Stage awaits one
      of its own only while no older one has yet to end. */
  lemma {:induction false} NeverStartsAheadOfAnOlderOne(stage: string, steps: seq<Step>, c: Cluster, p: string, q: string)
    requires stage != "" && OrderedRun(Start(stage), steps, c)
    requires Own(c, p) && Enabled(c, Begin(p)) && Open(c, q)
    ensures Compare(p, q) <= 0
    ensures c.promotions[q].phase.Running? ==> p == q
  {
    ReachedInOrder(stage, steps, c);
    assert c.promotions[p].name == p;
    CompareFlips(p, q);
  }

  /** In terms of creation: what may start was created no later than any other of
      the Stage's own Promotions that has yet to end. */
  lemma {:induction false} StartsInOrderOfCreation(
    stage: string, steps: seq<Step>, c: Cluster, m: Ulid, f: string, n: Ulid, g: string)
    requires stage != "" && OrderedRun(Start(stage), steps, c) && f != "" && g != ""
    requires Own(c, StyleName(stage, m, f)) && Enabled(c, Begin(StyleName(stage, m, f)))
    requires Open(c, StyleName(stage, n, g))
    ensures m <= n
  {
    NeverStartsAheadOfAnOlderOne(stage, steps, c, StyleName(stage, m, f), StyleName(stage, n, g));
    if n < m {
      SamePrefixOrdersByCreation(stage, stage);
      assert EarlierFirst(stage, n, g, stage, m, f);
      CompareFlips(StyleName(stage, n, g), StyleName(stage, m, f));
    }
  }

  /** And if requests are, no child starts while an older request has yet to end. */
  lemma {:induction false} ChildrenStartInOrder(stage: string, steps: seq<Step>, c: Cluster, p: string, r: string)
    requires stage != "" && OrderedRun(Start(stage), steps, c)
    requires Child(c, p) && Enabled(c, Begin(p)) && OpenRequest(c, r)
    ensures Compare(c.promotions[p].owner, r) <= 0
  {
    ReachedInOrder(stage, steps, c);
    CompareFlips(c.promotions[p].owner, r);
  }

  // ----- The reconciliation

  /** What the reconciler calls first is the head of any sorted list of the
      Stage's own Promotions. */
  lemma {:induction false} HeadIsFirst(c: Cluster, sorted: seq<Promotion>)
    requires sorted != [] && SortedBy(sorted, ComparePromotion)
    requires forall p <- c.promotions :: c.promotions[p].name == p
    requires forall x :: x in sorted <==> Own(c, x.name) && c.promotions[x.name] == x
    ensures FirstPromotion(c, sorted[0].name)
  {
    assert sorted[0] in sorted;
    forall q | Own(c, q)
      ensures ComparePromotion(sorted[0], c.promotions[q]) <= 0
    {
      assert c.promotions[q] in sorted;
      var i :| 0 <= i < |sorted| && sorted[i] == c.promotions[q];
      CompareFlips(q, q);
    }
  }

  /** Two reconciliations with nothing left to verify admit the first Promotion:
      the first lets go of a current one that has ended or been overtaken. */
  lemma {:induction false} TwoSyncsAdmitTheFirst(c: Cluster, f: string, gate: Gate, again: Gate)
    requires Named(c) && FirstPromotion(c, f) && Open(c, f) && !gate.Held() && !again.Held()
    ensures
      var once := Next(c, SyncPromotions(f, gate));
      FirstPromotion(once, f) && Enabled(Next(once, SyncPromotions(f, again)), Begin(f))
  {
    var once := Next(c, SyncPromotions(f, gate));
    assert c.promotions[f].name == f;
    assert forall q :: Own(once, q) <==> Own(c, q);
  }

  /** While verification must come first, a reconciliation makes no Promotion
      current: it lets go of one that has ended or been overtaken, or changes nothing. */
  lemma {:induction false} HeldSyncAdmitsNone(c: Cluster, f: string, gate: Gate)
    requires Named(c) && FirstPromotion(c, f) && gate.Held()
    ensures
      var d := Next(c, SyncPromotions(f, gate));
      d.currentPromotion ==
        if c.currentPromotion == Some(f) && c.promotions[f].phase !in {Succeeded, Failed, Errored, Aborted}
        then c.currentPromotion else None
  {
  }

  /** From the start of a run to its end this Promotion is current. */
  ghost predicate Stays(c: Cluster, steps: seq<Step>, p: string)
    decreases |steps|
  {
    && c.currentPromotion == Some(p)
    && (steps == [] || (Enabled(c, steps[0]) && Stays(Next(c, steps[0]), steps[1..], p)))
  }

  /** What a Stage has current at the end of a run was made current by some
      reconciliation, and stayed so. */
  lemma {:induction false} LastAdmission(c: Cluster, steps: seq<Step>, d: Cluster, p: string)
    returns (i: nat, before: Cluster)
    requires Run(c, steps, d) && d.currentPromotion == Some(p) && !Stays(c, steps, p)
    ensures i < |steps| && Run(c, steps[..i], before) && before.currentPromotion != Some(p)
    ensures Enabled(before, steps[i]) && Run(Next(before, steps[i]), steps[i + 1..], d)
    ensures Stays(Next(before, steps[i]), steps[i + 1..], p)
    decreases |steps|
  {
    var next := Next(c, steps[0]);
    if Stays(next, steps[1..], p) {
      i, before := 0, c;
    } else {
      var k;
      k, before := LastAdmission(next, steps[1..], d, p);
      i := k + 1;
      assert steps[1..][..k] == steps[..i][1..] && steps[1..][k + 1..] == steps[i + 1..];
    }
  }

  /** No Freight, or none of its verifications unfinished and, unless the Stage is
      known to be other than healthy, at least one. */
  ghost predicate NothingToVerify(gate: Gate)
  {
    gate.NoFreight? || (
      && (forall v <- gate.verifications :: v in {"Successful", "Failed", "Error", "Aborted", "Inconclusive"})
      && ((gate.health.Some? && gate.health.value != "Healthy") || gate.verifications != []))
  }

  lemma {:induction false} AdmittedBy(c: Cluster, s: Step, p: string)
    requires Named(c) && Enabled(c, s) && c.currentPromotion != Some(p) && Next(c, s).currentPromotion == Some(p)
    ensures s.SyncPromotions? && s.first == p && FirstPromotion(c, p) && NothingToVerify(s.gate)
    ensures c.promotions[p].phase !in {Succeeded, Failed, Errored, Aborted}
  {
  }

  /** One of the Stage's own Promotions can start only once a reconciliation found
      it first and unfinished, with nothing of the current Freight left to verify,
      and it has been current ever since. */
  lemma {:induction false} StartsOnlyIfAdmitted(stage: string, steps: seq<Step>, c: Cluster, p: string)
    returns (i: nat, before: Cluster)
    requires Run(Start(stage), steps, c) && Own(c, p) && Enabled(c, Begin(p))
    ensures i < |steps| && Run(Start(stage), steps[..i], before)
    ensures before.currentPromotion != Some(p) && FirstPromotion(before, p)
    ensures before.promotions[p].phase !in {Succeeded, Failed, Errored, Aborted}
    ensures steps[i].SyncPromotions? && steps[i].first == p && NothingToVerify(steps[i].gate)
    ensures Run(Next(before, steps[i]), steps[i + 1..], c) && Stays(Next(before, steps[i]), steps[i + 1..], p)
  {
    RunKeepsInv(Start(stage), steps, c);
    assert c.promotions[p].name == p;
    i, before := LastAdmission(Start(stage), steps, c, p);
    RunKeepsInv(Start(stage), steps[..i], before);
    StaysCurrent(Next(before, steps[i]), steps[i + 1..], p);
    AdmittedBy(before, steps[i], p);
  }

  lemma {:induction false} StaysCurrent(c: Cluster, steps: seq<Step>, p: string)
    requires Stays(c, steps, p)
    ensures c.currentPromotion == Some(p)
  {
  }

  /** A child may start exactly if it has not ended and its request is current. */
  lemma {:induction false} ChildStartsExactly(c: Cluster, p: string)
    requires Child(c, p) && c.promotions[p].owner != ""
    ensures Enabled(c, Begin(p)) <==>
      && c.promotions[p].phase !in {Succeeded, Failed, Errored, Aborted}
      && c.currentRequest == Some(c.promotions[p].owner)
  {
  }

  /** One reconciliation admits all unfinished children of the first request, if it
      has not ended, and of no other. */
  lemma {:induction false} SyncAdmitsChildren(c: Cluster, r: string, p: string)
    requires FirstRequest(c, r) && Child(c, p) && c.promotions[p].owner != "" && !c.promotions[p].phase.IsTerminal()
    ensures Enabled(Next(c, SyncRequests(r)), Begin(p)) <==>
      c.promotions[p].owner == r && c.requests[r].phase !in {RSucceeded, RFailed, RErrored}
  {
  }

  /** First comes a running request if there is one, else the least-named one that
      has neither succeeded nor failed nor ended in an error, if there is one. */
  lemma {:induction false} FirstRequestIs(c: Cluster, r: string, q: string)
    requires forall n <- c.requests :: c.requests[n].name == n
    requires FirstRequest(c, r) && q in c.requests && c.requests[q].phase !in {RSucceeded, RFailed, RErrored}
    ensures c.requests[r].phase !in {RSucceeded, RFailed, RErrored}
    ensures c.requests[q].phase.RRunning? ==> c.requests[r].phase.RRunning?
    ensures !c.requests[r].phase.RRunning? ==> Compare(r, q) <= 0
  {
  }
}
