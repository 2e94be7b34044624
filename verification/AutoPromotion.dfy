/** Choosing, per requested origin, the Freight that auto-promotion would pick
    (pkg/api/auto_promotion.go). */
module AutoPromotion {
  import opened Results
  import opened Times
  import opened Strings
  import opened Sorting
  import opened Availability
  import opened FreightListing
  import opened ListingAgreement

  /** Newest first, and by descending name among equally new Freight. */
  function NewestFirst(a: Freight, b: Freight): int
  {
    if a.EffectiveDiscoveredAt() != b.EffectiveDiscoveredAt() then
      b.EffectiveDiscoveredAt() - a.EffectiveDiscoveredAt()
    else Compare(b.name, a.name)
  }

  lemma {:induction false} NewestFirstIsComparator()
    ensures Comparator(NewestFirst)
  {
    forall a, b
      ensures Ordered(NewestFirst, a, b)
    {
      CompareFlips(a.name, b.name);
    }
    forall a, b, c
      ensures Chained(NewestFirst, a, b, c)
    {
      if Compare(c.name, b.name) <= 0 && Compare(b.name, a.name) <= 0 {
        CompareTransitive(c.name, b.name, a.name);
      }
    }
  }

  /** The Freight of one origin, in the order given. */
  function OfOrigin(available: seq<Freight>, origin: string): (r: seq<Freight>)
    ensures forall f :: f in r <==> f in available && f.origin.String() == origin
  {
    if available == [] then []
    else
      OfOrigin(available[..|available| - 1], origin)
      + (if available[|available| - 1].origin.String() == origin then [available[|available| - 1]] else [])
  }

  /** No later discovery, and no greater name among equally late ones. */
  ghost predicate Newest(f: Freight, group: seq<Freight>)
  {
    && f in group
    && forall g <- group ::
         || g.EffectiveDiscoveredAt() < f.EffectiveDiscoveredAt()
         || (g.EffectiveDiscoveredAt() == f.EffectiveDiscoveredAt() && Compare(g.name, f.name) <= 0)
  }

  /** The origin is skipped: nothing is available, or the upstream is ambiguous. */
  predicate Skipped(req: Request, available: seq<Freight>)
  {
    var group := OfOrigin(available, req.origin.String());
    group == [] || (req.sources.MatchUpstream() && |group| > 1)
  }

  ghost predicate Wanted(requested: seq<Request>, available: seq<Freight>, k: string)
  {
    exists req <- requested :: req.origin.String() == k && !Skipped(req, available)
  }

  lemma {:induction false} WantedAppend(rs: seq<Request>, req: Request, available: seq<Freight>, k: string)
    ensures Wanted(rs + [req], available, k) <==>
      Wanted(rs, available, k) || (req.origin.String() == k && !Skipped(req, available))
  {
    assert forall r :: r in rs + [req] <==> r in rs || r == req;
  }

  /** An origin has a candidate exactly if it is not skipped, and it is the
      newest Freight of that origin. */
  ghost predicate Chosen(s: Stage, available: seq<Freight>, candidates: map<string, Freight>, k: string)
  {
    && (k in candidates <==> Wanted(s.requested, available, k))
    && (k in candidates ==> Newest(candidates[k], OfOrigin(available, k)))
  }

  /** What the selection promises. */
  ghost predicate Selection(s: Stage, available: seq<Freight>, candidates: map<string, Freight>)
  {
    forall k :: Chosen(s, available, candidates, k)
  }

  function Lookup(groups: map<string, seq<Freight>>, origin: string): seq<Freight>
  {
    if origin in groups then groups[origin] else []
  }

  lemma {:induction false} OfOriginAppend(a: seq<Freight>, f: Freight, origin: string)
    ensures OfOrigin(a + [f], origin) == OfOrigin(a, origin) + (if f.origin.String() == origin then [f] else [])
  {
    assert (a + [f])[..|a|] == a;
  }

  method GroupByOrigin(available: seq<Freight>) returns (groups: map<string, seq<Freight>>)
    ensures forall k :: Lookup(groups, k) == OfOrigin(available, k)
  {
    groups := map[];
    for i := 0 to |available|
      invariant forall k :: Lookup(groups, k) == OfOrigin(available[..i], k)
    {
      var origin := available[i].origin.String();
      assert available[..i + 1] == available[..i] + [available[i]];
      forall k
        ensures OfOrigin(available[..i + 1], k) ==
          OfOrigin(available[..i], k) + (if origin == k then [available[i]] else [])
      {
        OfOriginAppend(available[..i], available[i], k);
      }
      ghost var before := groups;
      groups := groups[origin := Lookup(groups, origin) + [available[i]]];
      assert forall k :: k != origin ==> Lookup(groups, k) == Lookup(before, k);
    }
    assert available[..|available|] == available;
  }

  method SelectAutoPromotionCandidates(s: Stage, available: seq<Freight>)
    returns (candidates: map<string, Freight>)
    ensures Selection(s, available, candidates)
  {
    var availableByOrigin := GroupByOrigin(available);
    candidates := map[];
    for i := 0 to |s.requested|
      invariant forall k :: k in candidates <==> Wanted(s.requested[..i], available, k)
      invariant forall k <- candidates :: Newest(candidates[k], OfOrigin(available, k))
    {
      var req := s.requested[i];
      var origin := req.origin.String();
      assert s.requested[..i + 1] == s.requested[..i] + [req];
      forall k
        ensures Wanted(s.requested[..i + 1], available, k) <==>
          Wanted(s.requested[..i], available, k) || (origin == k && !Skipped(req, available))
      {
        WantedAppend(s.requested[..i], req, available, k);
      }
      var freight := Lookup(availableByOrigin, origin);
      if |freight| == 0 {
        continue;
      }
      if req.sources.MatchUpstream() && |freight| > 1 {
        continue;
      }
      var newest := PickNewest(freight);
      candidates := candidates[origin := newest];
    }
    assert s.requested[..|s.requested|] == s.requested;
  }

  method PickNewest(freight: seq<Freight>) returns (newest: Freight)
    requires freight != []
    ensures Newest(newest, freight)
  {
    NewestFirstIsComparator();
    var sorted := SortFunc(freight, NewestFirst);
    SameElements(sorted, freight);
    newest := sorted[0];
    forall g <- freight
      ensures NewestFirst(newest, g) <= 0
    {
      assert g in sorted;
      var i :| 0 <= i < |sorted| && sorted[i] == g;
      CompareFlips(g.name, newest.name);
    }
  }

  ghost predicate DistinctNames(available: seq<Freight>)
  {
    forall f, g :: f in available && g in available && f.name == g.name ==> f == g
  }

  lemma {:induction false} NewestUnique(f: Freight, g: Freight, group: seq<Freight>, same: seq<Freight>)
    requires Newest(f, group) && Newest(g, same)
    requires forall x :: x in group <==> x in same
    requires forall x, y :: x in group && y in group && x.name == y.name ==> x == y
    ensures f == g
  {
    assert f in same && g in group;
    CompareFlips(f.name, g.name);
  }

  lemma {:induction false} OfOriginCounts(a: seq<Freight>, origin: string, f: Freight)
    ensures multiset(OfOrigin(a, origin))[f] == if f.origin.String() == origin then multiset(a)[f] else 0
  {
    if a != [] {
      OfOriginCounts(a[..|a| - 1], origin, f);
      assert a == a[..|a| - 1] + [a[|a| - 1]];
    }
  }

  lemma {:induction false} OfOriginPermutes(a: seq<Freight>, b: seq<Freight>, origin: string)
    requires multiset(a) == multiset(b)
    ensures multiset(OfOrigin(a, origin)) == multiset(OfOrigin(b, origin))
  {
    forall f
      ensures multiset(OfOrigin(a, origin))[f] == multiset(OfOrigin(b, origin))[f]
    {
      OfOriginCounts(a, origin, f);
      OfOriginCounts(b, origin, f);
    }
  }

  lemma {:induction false} SkippedPermutes(req: Request, a: seq<Freight>, b: seq<Freight>)
    requires multiset(a) == multiset(b)
    ensures Skipped(req, a) <==> Skipped(req, b)
  {
    var k := req.origin.String();
    OfOriginPermutes(a, b, k);
    SameElements(OfOrigin(a, k), OfOrigin(b, k));
  }

  lemma {:induction false} WantedPermutes(rs: seq<Request>, a: seq<Freight>, b: seq<Freight>, k: string)
    requires multiset(a) == multiset(b)
    ensures Wanted(rs, a, k) <==> Wanted(rs, b, k)
  {
    forall req
      ensures Skipped(req, a) <==> Skipped(req, b)
    {
      SkippedPermutes(req, a, b);
    }
  }

  lemma {:induction false} OfOriginSubset(a: seq<Freight>, origin: string, f: Freight)
    requires f in OfOrigin(a, origin)
    ensures f in a
  {
    var init := a[..|a| - 1];
    if f in OfOrigin(init, origin) {
      OfOriginSubset(init, origin, f);
    }
  }

  lemma {:induction false} NewestPermutes(f: Freight, g: Freight, a: seq<Freight>, b: seq<Freight>, k: string)
    requires multiset(a) == multiset(b) && DistinctNames(a)
    requires Newest(f, OfOrigin(a, k)) && Newest(g, OfOrigin(b, k))
    ensures f == g
  {
    OfOriginPermutes(a, b, k);
    SameElements(OfOrigin(a, k), OfOrigin(b, k));
    forall x | x in OfOrigin(a, k)
      ensures x in a
    {
      OfOriginSubset(a, k, x);
    }
    NewestUnique(f, g, OfOrigin(a, k), OfOrigin(b, k));
  }

  lemma {:induction false} SameCandidate(
    s: Stage, a: seq<Freight>, b: seq<Freight>, ca: map<string, Freight>, cb: map<string, Freight>, k: string)
    requires multiset(a) == multiset(b) && DistinctNames(a)
    requires Selection(s, a, ca) && Selection(s, b, cb)
    ensures k in ca <==> k in cb
    ensures k in ca && k in cb ==> ca[k] == cb[k]
  {
    assert Chosen(s, a, ca, k) && Chosen(s, b, cb, k);
    WantedPermutes(s.requested, a, b, k);
    if k in ca {
      NewestPermutes(ca[k], cb[k], a, b, k);
    }
  }

  /** The selection does not depend on the order in which Freight is listed. */
  lemma {:induction false} SelectionIgnoresOrder(
    s: Stage, a: seq<Freight>, b: seq<Freight>, ca: map<string, Freight>, cb: map<string, Freight>)
    requires multiset(a) == multiset(b) && DistinctNames(a)
    requires Selection(s, a, ca) && Selection(s, b, cb)
    ensures ca == cb
  {
    forall k
      ensures k in ca <==> k in cb
      ensures k in ca && k in cb ==> ca[k] == cb[k]
    {
      SameCandidate(s, a, b, ca, cb, k);
    }
  }

  /** Selecting from the Stage's own listing picks only Freight that the point
      predicate finds available, and under MatchUpstream only Freight that the
      upstream Stage is using. */
  lemma {:induction false} CandidatesAreAvailable(
    s: Stage, warehouses: set<(string, string)>, available: seq<Freight>,
    candidates: map<string, Freight>, k: string, now: Time)
    requires Named(s) && DistinctOrigins(s) && Listable(s, warehouses)
    requires forall f <- available :: f.status.SinceKnown() && Listed(s, warehouses, f, now)
    requires Selection(s, available, candidates) && k in candidates
    requires candidates[k].status.Sound(now) || PositiveSoaks(s)
    ensures candidates[k].origin.String() == k
    ensures candidates[k] in available && Available(s, candidates[k], now)
    ensures forall req <- s.requested ::
      req.origin == candidates[k].origin ==> MatchesUpstream(req, candidates[k])
  {
    assert Chosen(s, available, candidates, k);
    assert candidates[k] in OfOrigin(available, k);
    ListingAgreesWithPredicate(s, warehouses, candidates[k], now);
  }

  /** The origin of this name is the Freight's. */
  ghost predicate AtMostOne(available: seq<Freight>, k: string)
  {
    forall i, j :: 0 <= i < j < |available| ==> available[i].origin.String() != k || available[j].origin.String() != k
  }

  lemma {:induction false} AtMostOneNext(init: seq<Freight>, last: Freight, k: string)
    ensures AtMostOne(init + [last], k) <==>
      AtMostOne(init, k) && (last.origin.String() == k ==> OfOrigin(init, k) == [])
  {
    var all := init + [last];
    if last.origin.String() == k && OfOrigin(init, k) != [] {
      var f := OfOrigin(init, k)[0];
      assert f in OfOrigin(init, k);
      var i :| 0 <= i < |init| && init[i] == f;
      assert all[i].origin.String() == k && all[|init|].origin.String() == k;
    }
    if AtMostOne(all, k) {
      forall i, j | 0 <= i < j < |init|
        ensures init[i].origin.String() != k || init[j].origin.String() != k
      {
        assert all[i] == init[i] && all[j] == init[j];
      }
    }
    if OfOrigin(init, k) == [] {
      forall f <- init
        ensures f.origin.String() != k
      {
        assert f !in OfOrigin(init, k);
      }
    }
  }

  lemma {:induction false} OfOriginCountsAtMostOne(available: seq<Freight>, k: string)
    ensures |OfOrigin(available, k)| <= 1 <==> AtMostOne(available, k)
  {
    if available != [] {
      var init, last := available[..|available| - 1], available[|available| - 1];
      OfOriginCountsAtMostOne(init, k);
      AtMostOneNext(init, last, k);
      assert available == init + [last];
    }
  }

  /** Which origins have a candidate, and which Freight it is: a requested origin
      with Freight available, only one of it if the upstream is to be matched; the
      latest discovered, or created if its discovery is unknown, and among equally
      late ones the greatest name. */
  lemma {:induction false} CandidatesExactly(
    s: Stage, available: seq<Freight>, candidates: map<string, Freight>, k: string)
    requires Selection(s, available, candidates)
    ensures k in candidates <==> exists req <- s.requested ::
      && req.origin.String() == k && (exists f <- available :: f.origin.String() == k)
      && (req.sources.selectionPolicy == Some("MatchUpstream") ==> AtMostOne(available, k))
    ensures k in candidates ==>
      var c := candidates[k];
      && c in available && c.origin.String() == k
      && forall g <- available :: g.origin.String() == k ==>
           var t := if c.discoveredAt.Some? then c.discoveredAt.value else c.createdAt;
           var u := if g.discoveredAt.Some? then g.discoveredAt.value else g.createdAt;
           u < t || (u == t && Compare(g.name, c.name) <= 0)
  {
    assert Chosen(s, available, candidates, k);
    OfOriginCountsAtMostOne(available, k);
    var group := OfOrigin(available, k);
    assert group == [] <==> forall f <- available :: f.origin.String() != k by {
      if group != [] {
        assert group[0] in group;
      }
    }
  }
}
