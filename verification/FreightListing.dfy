/** The indexed counterpart of the availability predicate: listing all Freight
    available to a Stage by a union of index queries and a soak filter
    (pkg/api/warehouse.go, pkg/api/stage.go, pkg/indexer/indexer.go). */
module FreightListing {
  import opened Results
  import opened Times
  import opened Strings
  import opened Sorting
  import opened Origins
  import opened Availability

  // ----- Indexes and queries

  function FreightByWarehouse(f: Freight): set<string>
  {
    if f.origin.kind == WAREHOUSE then {f.origin.name} else {}
  }

  function FreightByCurrentStages(f: Freight): set<string> { f.status.currentlyIn.Keys }
  function FreightByVerifiedStages(f: Freight): set<string> { f.status.verifiedIn.Keys }
  function FreightApprovedForStages(f: Freight): set<string> { f.status.approvedFor.Keys }

  /** One term of a field selector: an index must hold a value. */
  datatype Term =
    | WarehouseTerm(value: string)
    | CurrentlyInTerm(value: string)
    | VerifiedInTerm(value: string)
    | ApprovedForTerm(value: string)
  {
    predicate Matches(f: Freight)
    {
      match this
      case WarehouseTerm(v) => v in FreightByWarehouse(f)
      case CurrentlyInTerm(v) => v in FreightByCurrentStages(f)
      case VerifiedInTerm(v) => v in FreightByVerifiedStages(f)
      case ApprovedForTerm(v) => v in FreightApprovedForStages(f)
    }
  }

  predicate MatchesAll(terms: seq<Term>, f: Freight)
  {
    forall t <- terms :: t.Matches(f)
  }

  /** client.List: the Freight of a namespace that a selector matches. */
  function List(store: seq<Freight>, namespace: string, terms: seq<Term>): (items: seq<Freight>)
    ensures forall f :: f in items <==> f in store && f.namespace == namespace && MatchesAll(terms, f)
  {
    if store == [] then []
    else
      (if store[0].namespace == namespace && MatchesAll(terms, store[0]) then [store[0]] else [])
      + List(store[1..], namespace, terms)
  }

  /** The API server's guarantee: a namespace holds one Freight of a given name. */
  ghost predicate UniqueNames(store: seq<Freight>)
  {
    forall f, g :: f in store && g in store && f.namespace == g.namespace && f.name == g.name ==> f == g
  }

  ghost predicate SinceKnown(store: seq<Freight>)
  {
    forall f <- store :: f.status.SinceKnown()
  }

  ghost predicate Sound(store: seq<Freight>, now: Time)
  {
    forall f <- store :: f.status.Sound(now)
  }

  // ----- Sort and de-dupe

  function NameOf(f: Freight): string { f.name }
  function ByName(a: Freight, b: Freight): int { Compare(a.name, b.name) }

  lemma {:induction false} ByNameIsComparator()
    ensures Comparator(ByName)
  {
    forall a, b
      ensures Ordered(ByName, a, b)
    {
      CompareFlips(a.name, b.name);
    }
    forall a, b, c
      ensures Chained(ByName, a, b, c)
    {
      if ByName(a, b) <= 0 && ByName(b, c) <= 0 {
        CompareTransitive(a.name, b.name, c.name);
      }
    }
  }

  /** Each item once, in strictly ascending order of name. */
  method SortAndDedupe(items: seq<Freight>, ghost store: seq<Freight>, ghost namespace: string)
    returns (r: seq<Freight>)
    requires UniqueNames(store)
    requires forall f <- items :: f in store && f.namespace == namespace
    ensures StrictlyAscending(r, NameOf)
    ensures forall f :: f in r <==> f in items
  {
    ByNameIsComparator();
    var sorted := SortFunc(items, ByName);
    SameElements(sorted, items);
    assert NameSorted(sorted, NameOf) by {
      forall i, j | 0 <= i < j < |sorted|
        ensures Compare(sorted[i].name, sorted[j].name) <= 0
      {
        assert ByName(sorted[i], sorted[j]) <= 0;
      }
    }
    CompactSorted(sorted, NameOf);
    r := CompactFunc(sorted, SameName(NameOf));
  }

  // ----- ListFreightFromWarehouse

  datatype ListOptions = ListOptions(
    approvedFor: string,
    verifiedIn: seq<string>,
    requiredSoakTime: Option<Duration>,
    strategy: string,
    currentlyIn: string)

  const NO_OPTIONS := ListOptions("", [], None, "", "")

  datatype ListError =
    | WarehouseNotFound(warehouse: string)
    | UnsupportedStrategy(strategy: string)
    | NoUpstreamStage // index out of range: MatchUpstream without an upstream Stage

  predicate KnownStrategy(s: string)
  {
    s == ALL || s == ONE_OF || s == ""
  }

  /** What a listing with these options promises to contain. */
  ghost predicate Wanted(o: ListOptions, w: string, f: Freight, now: Time)
    requires f.status.SinceKnown()
  {
    && f.origin == Origin(WAREHOUSE, w)
    && (o.currentlyIn != "" ==> f.IsCurrentlyIn(o.currentlyIn))
    && (|| (o.approvedFor == "" && o.verifiedIn == [])
        || (o.approvedFor != "" && f.IsApprovedFor(o.approvedFor))
        || (if o.strategy == ALL then
              forall u <- o.verifiedIn :: Ripened(f, u, o.requiredSoakTime, now)
            else
              exists u <- o.verifiedIn :: Ripened(f, u, o.requiredSoakTime, now)))
  }

  function CurrentlyInTerms(o: ListOptions): seq<Term>
  {
    if o.currentlyIn != "" then [CurrentlyInTerm(o.currentlyIn)] else []
  }

  /** Some selector of the union query matches the Freight. */
  ghost predicate Selected(o: ListOptions, w: string, f: Freight)
  {
    && f.origin == Origin(WAREHOUSE, w)
    && (o.currentlyIn != "" ==> f.IsCurrentlyIn(o.currentlyIn))
    && (|| (o.approvedFor == "" && o.verifiedIn == [])
        || (o.approvedFor != "" && f.IsApprovedFor(o.approvedFor))
        || (o.strategy == ALL && forall u <- o.verifiedIn :: f.IsVerifiedIn(u))
        || (o.strategy != ALL && exists u <- o.verifiedIn :: f.IsVerifiedIn(u)))
  }

  function VerifiedTerms(stages: seq<string>): seq<Term>
  {
    seq(|stages|, i requires 0 <= i < |stages| => VerifiedInTerm(stages[i]))
  }

  function Unconditional(w: string, o: ListOptions): seq<seq<Term>>
  {
    (if o.approvedFor == "" && o.verifiedIn == [] then [[WarehouseTerm(w)] + CurrentlyInTerms(o)] else [])
    + (if o.approvedFor != "" then
         [[WarehouseTerm(w), ApprovedForTerm(o.approvedFor)] + CurrentlyInTerms(o)]
       else [])
  }

  function OneOfSelectors(w: string, o: ListOptions, n: nat): seq<seq<Term>>
    requires n <= |o.verifiedIn|
  {
    seq(n, i requires 0 <= i < n =>
      [WarehouseTerm(w), VerifiedInTerm(o.verifiedIn[i])] + CurrentlyInTerms(o))
  }

  /** The selectors of the union query, in the order they are issued. */
  function Selectors(w: string, o: ListOptions): seq<seq<Term>>
  {
    Unconditional(w, o)
    + (if o.strategy == ALL then
         [[WarehouseTerm(w)] + VerifiedTerms(o.verifiedIn) + CurrentlyInTerms(o)]
       else OneOfSelectors(w, o, |o.verifiedIn|))
  }

  method BuildSelectors(w: string, o: ListOptions) returns (r: Result<seq<seq<Term>>, ListError>)
    ensures r ==
      if KnownStrategy(o.strategy) then Success(Selectors(w, o)) else Failure(UnsupportedStrategy(o.strategy))
  {
    var currently := CurrentlyInTerms(o);
    var selectors: seq<seq<Term>> := [];
    if o.approvedFor == "" && |o.verifiedIn| == 0 {
      selectors := selectors + [[WarehouseTerm(w)] + currently];
    }
    if o.approvedFor != "" {
      selectors := selectors + [[WarehouseTerm(w), ApprovedForTerm(o.approvedFor)] + currently];
    }
    assert selectors == Unconditional(w, o);
    if o.strategy == ALL {
      var sel := [WarehouseTerm(w)];
      for k := 0 to |o.verifiedIn|
        invariant sel == [WarehouseTerm(w)] + VerifiedTerms(o.verifiedIn[..k])
      {
        sel := sel + [VerifiedInTerm(o.verifiedIn[k])];
      }
      assert o.verifiedIn[..|o.verifiedIn|] == o.verifiedIn;
      sel := sel + currently;
      selectors := selectors + [sel];
    } else if o.strategy == ONE_OF || o.strategy == "" {
      for k := 0 to |o.verifiedIn|
        invariant selectors == Unconditional(w, o) + OneOfSelectors(w, o, k)
      {
        selectors := selectors + [[WarehouseTerm(w), VerifiedInTerm(o.verifiedIn[k])] + currently];
      }
    } else {
      return Failure(UnsupportedStrategy(o.strategy));
    }
    return Success(selectors);
  }

  lemma {:induction false} MatchesConcat(a: seq<Term>, b: seq<Term>, f: Freight)
    ensures MatchesAll(a + b, f) <==> MatchesAll(a, f) && MatchesAll(b, f)
  {
    assert forall t :: t in a + b <==> t in a || t in b;
  }

  lemma {:induction false} MatchesOne(t: Term, f: Freight)
    ensures MatchesAll([t], f) <==> t.Matches(f)
  {
    assert t in [t];
  }

  lemma {:induction false} MatchesTwo(t: Term, u: Term, f: Freight)
    ensures MatchesAll([t, u], f) <==> t.Matches(f) && u.Matches(f)
  {
    assert t in [t, u] && u in [t, u];
  }

  lemma {:induction false} CurrentlyInMeans(o: ListOptions, f: Freight)
    ensures MatchesAll(CurrentlyInTerms(o), f) <==> (o.currentlyIn != "" ==> f.IsCurrentlyIn(o.currentlyIn))
  {
    MatchesOne(CurrentlyInTerm(o.currentlyIn), f);
  }

  lemma {:induction false} VerifiedTermsMean(stages: seq<string>, f: Freight)
    ensures MatchesAll(VerifiedTerms(stages), f) <==> forall u <- stages :: f.IsVerifiedIn(u)
  {
    if MatchesAll(VerifiedTerms(stages), f) {
      forall u <- stages
        ensures f.IsVerifiedIn(u)
      {
        var i :| 0 <= i < |stages| && stages[i] == u;
        assert VerifiedTerms(stages)[i].Matches(f);
      }
    } else {
      var t :| t in VerifiedTerms(stages) && !t.Matches(f);
      assert t.value in stages;
    }
  }

  ghost predicate AnyMatches(selectors: seq<seq<Term>>, f: Freight)
  {
    exists sel <- selectors :: MatchesAll(sel, f)
  }

  lemma {:induction false} AnyMatchesConcat(a: seq<seq<Term>>, b: seq<seq<Term>>, f: Freight)
    ensures AnyMatches(a + b, f) <==> AnyMatches(a, f) || AnyMatches(b, f)
  {
    assert forall t :: t in a + b <==> t in a || t in b;
  }

  lemma {:induction false} OneOfSelectorsMean(w: string, o: ListOptions, f: Freight)
    ensures
      AnyMatches(OneOfSelectors(w, o, |o.verifiedIn|), f) <==>
      && f.origin == Origin(WAREHOUSE, w)
      && MatchesAll(CurrentlyInTerms(o), f)
      && exists u <- o.verifiedIn :: f.IsVerifiedIn(u)
  {
    var all := OneOfSelectors(w, o, |o.verifiedIn|);
    forall i | 0 <= i < |all|
      ensures
        MatchesAll(all[i], f) <==>
        && f.origin == Origin(WAREHOUSE, w)
        && MatchesAll(CurrentlyInTerms(o), f)
        && f.IsVerifiedIn(o.verifiedIn[i])
    {
      MatchesConcat([WarehouseTerm(w), VerifiedInTerm(o.verifiedIn[i])], CurrentlyInTerms(o), f);
      MatchesTwo(WarehouseTerm(w), VerifiedInTerm(o.verifiedIn[i]), f);
    }
    if u :| u in o.verifiedIn && f.IsVerifiedIn(u) {
      var i :| 0 <= i < |all| && o.verifiedIn[i] == u;
      assert all[i] in all;
    }
  }

  lemma {:induction false} AnyMatchesOne(sel: seq<Term>, f: Freight)
    ensures AnyMatches([sel], f) <==> MatchesAll(sel, f)
  {
    assert sel in [sel];
  }

  lemma {:induction false} UnconditionalMeans(w: string, o: ListOptions, f: Freight)
    ensures
      AnyMatches(Unconditional(w, o), f) <==>
      && f.origin == Origin(WAREHOUSE, w)
      && MatchesAll(CurrentlyInTerms(o), f)
      && (|| (o.approvedFor == "" && o.verifiedIn == [])
          || (o.approvedFor != "" && f.IsApprovedFor(o.approvedFor)))
  {
    var cur := CurrentlyInTerms(o);
    MatchesConcat([WarehouseTerm(w)], cur, f);
    MatchesOne(WarehouseTerm(w), f);
    MatchesConcat([WarehouseTerm(w), ApprovedForTerm(o.approvedFor)], cur, f);
    MatchesTwo(WarehouseTerm(w), ApprovedForTerm(o.approvedFor), f);
    AnyMatchesOne([WarehouseTerm(w)] + cur, f);
    AnyMatchesOne([WarehouseTerm(w), ApprovedForTerm(o.approvedFor)] + cur, f);
    assert Unconditional(w, o) ==
      if o.approvedFor != "" then [[WarehouseTerm(w), ApprovedForTerm(o.approvedFor)] + cur]
      else if o.verifiedIn == [] then [[WarehouseTerm(w)] + cur]
      else [];
  }

  lemma {:induction false} AllSelectorMeans(w: string, o: ListOptions, f: Freight)
    ensures
      AnyMatches([[WarehouseTerm(w)] + VerifiedTerms(o.verifiedIn) + CurrentlyInTerms(o)], f) <==>
      && f.origin == Origin(WAREHOUSE, w)
      && MatchesAll(CurrentlyInTerms(o), f)
      && forall u <- o.verifiedIn :: f.IsVerifiedIn(u)
  {
    var sel := [WarehouseTerm(w)] + VerifiedTerms(o.verifiedIn) + CurrentlyInTerms(o);
    AnyMatchesOne(sel, f);
    MatchesConcat([WarehouseTerm(w)] + VerifiedTerms(o.verifiedIn), CurrentlyInTerms(o), f);
    MatchesConcat([WarehouseTerm(w)], VerifiedTerms(o.verifiedIn), f);
    MatchesOne(WarehouseTerm(w), f);
    VerifiedTermsMean(o.verifiedIn, f);
  }

  /** The union of the queries, as a condition on the Freight. */
  lemma {:induction false} SelectorsMean(w: string, o: ListOptions, f: Freight)
    ensures AnyMatches(Selectors(w, o), f) <==> Selected(o, w, f)
  {
    CurrentlyInMeans(o, f);
    UnconditionalMeans(w, o, f);
    if o.strategy == ALL {
      AllSelectorMeans(w, o, f);
      AnyMatchesConcat(Unconditional(w, o),
        [[WarehouseTerm(w)] + VerifiedTerms(o.verifiedIn) + CurrentlyInTerms(o)], f);
    } else {
      OneOfSelectorsMean(w, o, f);
      AnyMatchesConcat(Unconditional(w, o), OneOfSelectors(w, o, |o.verifiedIn|), f);
    }
  }

  /** The Freight passes the soak filter. */
  ghost predicate Retained(o: ListOptions, f: Freight, now: Time)
    requires f.status.SinceKnown()
  {
    || o.verifiedIn == []
    || o.requiredSoakTime.None?
    || (o.approvedFor != "" && f.IsApprovedFor(o.approvedFor))
    || (if o.strategy == ALL then
          forall u <- o.verifiedIn :: f.status.HasSoakedIn(u, o.requiredSoakTime, now)
        else
          exists u <- o.verifiedIn :: f.status.HasSoakedIn(u, o.requiredSoakTime, now))
  }

  /** The de-duped union of the queries. */
  method QueryAll(store: seq<Freight>, namespace: string, selectors: seq<seq<Term>>)
    returns (freight: seq<Freight>)
    requires UniqueNames(store)
    ensures StrictlyAscending(freight, NameOf)
    ensures forall f :: f in freight <==> f in store && f.namespace == namespace && AnyMatches(selectors, f)
  {
    freight := [];
    for k := 0 to |selectors|
      invariant forall f :: f in freight <==>
        f in store && f.namespace == namespace && AnyMatches(selectors[..k], f)
    {
      assert selectors[..k + 1] == selectors[..k] + [selectors[k]];
      forall f
        ensures AnyMatches(selectors[..k + 1], f) <==>
          AnyMatches(selectors[..k], f) || MatchesAll(selectors[k], f)
      {
        AnyMatchesConcat(selectors[..k], [selectors[k]], f);
        AnyMatchesOne(selectors[k], f);
      }
      freight := freight + List(store, namespace, selectors[k]);
    }
    assert selectors[..|selectors|] == selectors;
    freight := SortAndDedupe(freight, store, namespace);
  }

  /** Whether enough of the upstream Stages report the required soak. */
  method SoakedEnough(o: ListOptions, f: Freight, now: Time) returns (enough: bool)
    requires f.status.SinceKnown()
    ensures enough <==>
      if o.strategy == ALL then
        forall u <- o.verifiedIn :: f.status.HasSoakedIn(u, o.requiredSoakTime, now)
      else
        exists u <- o.verifiedIn :: f.status.HasSoakedIn(u, o.requiredSoakTime, now)
  {
    var verifiedStages := {};
    for k := 0 to |o.verifiedIn|
      invariant verifiedStages ==
        set u | u in o.verifiedIn[..k] && f.status.HasSoakedIn(u, o.requiredSoakTime, now)
    {
      assert o.verifiedIn[..k + 1] == o.verifiedIn[..k] + [o.verifiedIn[k]];
      if f.status.HasSoakedIn(o.verifiedIn[k], o.requiredSoakTime, now) {
        verifiedStages := verifiedStages + {o.verifiedIn[k]};
      }
    }
    assert o.verifiedIn[..|o.verifiedIn|] == o.verifiedIn;
    var wantedStages := set u | u in o.verifiedIn;
    if o.strategy == ALL {
      if forall u <- o.verifiedIn :: f.status.HasSoakedIn(u, o.requiredSoakTime, now) {
        assert verifiedStages == wantedStages;
      }
      assert forall u <- o.verifiedIn :: u in wantedStages;
      return verifiedStages == wantedStages;
    }
    assert forall u <- o.verifiedIn ::
      f.status.HasSoakedIn(u, o.requiredSoakTime, now) <==> u in verifiedStages;
    assert |verifiedStages| > 0 <==> verifiedStages != {};
    return |verifiedStages| > 0;
  }

  lemma {:induction false} AppendKeepsAscending(filtered: seq<Freight>, freight: seq<Freight>, k: nat)
    requires StrictlyAscending(freight, NameOf) && k < |freight|
    requires StrictlyAscending(filtered, NameOf) && forall f <- filtered :: f in freight[..k]
    ensures StrictlyAscending(filtered + [freight[k]], NameOf)
    ensures freight[..k + 1] == freight[..k] + [freight[k]]
    ensures freight[k] !in freight[..k]
  {
    assert forall g <- freight[..k] :: Compare(g.name, freight[k].name) < 0;
    CompareFlips(freight[k].name, freight[k].name);
  }

  /** The Freight that pass the soak filter, in the order they came. */
  method FilterSoaked(o: ListOptions, freight: seq<Freight>, now: Time) returns (filtered: seq<Freight>)
    requires StrictlyAscending(freight, NameOf) && o.verifiedIn != [] && o.requiredSoakTime.Some?
    requires forall f <- freight :: f.status.SinceKnown()
    ensures StrictlyAscending(filtered, NameOf)
    ensures forall f :: f in filtered <==> f in freight && Retained(o, f, now)
  {
    filtered := [];
    for k := 0 to |freight|
      invariant StrictlyAscending(filtered, NameOf)
      invariant forall f :: f in filtered <==> f in freight[..k] && Retained(o, f, now)
    {
      var f := freight[k];
      AppendKeepsAscending(filtered, freight, k);
      if o.approvedFor != "" && f.IsApprovedFor(o.approvedFor) {
        filtered := filtered + [f];
        continue;
      }
      var enough := SoakedEnough(o, f, now);
      if enough {
        filtered := filtered + [f];
      }
    }
    assert freight[..|freight|] == freight;
  }

  /** ListFreightFromWarehouse. */
  method ListFreightFromWarehouse(
    store: seq<Freight>, namespace: string, w: string, opts: Option<ListOptions>, now: Time)
    returns (r: Result<seq<Freight>, ListError>)
    requires UniqueNames(store) && SinceKnown(store)
    ensures
      var o := match opts case Some(o) => o case None => NO_OPTIONS;
      if !KnownStrategy(o.strategy) then r == Failure(UnsupportedStrategy(o.strategy))
      else
        && r.Success?
        && StrictlyAscending(r.value, NameOf)
        && forall f :: f in r.value <==>
             f in store && f.namespace == namespace && Selected(o, w, f) && Retained(o, f, now)
  {
    var o := match opts case Some(o) => o case None => NO_OPTIONS;
    var built := BuildSelectors(w, o);
    if built.Failure? {
      return Failure(built.error);
    }
    var freight := QueryAll(store, namespace, built.value);
    forall f
      ensures AnyMatches(built.value, f) <==> Selected(o, w, f)
    {
      SelectorsMean(w, o, f);
    }
    if |o.verifiedIn| == 0 || o.requiredSoakTime.None? {
      return Success(freight);
    }
    var filtered := FilterSoaked(o, freight, now);
    return Success(filtered);
  }

  /** The query finds the Freight by one Stage, the filter lets it pass by another:
      a soak of zero or less is met where the Freight was never verified. */
  ghost predicate Parts(o: ListOptions, w: string, f: Freight, now: Time)
    requires f.status.SinceKnown()
  {
    && o.strategy != ALL
    && f.origin == Origin(WAREHOUSE, w)
    && (o.currentlyIn != "" ==> f.IsCurrentlyIn(o.currentlyIn))
    && !(o.approvedFor != "" && f.IsApprovedFor(o.approvedFor))
    && o.requiredSoakTime.Some? && o.requiredSoakTime.value <= 0
    && (exists u <- o.verifiedIn :: f.IsVerifiedIn(u))
    && (exists u <- o.verifiedIn :: !f.IsVerifiedIn(u))
    && !exists u <- o.verifiedIn :: Ripened(f, u, o.requiredSoakTime, now)
  }

  /** Query and soak filter together ask that the same Stages have verified the
      Freight and soaked it, exactly if they do not part. */
  lemma {:induction false} QueryAndFilterMeanRipened(o: ListOptions, w: string, f: Freight, now: Time)
    requires f.status.SinceKnown()
    ensures (Selected(o, w, f) && Retained(o, f, now) <==> Wanted(o, w, f, now)) <==> !Parts(o, w, f, now)
    ensures Wanted(o, w, f, now) ==> Selected(o, w, f) && Retained(o, f, now)
  {
    // An unverified Freight reports a soak of zero.
    assert forall u <- o.verifiedIn :: !f.IsVerifiedIn(u) ==> f.status.GetLongestSoak(u, now) == 0;
  }

  // ----- ListFreightAvailableToStage

  function OptionsFor(s: Stage, src: Sources): Option<ListOptions>
    requires src.MatchUpstream() && !src.direct ==> src.stages != []
  {
    if src.direct then None
    else
      Some(ListOptions(s.name, src.stages, src.requiredSoakTime, src.strategy,
                       if src.MatchUpstream() then src.stages[0] else ""))
  }

  /** Why a request cannot be listed, if it cannot. */
  function RequestError(s: Stage, warehouses: set<(string, string)>, req: Request): Option<ListError>
  {
    if (s.namespace, req.origin.name) !in warehouses then Some(WarehouseNotFound(req.origin.name))
    else if req.sources.direct then None
    else if req.sources.MatchUpstream() && req.sources.stages == [] then Some(NoUpstreamStage)
    else if !KnownStrategy(req.sources.strategy) then Some(UnsupportedStrategy(req.sources.strategy))
    else None
  }

  /** The Freight is listed on behalf of the request. */
  ghost predicate ListedFor(s: Stage, req: Request, f: Freight, now: Time)
    requires f.status.SinceKnown()
    requires req.sources.MatchUpstream() && !req.sources.direct ==> req.sources.stages != []
  {
    var o := match OptionsFor(s, req.sources) case Some(o) => o case None => NO_OPTIONS;
    f.namespace == s.namespace && Selected(o, req.origin.name, f) && Retained(o, f, now)
  }

  ghost predicate Listable(s: Stage, warehouses: set<(string, string)>)
  {
    forall req <- s.requested :: RequestError(s, warehouses, req).None?
  }

  ghost predicate Listed(s: Stage, warehouses: set<(string, string)>, f: Freight, now: Time)
    requires f.status.SinceKnown() && Listable(s, warehouses)
  {
    exists req <- s.requested :: ListedFor(s, req, f, now)
  }

  /** ListFreightAvailableToStage. */
  method ListFreightAvailableToStage(
    store: seq<Freight>, warehouses: set<(string, string)>, s: Stage, now: Time)
    returns (r: Result<seq<Freight>, ListError>)
    requires UniqueNames(store) && SinceKnown(store)
    ensures r.Success? <==> Listable(s, warehouses)
    ensures r.Failure? ==>
      exists i :: 0 <= i < |s.requested|
        && RequestError(s, warehouses, s.requested[i]) == Some(r.error)
        && forall j :: 0 <= j < i ==> RequestError(s, warehouses, s.requested[j]).None?
    ensures r.Success? ==>
      && StrictlyAscending(r.value, NameOf)
      && forall f :: f in r.value <==> f in store && Listed(s, warehouses, f, now)
  {
    var availableFreight: seq<Freight> := [];
    for i := 0 to |s.requested|
      invariant forall j :: 0 <= j < i ==> RequestError(s, warehouses, s.requested[j]).None?
      invariant forall f :: f in availableFreight <==>
        f in store && exists j :: 0 <= j < i && ListedFor(s, s.requested[j], f, now)
    {
      var req := s.requested[i];
      assert req in s.requested;
      if (s.namespace, req.origin.name) !in warehouses {
        return Failure(WarehouseNotFound(req.origin.name));
      }
      if !req.sources.direct && req.sources.MatchUpstream() && |req.sources.stages| == 0 {
        return Failure(NoUpstreamStage);
      }
      var freight := ListFreightFromWarehouse(
        store, s.namespace, req.origin.name, OptionsFor(s, req.sources), now);
      if freight.Failure? {
        return Failure(freight.error);
      }
      assert forall f :: f in freight.value <==> f in store && ListedFor(s, req, f, now);
      availableFreight := availableFreight + freight.value;
    }
    availableFreight := SortAndDedupe(availableFreight, store, s.namespace);
    return Success(availableFreight);
  }

  /** A request can be listed exactly if its Warehouse exists and, unless the Freight
      comes straight from there, its strategy is known and there is an upstream
      Stage to be matched, if one is to be. */
  lemma {:induction false} ListableExactly(s: Stage, warehouses: set<(string, string)>, req: Request)
    ensures RequestError(s, warehouses, req).None? <==>
      && (s.namespace, req.origin.name) in warehouses
      && (req.sources.direct
          || (req.sources.strategy in {"All", "OneOf", ""}
              && (req.sources.selectionPolicy == Some("MatchUpstream") ==> req.sources.stages != [])))
  {
  }
}
