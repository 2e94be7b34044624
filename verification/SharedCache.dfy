/** Lookups that go on at the same time share the cache use by use
    (pkg/image/cache.go), as those of the newest-build selector do
    (pkg/image/newest_build_selector.go). An interleaving is any sequence of the
    uses that they make of the cache, with any evictions in between. */
module SharedCache {
  import opened Results
  import opened Images
  import opened ImageSelection
  import opened ImageFanIn
  import opened ImageCache

  datatype Event = Used(who: nat, use: Use) | Dropped(keys: set<string>)

  /** What the cache holds after the events. */
  function Contents(events: seq<Event>): Entries
  {
    if events == [] then map[]
    else
      var before := Contents(events[..|events| - 1]);
      match events[|events| - 1]
      case Used(_, use) => Effect(before, use)
      case Dropped(keys) => before - keys
  }

  /** The uses that one lookup made. */
  function Part(events: seq<Event>, who: nat): seq<Use>
  {
    if events == [] then []
    else
      Part(events[..|events| - 1], who)
      + match events[|events| - 1]
        case Used(w, use) => if w == who then [use] else []
        case Dropped(_) => []
  }

  /** A lookup, and how the cache appears to it: which of its uses fail, and what it
      holds before each of them. */
  datatype Session = Session(op: Operation, view: Store)

  function Uses(reg: Registry, l: Session): seq<Use>
    requires reg.Valid()
  {
    Cached(reg, l.op, l.view).1.log
  }

  ghost predicate ReadsWhatIsThere(events: seq<Event>, k: nat)
    requires k < |events|
  {
    events[k].Used? ==> Reads(Contents(events[..k]), events[k].use)
  }

  /** Each lookup has come part of its way, and what a read finds is there then. */
  ghost predicate Interleaved(logs: seq<seq<Use>>, events: seq<Event>)
  {
    && (forall i :: 0 <= i < |logs| ==> Part(events, i) <= logs[i])
    && (forall k :: 0 <= k < |events| ==> (events[k].Used? ==> events[k].who < |logs|) && ReadsWhatIsThere(events, k))
  }

  function AllUses(reg: Registry, lookups: seq<Session>): seq<seq<Use>>
    requires reg.Valid()
  {
    seq(|lookups|, i requires 0 <= i < |lookups| => Uses(reg, lookups[i]))
  }

  ghost predicate Interleaves(reg: Registry, lookups: seq<Session>, events: seq<Event>)
    requires reg.Valid()
  {
    (forall l <- lookups :: l.view.log == []) && Interleaved(AllUses(reg, lookups), events)
  }

  ghost predicate Finished(reg: Registry, lookups: seq<Session>, events: seq<Event>, i: nat)
    requires reg.Valid() && i < |lookups|
  {
    Part(events, i) == Uses(reg, lookups[i])
  }

  ghost predicate AreFrom(lookups: seq<Session>, pool: seq<Operation>)
  {
    forall l <- lookups :: !l.op.Evict? && l.op in pool
  }

  // ----- Shareable lookups do not mislead each other

  lemma {:induction false} InterleavedBefore(logs: seq<seq<Use>>, events: seq<Event>)
    requires Interleaved(logs, events) && events != []
    ensures Interleaved(logs, events[..|events| - 1])
  {
    var init := events[..|events| - 1];
    forall k | 0 <= k < |init|
      ensures (init[k].Used? ==> init[k].who < |logs|) && ReadsWhatIsThere(init, k)
    {
      assert init[..k] == events[..k];
      assert ReadsWhatIsThere(events, k);
    }
  }

  /** What a lookup that was told nothing wrong does next is right, unless it reads. */
  lemma {:induction false} NextIsRight(reg: Registry, pool: seq<Operation>, l: Session, done: seq<Use>, use: Use)
    requires reg.Valid() && Shareable(reg, pool) && l.op in pool && !l.op.Evict? && ValidOperation(l.op)
    requires l.view.log == [] && done + [use] <= Uses(reg, l)
    requires AllRight(reg, pool, done) && (use.Got? ==> RightUse(reg, pool, use))
    ensures RightUse(reg, pool, use)
  {
    var log, n := Uses(reg, l), |done|;
    OperationIsFaithful(reg, pool, l.op, l.view);
    assert log[n] == (done + [use])[n] == use;
    forall k | 0 <= k < n
      ensures RightUse(reg, pool, log[k])
    {
      assert log[k] == (done + [use])[k] == done[k];
      assert done[k] in done;
    }
    if m: nat :| MisledAt(reg, pool, log, m) {
      assert n < m ==> use == log[..m][n];
    } else {
      assert use in log;
    }
  }

  ghost predicate EventsRight(reg: Registry, pool: seq<Operation>, events: seq<Event>)
    requires reg.Valid()
  {
    forall e <- events :: e.Used? ==> RightUse(reg, pool, e.use)
  }

  lemma {:induction false} PartIsRight(reg: Registry, pool: seq<Operation>, events: seq<Event>, who: nat)
    requires reg.Valid() && EventsRight(reg, pool, events)
    ensures AllRight(reg, pool, Part(events, who))
  {
    if events != [] {
      var init, last := events[..|events| - 1], events[|events| - 1];
      assert last in events && forall e <- init :: e in events;
      PartIsRight(reg, pool, init, who);
    }
  }

  lemma {:induction false} AllEventsRight(
    reg: Registry, pool: seq<Operation>, lookups: seq<Session>, events: seq<Event>)
    requires reg.Valid() && Shareable(reg, pool) && forall op <- pool :: ValidOperation(op)
    requires AreFrom(lookups, pool) && Interleaves(reg, lookups, events)
    ensures EventsRight(reg, pool, events) && Right(reg, pool, Contents(events))
  {
    if events != [] {
      var n := |events| - 1;
      InterleavedBefore(AllUses(reg, lookups), events);
      AllEventsRight(reg, pool, lookups, events[..n]);
      if events[n].Used? {
        EventIsRight(reg, pool, lookups, events[..n], events[n].who, events[n].use, events);
      }
    }
  }

  lemma {:induction false} EventIsRight(
    reg: Registry, pool: seq<Operation>, lookups: seq<Session>, before: seq<Event>, who: nat, use: Use, events: seq<Event>)
    requires reg.Valid() && Shareable(reg, pool) && forall op <- pool :: ValidOperation(op)
    requires AreFrom(lookups, pool) && Interleaves(reg, lookups, events)
    requires events != [] && before == events[..|events| - 1] && events[|events| - 1] == Used(who, use)
    requires EventsRight(reg, pool, before) && Right(reg, pool, Contents(before))
    ensures RightUse(reg, pool, use)
  {
    assert ReadsWhatIsThere(events, |events| - 1);
    var l := lookups[who];
    assert l in lookups;
    PartIsRight(reg, pool, before, who);
    assert Part(events, who) == Part(before, who) + [use];
    NextIsRight(reg, pool, l, Part(before, who), use);
  }

  /** However lookups that may share a cache go on at the same time, each answers as
      without a cache. */
  lemma {:induction false} InterleavedIsUncached(
    reg: Registry, pool: seq<Operation>, lookups: seq<Session>, events: seq<Event>, i: nat)
    requires reg.Valid() && Shareable(reg, pool) && forall op <- pool :: ValidOperation(op)
    requires AreFrom(lookups, pool) && Interleaves(reg, lookups, events)
    requires i < |lookups| && Finished(reg, lookups, events, i)
    ensures Cached(reg, lookups[i].op, lookups[i].view).0 == Uncached(reg, lookups[i].op)
  {
    var l := lookups[i];
    assert l in lookups;
    AllEventsRight(reg, pool, lookups, events);
    PartIsRight(reg, pool, events, i);
    OperationIsFaithful(reg, pool, l.op, l.view);
    assert forall m: nat :: m < |Uses(reg, l)| ==> Uses(reg, l)[m] in Part(events, i);
  }

  // ----- Others may

  function By(who: nat, uses: seq<Use>): seq<Event>
  {
    seq(|uses|, k requires 0 <= k < |uses| => Used(who, uses[k]))
  }

  lemma {:induction false} ThenBy(events: seq<Event>, who: nat, uses: seq<Use>, i: nat)
    ensures Contents(events + By(who, uses)) == Effects(Contents(events), uses)
    ensures Part(events + By(who, uses), i) == Part(events, i) + if i == who then uses else []
    decreases |uses|
  {
    var all := events + By(who, uses);
    if uses == [] {
      assert all == events;
    } else {
      var n := |uses| - 1;
      ThenBy(events, who, uses[..n], i);
      assert all[..|all| - 1] == events + By(who, uses[..n]);
      assert all[|all| - 1] == Used(who, uses[n]);
    }
  }

  lemma {:induction false} ThenByReads(events: seq<Event>, who: nat, uses: seq<Use>, k: nat)
    requires Truthful(Contents(events), uses) && |events| <= k < |events| + |uses|
    ensures ReadsWhatIsThere(events + By(who, uses), k)
  {
    var all, j := events + By(who, uses), k - |events|;
    assert all[..k] == events + By(who, uses[..j]);
    ThenBy(events, who, uses[..j], 0);
    assert Reads(Effects(Contents(events), uses[..j]), uses[j]);
  }

  /** One after the other. */
  function Serial(a: seq<Use>, b: seq<Use>): seq<Event>
  {
    [] + By(0, a) + By(1, b)
  }

  lemma {:induction false} SerialParts(a: seq<Use>, b: seq<Use>, i: nat)
    ensures Part(Serial(a, b), i) == if i == 0 then a else if i == 1 then b else []
  {
    ThenBy([], 0, a, i);
    ThenBy([] + By(0, a), 1, b, i);
  }

  lemma {:induction false} SerialReads(a: seq<Use>, b: seq<Use>, k: nat)
    requires Truthful(map[], a) && Truthful(Effects(map[], a), b) && k < |Serial(a, b)|
    ensures ReadsWhatIsThere(Serial(a, b), k)
  {
    var one := [] + By(0, a);
    ThenBy([], 0, a, 0);
    if k < |a| {
      ThenByReads([], 0, a, k);
      assert Serial(a, b)[..k] == one[..k];
    } else {
      ThenByReads(one, 1, b, k);
    }
  }

  /** One lookup after the other is an interleaving. */
  lemma {:induction false} SerialInterleaved(logs: seq<seq<Use>>)
    requires |logs| == 2 && Truthful(map[], logs[0]) && Truthful(Effects(map[], logs[0]), logs[1])
    ensures Interleaved(logs, Serial(logs[0], logs[1]))
  {
    var a, b := logs[0], logs[1];
    forall i: nat | i < |logs|
      ensures Part(Serial(a, b), i) <= logs[i]
    {
      SerialParts(a, b, i);
    }
    assert forall k :: 0 <= k < |Serial(a, b)| ==> Serial(a, b)[k].Used? && Serial(a, b)[k].who < 2;
    forall k | 0 <= k < |Serial(a, b)|
      ensures ReadsWhatIsThere(Serial(a, b), k)
    {
      SerialReads(a, b, k);
    }
  }

  /** Every lookup that is finished, in every interleaving of lookups from the pool,
      answers as without a cache. */
  ghost predicate TransparentInterleaved(reg: Registry, pool: seq<Operation>)
    requires reg.Valid()
  {
    forall lookups: seq<Session>, events: seq<Event>, i: nat | AreFrom(lookups, pool) && Interleaves(reg, lookups, events) && i < |lookups|
      && Finished(reg, lookups, events, i) ::
      Cached(reg, lookups[i].op, lookups[i].view).0 == Uncached(reg, lookups[i].op)
  }

  /** A lookup alone with the cache. */
  lemma {:induction false} AloneTruthful(reg: Registry, l: Session)
    requires reg.Valid() && !l.op.Evict? && l.view.log == [] && l.view.others == Alone
    ensures Truthful(l.view.entries, Uses(reg, l))
    ensures Cached(reg, l.op, l.view).1.entries == Effects(l.view.entries, Uses(reg, l))
  {
    var uses := OperationContinues(reg, l.op, l.view);
    assert uses == Uses(reg, l);
  }

  lemma {:induction false} SerialFinishes(reg: Registry, lookups: seq<Session>)
    requires reg.Valid() && |lookups| == 2 && forall l <- lookups :: l.view.log == []
    requires Truthful(map[], Uses(reg, lookups[0]))
    requires Truthful(Effects(map[], Uses(reg, lookups[0])), Uses(reg, lookups[1]))
    ensures
      var events := Serial(Uses(reg, lookups[0]), Uses(reg, lookups[1]));
      Interleaves(reg, lookups, events) && Finished(reg, lookups, events, 1)
  {
    SerialInterleaved(AllUses(reg, lookups));
    SerialParts(Uses(reg, lookups[0]), Uses(reg, lookups[1]), 1);
  }

  lemma {:induction false} SecondFinishes(reg: Registry, lookups: seq<Session>)
    requires reg.Valid() && |lookups| == 2 && forall l <- lookups :: !l.op.Evict? && l.view.log == [] && l.view.others == Alone
    requires lookups[0].view.entries == map[]
    requires lookups[1].view.entries == Cached(reg, lookups[0].op, lookups[0].view).1.entries
    ensures
      var events := Serial(Uses(reg, lookups[0]), Uses(reg, lookups[1]));
      Interleaves(reg, lookups, events) && Finished(reg, lookups, events, 1)
  {
    AloneTruthful(reg, lookups[0]);
    AloneTruthful(reg, lookups[1]);
    SerialFinishes(reg, lookups);
  }

  lemma {:induction false} WrongAnswer(
    reg: Registry, pool: seq<Operation>, lookups: seq<Session>, events: seq<Event>, i: nat)
    requires reg.Valid() && AreFrom(lookups, pool) && Interleaves(reg, lookups, events)
    requires i < |lookups| && Finished(reg, lookups, events, i)
    requires Cached(reg, lookups[i].op, lookups[i].view).0 != Uncached(reg, lookups[i].op)
    ensures !TransparentInterleaved(reg, pool)
  {
  }

  lemma {:induction false} LentMisleads(reg: Registry, pool: seq<Operation>, a: Operation, b: Operation, y: string)
    requires reg.Valid() && a in pool && b in pool && Lends(reg, a, y) && Lacks(reg, b, y)
    ensures !TransparentInterleaved(reg, pool)
  {
    var first := Session(a, Unused(n => false));
    var second := Session(b, Cached(reg, a, first.view).1.(log := []));
    LentIsThere(reg, a, y, first.view);
    LackingAnswersWrongly(reg, b, second.view, y);
    var lookups := [first, second];
    SecondFinishes(reg, lookups);
    WrongAnswer(reg, pool, lookups, Serial(Uses(reg, first), Uses(reg, second)), 1);
  }

  /** Going on at the same time adds nothing to what can go wrong: interleaved
      lookups are transparent exactly if the same lookups are one after the other. */
  lemma {:induction false} InterleavedExactly(reg: Registry, pool: seq<Operation>)
    requires reg.Valid() && forall op <- pool :: ValidOperation(op)
    ensures TransparentInterleaved(reg, pool) <==> Shareable(reg, pool)
    ensures TransparentInterleaved(reg, pool) <==> Transparent(reg, pool)
  {
    TransparentExactly(reg, pool);
    if Shareable(reg, pool) {
      forall lookups: seq<Session>, events: seq<Event>, i: nat | AreFrom(lookups, pool)
        && Interleaves(reg, lookups, events) && i < |lookups| && Finished(reg, lookups, events, i)
        ensures Cached(reg, lookups[i].op, lookups[i].view).0 == Uncached(reg, lookups[i].op)
      {
        InterleavedIsUncached(reg, pool, lookups, events, i);
      }
    } else {
      var a, b, y :| a in pool && b in pool && Lends(reg, a, y) && Lacks(reg, b, y);
      LentMisleads(reg, pool, a, b, y);
    }
  }

  // ----- The newest-build selector's concurrent fetch, through the cache

  /** A tag's image without a cache, an error as the selector reports it. */
  ghost function UncachedFetch(
    reg: Registry, client: Client, pc: Constraint, report: LookupError -> string): ImageSelection.Fetch<string>
  {
    (tag: string) => if reg.Valid() then Reported(Uncached(reg, LookUpTag(client, tag, pc)), report) else Success(None)
  }

  function Reported(
    answer: Result<Option<Image>, LookupError>, report: LookupError -> string): Result<Option<Image>, string>
  {
    match answer
    case Success(image) => Success(image)
    case Failure(e) => Failure(report(e))
  }

  lemma {:induction false} UncachedTagged(
    reg: Registry, client: Client, pc: Constraint, report: LookupError -> string, tags: seq<string>)
    requires reg.Valid()
    ensures ImageFanIn.Tagged(tags, UncachedFetch(reg, client, pc, report))
  {
  }

  lemma {:induction false} SameFound(tags: seq<string>, f: ImageSelection.Fetch<string>, g: ImageSelection.Fetch<string>)
    requires forall t <- tags :: f(t) == g(t)
    ensures Found(tags, f) == Found(tags, g)
  {
    if tags != [] {
      SameFound(tags[..|tags| - 1], f, g);
    }
  }

  /** Its lookups go on at the same time, one a tag, perhaps among others. */
  ghost predicate FetchesThroughCache(
    reg: Registry, client: Client, pc: Constraint, report: LookupError -> string,
    tags: seq<string>, fetch: ImageSelection.Fetch<string>, lookups: seq<Session>, events: seq<Event>)
    requires reg.Valid()
  {
    && Interleaves(reg, lookups, events) && |tags| <= |lookups|
    && forall w :: 0 <= w < |tags| ==>
         && lookups[w].op == LookUpTag(client, tags[w], pc) && Finished(reg, lookups, events, w)
         && fetch(tags[w]) == Reported(Cached(reg, lookups[w].op, lookups[w].view).0, report)
  }

  lemma {:induction false} FetchesUncached(
    reg: Registry, pool: seq<Operation>, client: Client, pc: Constraint, report: LookupError -> string,
    tags: seq<string>, fetch: ImageSelection.Fetch<string>, lookups: seq<Session>, events: seq<Event>)
    requires reg.Valid() && Shareable(reg, pool) && forall op <- pool :: ValidOperation(op)
    requires AreFrom(lookups, pool) && FetchesThroughCache(reg, client, pc, report, tags, fetch, lookups, events)
    ensures forall t <- tags :: fetch(t) == UncachedFetch(reg, client, pc, report)(t)
  {
    forall w | 0 <= w < |tags|
      ensures fetch(tags[w]) == UncachedFetch(reg, client, pc, report)(tags[w])
    {
      InterleavedIsUncached(reg, pool, lookups, events, w);
    }
  }

  /** Among lookups that may share a cache, whatever the interleaving of their uses
      and of the goroutines, the selector finds an error exactly if a lookup without
      a cache would, and otherwise selects what it would select of images fetched
      one after the other without a cache. */
  lemma {:induction false} SelectionIsUncached(
    reg: Registry, pool: seq<Operation>, client: Client, pc: Constraint, report: LookupError -> string,
    tags: seq<string>, fetch: ImageSelection.Fetch<string>, lookups: seq<Session>, events: seq<Event>,
    permits: nat, s: State, concurrent: seq<Image>, sequential: seq<Image>, discoveryLimit: nat)
    requires reg.Valid() && Shareable(reg, pool) && forall op <- pool :: ValidOperation(op)
    requires AreFrom(lookups, pool) && FetchesThroughCache(reg, client, pc, report, tags, fetch, lookups, events)
    requires forall i, j :: 0 <= i < j < |tags| ==> tags[i] != tags[j]
    requires Reachable(tags, fetch, permits, s) && s.main.Returned?
    requires s.main.result.Success? ==> NewestOf(concurrent, s.main.result.value, discoveryLimit)
    requires NewestOf(sequential, Found(tags, UncachedFetch(reg, client, pc, report)), discoveryLimit)
    ensures s.main.result.Success? <==> NoErrors(tags, UncachedFetch(reg, client, pc, report))
    ensures s.main.result.Success? ==> concurrent == sequential
  {
    var uncached := UncachedFetch(reg, client, pc, report);
    FetchesUncached(reg, pool, client, pc, report, tags, fetch, lookups, events);
    SameFound(tags, fetch, uncached);
    GatheringIsComplete(tags, fetch, permits, s);
    if s.main.result.Success? {
      UncachedTagged(reg, client, pc, report, tags);
      ConcurrentSelectionIsSequential(tags, fetch, permits, s, concurrent, sequential, discoveryLimit);
    }
  }
}
