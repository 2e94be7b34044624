/** How the Stage reconciler replays Promotions that have ended into the Stage's
    status (syncPromotions in pkg/controller/stages/regular_stages.go): whenever it
    lets go of the current Promotion, it gathers those newer than the last one
    replayed, and records them oldest first. */
module PromotionReplay {
  import opened Results
  import opened Strings
  import opened Sorting
  import opened Promotions
  import opened PromotionNames
  import opened PromotionProtocol

  // ----- Gathering

  /** The name is newer than the last one replayed. */
  predicate Beyond(last: Option<string>, name: string)
  {
    last.None? || Compare(name, last.value) > 0
  }

  predicate Ended(c: Cluster, p: string)
  {
    Own(c, p) && c.promotions[p].phase.IsTerminal()
  }

  /** A Promotion that has yet to end, no newer than the last one replayed, stops
      the loop before it comes to any that has ended. */
  ghost predicate Blocked(c: Cluster, last: Option<string>)
  {
    exists p :: Open(c, p) && !Beyond(last, p)
  }

  ghost predicate Due(c: Cluster, last: Option<string>, p: string)
  {
    !Blocked(c, last) && Ended(c, p) && Beyond(last, p)
  }

  predicate OldestFirst(names: seq<string>)
  {
    forall i, j :: 0 <= i < j < |names| ==> Compare(names[i], names[j]) < 0
  }

  /** What is replayed: all that is due, oldest first. */
  ghost predicate Replays(c: Cluster, last: Option<string>, names: seq<string>)
  {
    OldestFirst(names) && forall p :: p in names <==> Due(c, last, p)
  }

  /** The items are the Stage's own Promotions, in comparator order. */
  ghost predicate Lists(items: seq<Promotion>, c: Cluster)
  {
    && SortedBy(items, ComparePromotion)
    && (forall x :: x in items <==> Own(c, x.name) && c.promotions[x.name] == x)
    && (forall i, j :: 0 <= i < j < |items| ==> items[i].name != items[j].name)
  }

  function EndedNames(items: seq<Promotion>): seq<string>
  {
    if items == [] then []
    else
      EndedNames(items[..|items| - 1])
      + if items[|items| - 1].phase.IsTerminal() then [items[|items| - 1].name] else []
  }

  lemma {:induction false} EndedNamesAre(items: seq<Promotion>, p: string)
    ensures p in EndedNames(items) <==>
      exists i :: 0 <= i < |items| && items[i].phase.IsTerminal() && items[i].name == p
  {
    if items != [] {
      EndedNamesAre(items[..|items| - 1], p);
    }
  }

  lemma {:induction false} EndedNamesDistinct(items: seq<Promotion>)
    requires forall i, j :: 0 <= i < j < |items| ==> items[i].name != items[j].name
    ensures forall i, j :: 0 <= i < j < |EndedNames(items)| ==> EndedNames(items)[i] != EndedNames(items)[j]
  {
    if items != [] {
      var init, last := items[..|items| - 1], items[|items| - 1];
      EndedNamesDistinct(init);
      EndedNamesAre(init, last.name);
    }
  }

  /** The loop that gathers, and the sort after it. */
  method GatherNew(items: seq<Promotion>, last: Option<string>, ghost c: Cluster) returns (names: seq<string>)
    requires Lists(items, c) && forall p <- c.promotions :: c.promotions[p].name == p
    ensures Replays(c, last, names)
  {
    var gathered: seq<string> := [];
    ghost var n := |items|;
    for i := 0 to |items|
      invariant n == |items|
      invariant gathered == EndedNames(items[..i])
      invariant forall k :: 0 <= k < i ==> Beyond(last, items[k].name)
    {
      assert items[..i + 1][..i] == items[..i];
      if last.Some? && Compare(items[i].name, last.value) <= 0 {
        n := i;
        break;
      }
      if items[i].phase.IsTerminal() {
        gathered := gathered + [items[i].name];
      }
    }
    assert items[..|items|] == items;
    GatheredAreDue(items, last, c, n);
    EndedNamesDistinct(items[..n]);
    CompareIsComparator();
    names := SortFunc(gathered, Compare);
    SortedAscending(gathered, names);
    SameElements(names, gathered);
  }

  lemma {:induction false} SortedAscending(gathered: seq<string>, names: seq<string>)
    requires forall i, j :: 0 <= i < j < |gathered| ==> gathered[i] != gathered[j]
    requires multiset(names) == multiset(gathered) && SortedBy(names, Compare)
    ensures OldestFirst(names)
  {
    forall i, j | 0 <= i < j < |names|
      ensures Compare(names[i], names[j]) < 0
    {
      DistinctStays(gathered, names, i, j);
      CompareFlips(names[i], names[j]);
    }
  }

  lemma {:induction false} DistinctStays(s: seq<string>, r: seq<string>, i: nat, j: nat)
    requires forall i, j :: 0 <= i < j < |s| ==> s[i] != s[j]
    requires multiset(r) == multiset(s) && i < j < |r|
    ensures r[i] != r[j]
  {
    AtMostOnce(s, r[i]);
    assert r == r[..i] + [r[i]] + r[i + 1..j] + [r[j]] + r[j + 1..];
    assert multiset(r)[r[i]] <= 1;
  }

  lemma {:induction false} AtMostOnce(s: seq<string>, x: string)
    requires forall i, j :: 0 <= i < j < |s| ==> s[i] != s[j]
    ensures multiset(s)[x] <= 1
  {
    if s != [] {
      var init, last := s[..|s| - 1], s[|s| - 1];
      AtMostOnce(init, x);
      assert s == init + [last];
      if x == last {
        assert x !in init;
      }
    }
  }

  /** The loop breaks off at n. */
  ghost predicate BreaksAt(items: seq<Promotion>, last: Option<string>, c: Cluster, n: nat)
  {
    && Lists(items, c) && (forall p <- c.promotions :: c.promotions[p].name == p)
    && n <= |items| && (forall k :: 0 <= k < n ==> Beyond(last, items[k].name))
    && (n < |items| ==> !Beyond(last, items[n].name))
  }

  lemma {:induction false} Listed(items: seq<Promotion>, c: Cluster, p: string) returns (k: nat)
    requires Lists(items, c) && Own(c, p) && c.promotions[p].name == p
    ensures k < |items| && items[k] == c.promotions[p]
  {
    assert c.promotions[p] in items;
    k :| 0 <= k < |items| && items[k] == c.promotions[p];
  }

  lemma {:induction false} BlockedExactly(items: seq<Promotion>, last: Option<string>, c: Cluster, n: nat)
    requires BreaksAt(items, last, c, n)
    ensures Blocked(c, last) <==> n < |items| && !items[n].phase.IsTerminal()
  {
    if n < |items| && !items[n].phase.IsTerminal() {
      assert items[n] in items && Open(c, items[n].name);
    }
    if p :| Open(c, p) && !Beyond(last, p) {
      var k := Listed(items, c, p);
      assert n < k ==> ComparePromotion(items[n], items[k]) <= 0;
    }
  }

  lemma {:induction false} GatheredIsDue(items: seq<Promotion>, last: Option<string>, c: Cluster, n: nat, p: string)
    requires BreaksAt(items, last, c, n) && p in EndedNames(items[..n])
    ensures Due(c, last, p)
  {
    BlockedExactly(items, last, c, n);
    EndedNamesAre(items[..n], p);
    var i :| 0 <= i < n && items[i].phase.IsTerminal() && items[i].name == p;
    assert items[i] in items;
    assert n < |items| ==> ComparePromotion(items[i], items[n]) <= 0;
  }

  lemma {:induction false} DueIsGathered(items: seq<Promotion>, last: Option<string>, c: Cluster, n: nat, p: string)
    requires BreaksAt(items, last, c, n) && Due(c, last, p)
    ensures p in EndedNames(items[..n])
  {
    BlockedExactly(items, last, c, n);
    EndedNamesAre(items[..n], p);
    var k := Listed(items, c, p);
    if n <= k {
      NotBeyondAfter(items, last, n, k);
    }
    assert items[..n][k] == items[k];
  }

  lemma {:induction false} GatheredAreDue(items: seq<Promotion>, last: Option<string>, c: Cluster, n: nat)
    requires BreaksAt(items, last, c, n)
    ensures forall p :: p in EndedNames(items[..n]) <==> Due(c, last, p)
  {
    forall p
      ensures p in EndedNames(items[..n]) <==> Due(c, last, p)
    {
      if p in EndedNames(items[..n]) {
        GatheredIsDue(items, last, c, n, p);
      }
      if Due(c, last, p) {
        DueIsGathered(items, last, c, n, p);
      }
    }
  }

  lemma {:induction false} NotBeyondAfter(items: seq<Promotion>, last: Option<string>, n: nat, k: nat)
    requires SortedBy(items, ComparePromotion) && n <= k < |items|
    requires items[n].phase.IsTerminal() && items[k].phase.IsTerminal() && !Beyond(last, items[n].name)
    ensures !Beyond(last, items[k].name)
  {
    if n < k {
      assert ComparePromotion(items[n], items[k]) <= 0;
      CompareTransitive(items[k].name, items[n].name, last.value);
    }
  }

  // ----- Recording

  datatype PromotionStatus<C> = PromotionStatus(phase: Phase, started: bool, freightCollection: Option<C>)

  datatype PromotionReference<C> = PromotionReference(name: string, status: Option<PromotionStatus<C>>)

  /** A Promotion that has ended. */
  datatype EndedPromotion<C> = EndedPromotion(name: string, status: PromotionStatus<C>)

  function CollectionOf<C>(last: Option<PromotionReference<C>>): Option<C>
  {
    if last.Some? && last.value.status.Some? then last.value.status.value.freightCollection else None
  }

  /** One that never ran has no collection to tell of. */
  predicate Telling<C>(promo: EndedPromotion<C>)
  {
    promo.status.started || promo.status.freightCollection.Some?
  }

  /** The collection known once the Promotion is replayed. */
  function Carried<C>(last: Option<PromotionReference<C>>, promo: EndedPromotion<C>): Option<C>
  {
    if Telling(promo) then promo.status.freightCollection else CollectionOf(last)
  }

  /** What the Stage keeps of the last Promotion replayed. */
  function Kept<C>(last: Option<PromotionReference<C>>, promo: EndedPromotion<C>): PromotionReference<C>
  {
    PromotionReference(promo.name, Some(promo.status.(freightCollection := Carried(last, promo))))
  }

  /** What the Freight history gains. */
  function Gained<C>(last: Option<PromotionReference<C>>, promo: EndedPromotion<C>): seq<Option<C>>
  {
    if promo.status.phase.Succeeded? then [Carried(last, promo)] else []
  }

  function LastAfter<C>(last: Option<PromotionReference<C>>, promos: seq<EndedPromotion<C>>): Option<PromotionReference<C>>
  {
    if promos == [] then last
    else Some(Kept(LastAfter(last, promos[..|promos| - 1]), promos[|promos| - 1]))
  }

  /** What the Promotions that succeeded put into the Freight history, newest first. */
  function Collected<C>(last: Option<PromotionReference<C>>, promos: seq<EndedPromotion<C>>): seq<Option<C>>
  {
    if promos == [] then []
    else
      var init := promos[..|promos| - 1];
      Gained(LastAfter(last, init), promos[|promos| - 1]) + Collected(last, init)
  }

  const MAX_HISTORY := 10

  function Cut<T>(s: seq<T>): seq<T>
  {
    if |s| <= MAX_HISTORY then s else s[..MAX_HISTORY]
  }

  /** The history with what was collected on top; only recording cuts it. */
  function Pushed<C>(collected: seq<Option<C>>, history: seq<Option<C>>): seq<Option<C>>
  {
    if collected == [] then history else Cut(collected + history)
  }

  lemma {:induction false} CutTwice<T>(a: seq<T>, b: seq<T>)
    ensures Cut(a + Cut(b)) == Cut(a + b)
  {
  }

  lemma {:induction false} PushedTogether<C>(a: seq<Option<C>>, b: seq<Option<C>>, history: seq<Option<C>>)
    ensures Pushed(a, Pushed(b, history)) == Pushed(a + b, history)
  {
    if a == [] {
      assert a + b == b;
    } else if b == [] {
      assert a + b == a;
    } else {
      CutTwice(a, b + history);
      assert a + (b + history) == a + b + history;
    }
  }

  lemma {:induction false} RecordedNext<C>(gained: seq<Option<C>>, collected: seq<Option<C>>, history: seq<Option<C>>)
    requires |gained| <= 1
    ensures Pushed(gained + collected, history) ==
      if gained == [] then Pushed(collected, history) else Cut(gained + Pushed(collected, history))
  {
    PushedTogether(gained, collected, history);
    if gained == [] {
      assert gained + collected == collected;
    }
  }

  /** The part of the Stage's status that a replay changes. */
  datatype Status<C> = Status(lastPromotion: Option<PromotionReference<C>>, freightHistory: seq<Option<C>>)

  function ReplayedOne<C>(st: Status<C>, promo: EndedPromotion<C>): Status<C>
  {
    var gained := Gained(st.lastPromotion, promo);
    Status(
      Some(Kept(st.lastPromotion, promo)),
      if gained == [] then st.freightHistory else Cut(gained + st.freightHistory))
  }

  function Replayed<C>(st: Status<C>, promos: seq<EndedPromotion<C>>): Status<C>
  {
    if promos == [] then st
    else ReplayedOne(Replayed(st, promos[..|promos| - 1]), promos[|promos| - 1])
  }

  class StageStatus<C> {
    var lastPromotion: Option<PromotionReference<C>>
    var freightHistory: seq<Option<C>> // newest first

    function Value(): Status<C>
      reads this
    {
      Status(lastPromotion, freightHistory)
    }

    /** FreightHistory.Record. */
    method Record(freight: Option<C>)
      modifies this`freightHistory
      ensures freightHistory ==
        if |old(freightHistory)| < 10 then [freight] + old(freightHistory) else [freight] + old(freightHistory)[..9]
    {
      freightHistory := [freight] + freightHistory;
      if |freightHistory| > MAX_HISTORY {
        freightHistory := freightHistory[..MAX_HISTORY];
      }
    }

    /** The replay of what was gathered, oldest first. */
    method Replay(promos: seq<EndedPromotion<C>>)
      modifies this
      ensures Value() == Replayed(old(Value()), promos)
    {
      for i := 0 to |promos|
        invariant Value() == Replayed(old(Value()), promos[..i])
      {
        assert promos[..i + 1][..i] == promos[..i];
        var promo := promos[i];
        var ref := PromotionReference(promo.name, Some(promo.status));
        if !promo.status.started && ref.status.value.freightCollection.None?
          && lastPromotion.Some? && lastPromotion.value.status.Some?
        {
          ref := ref.(status := Some(promo.status.(freightCollection := lastPromotion.value.status.value.freightCollection)));
        }
        lastPromotion := Some(ref);
        if promo.status.phase.Succeeded? {
          Record(ref.status.value.freightCollection);
        }
      }
      assert promos[..|promos|] == promos;
    }
  }

  /** The history is what was collected, on top of what it was, cut to ten. */
  lemma {:induction false} ReplayedIs<C>(st: Status<C>, promos: seq<EndedPromotion<C>>)
    ensures Replayed(st, promos) == Status(
      LastAfter(st.lastPromotion, promos), Pushed(Collected(st.lastPromotion, promos), st.freightHistory))
  {
    if promos != [] {
      var init, promo := promos[..|promos| - 1], promos[|promos| - 1];
      ReplayedIs(st, init);
      RecordedNext(Gained(LastAfter(st.lastPromotion, init), promo), Collected(st.lastPromotion, init), st.freightHistory);
    }
  }

  /** The Stage remembers the collection of the latest Promotion that ran or has
      one, and what it remembered before if there is none. */
  lemma {:induction false} CollectionRemembered<C>(
    last: Option<PromotionReference<C>>, promos: seq<EndedPromotion<C>>) returns (k: nat)
    ensures k <= |promos|
    ensures forall i :: k <= i < |promos| ==>
      !promos[i].status.started && promos[i].status.freightCollection.None?
    ensures k == 0 ==> CollectionOf(LastAfter(last, promos)) == CollectionOf(last)
    ensures k > 0 ==> promos[k - 1].status.started || promos[k - 1].status.freightCollection.Some?
    ensures k > 0 ==> CollectionOf(LastAfter(last, promos)) == promos[k - 1].status.freightCollection
  {
    k := |promos|;
    if promos != [] && !Telling(promos[|promos| - 1]) {
      k := CollectionRemembered(last, promos[..|promos| - 1]);
    }
  }

  /** Where the Promotions that succeeded stand, the newest first. */
  function Succeeding<C>(promos: seq<EndedPromotion<C>>): seq<nat>
  {
    if promos == [] then []
    else
      var n := |promos| - 1;
      (if promos[n].status.phase.Succeeded? then [n] else []) + Succeeding(promos[..n])
  }

  lemma {:induction false} SucceedingAre<C>(promos: seq<EndedPromotion<C>>)
    ensures forall k :: k in Succeeding(promos) <==> 0 <= k < |promos| && promos[k].status.phase.Succeeded?
    ensures forall i, j :: 0 <= i < j < |Succeeding(promos)| ==> Succeeding(promos)[j] < Succeeding(promos)[i]
  {
    if promos != [] {
      var rest := Succeeding(promos[..|promos| - 1]);
      SucceedingAre(promos[..|promos| - 1]);
      assert forall i :: 0 <= i < |rest| ==> rest[i] in rest;
    }
  }

  ghost predicate HoldsAt<C>(last: Option<PromotionReference<C>>, promos: seq<EndedPromotion<C>>, k: nat, held: Option<C>)
  {
    k < |promos| && held == CollectionOf(LastAfter(last, promos[..k + 1]))
  }

  lemma {:induction false} HoldsAtLater<C>(
    last: Option<PromotionReference<C>>, promos: seq<EndedPromotion<C>>, n: nat, k: nat, held: Option<C>)
    requires n <= |promos| && HoldsAt(last, promos[..n], k, held)
    ensures HoldsAt(last, promos, k, held)
  {
    assert promos[..n][..k + 1] == promos[..k + 1];
  }

  lemma {:induction false} HoldsAtLast<C>(last: Option<PromotionReference<C>>, promos: seq<EndedPromotion<C>>)
    requires promos != []
    ensures
      var n := |promos| - 1;
      HoldsAt(last, promos, n, Carried(LastAfter(last, promos[..n]), promos[n]))
  {
    assert promos[..|promos|] == promos;
  }

  /** The history gains one collection for each Promotion that succeeded, that of
      the newest first. */
  lemma {:induction false} CollectedNewestFirst<C>(last: Option<PromotionReference<C>>, promos: seq<EndedPromotion<C>>)
    ensures |Collected(last, promos)| == |Succeeding(promos)|
    ensures forall i :: 0 <= i < |Succeeding(promos)| ==> HoldsAt(last, promos, Succeeding(promos)[i], Collected(last, promos)[i])
  {
    if promos != [] {
      var n := |promos| - 1;
      var ks, cs := Succeeding(promos[..n]), Collected(last, promos[..n]);
      CollectedNewestFirst(last, promos[..n]);
      forall i | 0 <= i < |ks|
        ensures HoldsAt(last, promos, ks[i], cs[i])
      {
        HoldsAtLater(last, promos, n, ks[i], cs[i]);
      }
      HoldsAtLast(last, promos);
      assert Succeeding(promos) == (if promos[n].status.phase.Succeeded? then [n] else []) + ks;
    }
  }

  /** Replaying in two turns is replaying at once. */
  lemma {:induction false} ReplayedInTurns<C>(st: Status<C>, a: seq<EndedPromotion<C>>, b: seq<EndedPromotion<C>>)
    ensures Replayed(Replayed(st, a), b) == Replayed(st, a + b)
    decreases |b|
  {
    if b == [] {
      assert a + b == a;
    } else {
      ReplayedInTurns(st, a, b[..|b| - 1]);
      assert (a + b)[..|a + b| - 1] == a + b[..|b| - 1];
    }
  }

  // ----- Replaying, along the protocol's runs

  /** The protocol's state, the last Promotion replayed, and as history all that
      have been, in the order of their replay. */
  datatype Replay = Replay(cluster: Cluster, last: Option<string>, log: seq<string>)

  function Begun(stage: string): Replay
  {
    Replay(Start(stage), None, [])
  }

  /** The reconciliation lets go of the current Promotion. */
  predicate Released(c: Cluster, first: string)
    requires first in c.promotions
  {
    c.currentPromotion.Some?
    && (c.currentPromotion.value != c.promotions[first].name || c.promotions[first].phase.IsTerminal())
  }

  ghost predicate Replaying(c: Cluster, s: Step)
    requires Enabled(c, s)
  {
    s.SyncPromotions? && Released(c, s.first)
  }

  /** That is, one was current before and none is after. */
  lemma {:induction false} ReplaysExactly(c: Cluster, s: Step)
    requires Enabled(c, s)
    ensures Replaying(c, s) <==>
      s.SyncPromotions? && c.currentPromotion.Some? && Next(c, s).currentPromotion.None?
  {
  }

  function LastOf(last: Option<string>, names: seq<string>): Option<string>
  {
    if names == [] then last else Some(names[|names| - 1])
  }

  /** A step of the protocol, with the names it replays. */
  ghost predicate Steps(r: Replay, s: Step, names: seq<string>, t: Replay)
  {
    && Enabled(r.cluster, s)
    && t == Replay(Next(r.cluster, s), LastOf(r.last, names), r.log + names)
    && if Replaying(r.cluster, s) then Replays(r.cluster, r.last, names) else names == []
  }

  datatype Move = Move(step: Step, names: seq<string>, after: Replay)

  ghost predicate RunReplay(r: Replay, moves: seq<Move>, t: Replay)
    decreases |moves|
  {
    if moves == [] then r == t
    else
      && Steps(r, moves[0].step, moves[0].names, moves[0].after)
      && RunReplay(moves[0].after, moves[1..], t)
  }

  /** Oldest first, each once, up to the last. */
  ghost predicate LogInv(r: Replay)
  {
    OldestFirst(r.log) && r.last == LastOf(None, r.log)
  }

  lemma {:induction false} OldestFirstTogether(log: seq<string>, names: seq<string>)
    requires OldestFirst(log) && OldestFirst(names)
    requires log != [] ==> forall p <- names :: Compare(p, log[|log| - 1]) > 0
    ensures OldestFirst(log + names)
  {
    var all := log + names;
    forall i, j | 0 <= i < j < |all|
      ensures Compare(all[i], all[j]) < 0
    {
      if i < |log| <= j {
        assert names[j - |log|] in names;
        var l := log[|log| - 1];
        CompareFlips(l, all[j]);
        if i < |log| - 1 {
          CompareTransitive(all[i], l, all[j]);
        }
      }
    }
  }

  lemma {:induction false} LogKept(r: Replay, s: Step, names: seq<string>, t: Replay)
    requires LogInv(r) && Steps(r, s, names, t)
    ensures LogInv(t)
  {
    if names != [] {
      assert forall p <- names :: Beyond(r.last, p);
      OldestFirstTogether(r.log, names);
    } else {
      assert r.log + names == r.log;
    }
  }

  lemma {:induction false} RunKeepsLog(r: Replay, moves: seq<Move>, t: Replay)
    requires LogInv(r) && RunReplay(r, moves, t)
    ensures LogInv(t) && r.log <= t.log
    decreases |moves|
  {
    if moves != [] {
      LogKept(r, moves[0].step, moves[0].names, moves[0].after);
      RunKeepsLog(moves[0].after, moves[1..], t);
    }
  }

  /** Over every run no Promotion is replayed twice, and all are in the order of
      their names. */
  lemma {:induction false} ReplayedOnceInOrder(stage: string, moves: seq<Move>, r: Replay, i: nat, j: nat)
    requires RunReplay(Begun(stage), moves, r) && i < j < |r.log|
    ensures Compare(r.log[i], r.log[j]) < 0 && r.log[i] != r.log[j]
  {
    RunKeepsLog(Begun(stage), moves, r);
    CompareFlips(r.log[i], r.log[j]);
  }

  function Outcomes<C>(names: seq<string>, statuses: string -> PromotionStatus<C>): seq<EndedPromotion<C>>
  {
    seq(|names|, i requires 0 <= i < |names| => EndedPromotion(names[i], statuses(names[i])))
  }

  /** The status at the end of a run, one replay after the other. */
  function StatusAfter<C>(st: Status<C>, moves: seq<Move>, statuses: string -> PromotionStatus<C>): Status<C>
    decreases |moves|
  {
    if moves == [] then st
    else StatusAfter(Replayed(st, Outcomes(moves[0].names, statuses)), moves[1..], statuses)
  }

  lemma {:induction false} StatusFollowsLog<C>(
    st: Status<C>, r: Replay, moves: seq<Move>, t: Replay, statuses: string -> PromotionStatus<C>)
    requires RunReplay(r, moves, t)
    ensures StatusAfter(Replayed(st, Outcomes(r.log, statuses)), moves, statuses) == Replayed(st, Outcomes(t.log, statuses))
    decreases |moves|
  {
    if moves != [] {
      var before, promos := Outcomes(r.log, statuses), Outcomes(moves[0].names, statuses);
      assert Outcomes(moves[0].after.log, statuses) == before + promos;
      ReplayedInTurns(st, before, promos);
      StatusFollowsLog(st, moves[0].after, moves[1..], t, statuses);
    }
  }

  /** Over every run, the Freight history holds the collections of the ten newest
      Promotions replayed that succeeded, the newest first, on top of what it held. */
  lemma {:induction false} HistoryIsNewestFirst<C>(
    stage: string, st: Status<C>, moves: seq<Move>, r: Replay, statuses: string -> PromotionStatus<C>)
    requires RunReplay(Begun(stage), moves, r)
    ensures
      var promos := Outcomes(r.log, statuses);
      StatusAfter(st, moves, statuses) == Status(
        LastAfter(st.lastPromotion, promos), Pushed(Collected(st.lastPromotion, promos), st.freightHistory))
    ensures OldestFirst(r.log)
  {
    var none: seq<EndedPromotion<C>> := Outcomes(Begun(stage).log, statuses);
    assert Replayed(st, none) == st;
    RunKeepsLog(Begun(stage), moves, r);
    StatusFollowsLog(st, Begun(stage), moves, r, statuses);
    ReplayedIs(st, Outcomes(r.log, statuses));
  }

  /** A Promotion has been passed over: it is not newer than the last one replayed,
      and was not replayed itself. */
  predicate PassedOver(r: Replay, p: string)
  {
    !Beyond(r.last, p) && p !in r.log
  }

  lemma {:induction false} NewerThanBound(names: seq<string>, n: nat, i: nat, p: string)
    requires OldestFirst(names) && n < i < |names| && Compare(p, names[n]) <= 0
    ensures Compare(p, names[i]) < 0
  {
    CompareTransitive(p, names[n], names[i]);
    CompareFlips(names[n], names[i]);
    CompareFlips(p, names[n]);
  }

  lemma {:induction false} NoneBelow(r: Replay, t: Replay, p: string)
    requires LogInv(r) && LogInv(t) && r.log <= t.log && PassedOver(r, p)
    ensures PassedOver(t, p)
  {
    var n, m := |r.log| - 1, |t.log| - 1;
    forall i | 0 <= i <= m
      ensures t.log[i] != p
    {
      if i > n {
        NewerThanBound(t.log, n, i, p);
        CompareFlips(p, p);
      } else {
        assert t.log[i] == r.log[i];
      }
    }
    if n < m {
      NewerThanBound(t.log, n, m, p);
    }
  }

  /** What has been passed over will never be replayed. */
  lemma {:induction false} PassedOverForGood(stage: string, before: seq<Move>, r: Replay, moves: seq<Move>, t: Replay, p: string)
    requires RunReplay(Begun(stage), before, r) && RunReplay(r, moves, t) && PassedOver(r, p)
    ensures PassedOver(t, p)
  {
    RunKeepsLog(Begun(stage), before, r);
    RunKeepsLog(r, moves, t);
    NoneBelow(r, t, p);
  }

  lemma {:induction false} NewestIsLast(names: seq<string>, p: string)
    requires OldestFirst(names) && names != [] && p !in names
    ensures Compare(p, names[|names| - 1]) <= 0 <==> exists q <- names :: Compare(p, q) < 0
  {
    var l := names[|names| - 1];
    assert l in names;
    CompareFlips(p, l);
    if q :| q in names && Compare(p, q) < 0 {
      var i :| 0 <= i < |names| && names[i] == q;
      if i < |names| - 1 {
        CompareTransitive(p, q, l);
      }
    }
  }

  lemma {:induction false} OpenIsNotReplayed(r: Replay, m: Move, p: string)
    requires Steps(r, m.step, m.names, m.after) && Open(r.cluster, p)
    ensures p !in m.names && OldestFirst(m.names)
  {
    assert p in m.names ==> Due(r.cluster, r.last, p);
  }

  lemma {:induction false} PassedByNewer(r: Replay, names: seq<string>, t: Replay, p: string)
    requires t.last == LastOf(r.last, names) && t.log == r.log + names
    requires OldestFirst(names) && p !in names && Beyond(r.last, p) && p !in r.log
    ensures PassedOver(t, p) <==> exists q <- names :: Compare(p, q) < 0
  {
    if names != [] {
      NewestIsLast(names, p);
    }
  }

  /** A step passes over a Promotion that has yet to end, and was not passed over
      before, exactly if it replays a newer one. */
  lemma {:induction false} PassesOverExactly(r: Replay, m: Move, p: string)
    requires Steps(r, m.step, m.names, m.after)
    requires Open(r.cluster, p) && Beyond(r.last, p) && p !in r.log
    ensures PassedOver(m.after, p) <==> exists q <- m.names :: Compare(p, q) < 0
  {
    OpenIsNotReplayed(r, m, p);
    PassedByNewer(r, m.names, m.after, p);
  }

  ghost predicate NonePassedOver(r: Replay)
  {
    forall p :: Own(r.cluster, p) ==> !PassedOver(r, p)
  }

  /** What is created is newer than the last one replayed, and no Promotion has yet
      to end that is older than one replayed now. */
  ghost predicate Harmless(r: Replay, m: Move)
  {
    && (m.step.CreatePromotion? ==> Beyond(r.last, r.cluster.naming.own(m.step.ulid, m.step.freight)))
    && forall p, q :: Open(r.cluster, p) && q in m.names ==> Compare(p, q) >= 0
  }

  lemma {:induction false} CreationHarmless(r: Replay, m: Move)
    requires LogInv(r) && Steps(r, m.step, m.names, m.after) && m.step.CreatePromotion?
    requires Inv(r.cluster) && NonePassedOver(r) && forall p <- r.log :: p in r.cluster.issued
    ensures NonePassedOver(m.after) <==> Harmless(r, m)
  {
    var n := r.cluster.naming.own(m.step.ulid, m.step.freight);
    assert r.log + [] == r.log;
    assert forall q :: Own(m.after.cluster, q) <==> Own(r.cluster, q) || q == n;
  }

  /** What has ended by the time of a replay is not passed over then. */
  lemma {:induction false} EndedIsReplayed(r: Replay, m: Move, p: string)
    requires Steps(r, m.step, m.names, m.after) && Replaying(r.cluster, m.step)
    requires Ended(r.cluster, p) && !PassedOver(r, p)
    ensures !PassedOver(m.after, p)
  {
    if m.names != [] {
      assert m.names[0] in m.names;
      assert Beyond(r.last, p) ==> Due(r.cluster, r.last, p);
    }
  }

  lemma {:induction false} ReplayHarmless(r: Replay, m: Move)
    requires LogInv(r) && Steps(r, m.step, m.names, m.after) && Replaying(r.cluster, m.step)
    requires NonePassedOver(r) && forall p :: Open(r.cluster, p) ==> p !in r.log
    ensures NonePassedOver(m.after) <==> Harmless(r, m)
  {
    assert forall q :: Own(m.after.cluster, q) <==> Own(r.cluster, q);
    forall p | Open(r.cluster, p)
      ensures PassedOver(m.after, p) <==> exists q <- m.names :: Compare(p, q) < 0
    {
      PassesOverExactly(r, m, p);
    }
    forall p | Ended(r.cluster, p)
      ensures !PassedOver(m.after, p)
    {
      EndedIsReplayed(r, m, p);
    }
  }

  /** What has been replayed was issued, and has ended. */
  ghost predicate Recorded(r: Replay)
  {
    Inv(r.cluster) && LogInv(r) && forall p <- r.log :: p in r.cluster.issued && !Open(r.cluster, p)
  }

  lemma {:induction false} OpenIsOld(c: Cluster, s: Step, p: string)
    requires Enabled(c, s) && Open(Next(c, s), p)
    ensures Open(c, p) || (s.CreatePromotion? && p == c.naming.own(s.ulid, s.freight))
  {
  }

  lemma {:induction false} RecordedKept(r: Replay, m: Move)
    requires Recorded(r) && Steps(r, m.step, m.names, m.after)
    ensures Recorded(m.after)
  {
    InvKept(r.cluster, m.step);
    LogKept(r, m.step, m.names, m.after);
    forall p | p in r.log + m.names
      ensures p in m.after.cluster.issued && !Open(m.after.cluster, p)
    {
      assert p in m.names ==> Due(r.cluster, r.last, p);
      if Open(m.after.cluster, p) {
        OpenIsOld(r.cluster, m.step, p);
      }
    }
  }

  lemma {:induction false} HarmlessExactly(r: Replay, m: Move)
    requires Recorded(r) && Steps(r, m.step, m.names, m.after) && NonePassedOver(r)
    ensures NonePassedOver(m.after) <==> Harmless(r, m)
  {
    if m.step.CreatePromotion? {
      CreationHarmless(r, m);
    } else if Replaying(r.cluster, m.step) {
      ReplayHarmless(r, m);
    } else {
      assert r.log + [] == r.log;
      assert forall q :: Own(m.after.cluster, q) ==> Own(r.cluster, q);
    }
  }

  ghost predicate NeverPassesOver(r: Replay, moves: seq<Move>)
    decreases |moves|
  {
    NonePassedOver(r) && (moves == [] || NeverPassesOver(moves[0].after, moves[1..]))
  }

  ghost predicate AllHarmless(r: Replay, moves: seq<Move>)
    decreases |moves|
  {
    moves == [] || (Harmless(r, moves[0]) && AllHarmless(moves[0].after, moves[1..]))
  }

  lemma {:induction false} RunHarmless(r: Replay, moves: seq<Move>, t: Replay)
    requires Recorded(r) && NonePassedOver(r) && RunReplay(r, moves, t)
    ensures NeverPassesOver(r, moves) <==> AllHarmless(r, moves)
    decreases |moves|
  {
    if moves != [] {
      RecordedKept(r, moves[0]);
      HarmlessExactly(r, moves[0]);
      if NonePassedOver(moves[0].after) {
        RunHarmless(moves[0].after, moves[1..], t);
      }
    }
  }

  /** Along a run none is ever passed over exactly if every replay finds those it
      records older than all that have yet to end, and every Promotion is created
      newer than the last one replayed. */
  lemma {:induction false} NothingPassedOverExactly(stage: string, moves: seq<Move>, r: Replay)
    requires RunReplay(Begun(stage), moves, r)
    ensures NeverPassesOver(Begun(stage), moves) <==> AllHarmless(Begun(stage), moves)
  {
    RunHarmless(Begun(stage), moves, r);
  }

  // ----- Runs that end Promotions in the order of their creation

  /** No Promotion is aborted while an older one has yet to end. */
  ghost predicate AbortsInOrder(c: Cluster, s: Step)
  {
    s.Abort? && Own(c, s.name) ==> forall q :: Open(c, q) ==> Compare(s.name, q) <= 0
  }

  ghost predicate OrderlyRun(r: Replay, moves: seq<Move>, t: Replay)
    decreases |moves|
  {
    if moves == [] then r == t
    else
      var m := moves[0];
      && Steps(r, m.step, m.names, m.after)
      && PromotionProtocol.Ordered(r.cluster, m.step) && AbortsInOrder(r.cluster, m.step)
      && OrderlyRun(m.after, moves[1..], t)
  }

  /** What has ended is older than what has not. */
  ghost predicate EndedFirst(c: Cluster)
  {
    forall p, q :: Ended(c, p) && Open(c, q) ==> Compare(p, q) < 0
  }

  ghost predicate Orderly(r: Replay)
  {
    Recorded(r) && InOrder(r.cluster) && EndedFirst(r.cluster) && NonePassedOver(r)
  }

  lemma {:induction false} EndedFirstAfterCreation(c: Cluster, u: Ulid, f: string)
    requires Inv(c) && InOrder(c) && EndedFirst(c) && Enabled(c, CreatePromotion(u, f)) && c.lastPromotion < u
    ensures EndedFirst(Next(c, CreatePromotion(u, f)))
    ensures forall p <- c.issued :: Compare(p, c.naming.own(u, f)) < 0
  {
    var d, n := Next(c, CreatePromotion(u, f)), c.naming.own(u, f);
    forall p <- c.issued
      ensures Compare(p, n) < 0
    {
      IssuedBefore(c.naming, c.lastPromotion, p, u, f);
    }
    assert forall q :: Own(d, q) && q != n ==> Own(c, q) && d.promotions[q] == c.promotions[q];
  }

  /** The oldest Promotion ends, or one that is not the Stage's own. */
  lemma {:induction false} EndedFirstAfterEnd(c: Cluster, n: string, phase: Phase)
    requires Inv(c) && EndedFirst(c) && n in c.promotions && phase.IsTerminal()
    requires Own(c, n) ==> Open(c, n) && forall q :: Open(c, q) ==> Compare(n, q) <= 0
    ensures EndedFirst(SetPhase(c, n, phase))
  {
    var d := SetPhase(c, n, phase);
    forall p, q | Ended(d, p) && Open(d, q)
      ensures Compare(p, q) < 0
    {
      assert Open(c, q) && q != n;
      assert p != n ==> Ended(c, p);
      CompareFlips(p, q);
    }
  }

  lemma {:induction false} EndedFirstOtherwise(c: Cluster, s: Step)
    requires EndedFirst(c) && Enabled(c, s) && !s.CreatePromotion? && !s.End? && !s.Abort?
    ensures EndedFirst(Next(c, s))
  {
    var d := Next(c, s);
    assert forall q :: Own(d, q) ==> Own(c, q) && d.promotions[q].phase.IsTerminal() == c.promotions[q].phase.IsTerminal();
    assert forall q :: Ended(d, q) ==> Ended(c, q);
    assert forall q :: Open(d, q) ==> Open(c, q);
  }

  lemma {:induction false} RunningIsOldest(c: Cluster, n: string)
    requires Inv(c) && InOrder(c) && Own(c, n) && c.promotions[n].phase.Running?
    ensures forall q :: Open(c, q) ==> Compare(n, q) <= 0
  {
    forall q | Open(c, q)
      ensures Compare(n, q) <= 0
    {
      CompareFlips(n, q);
    }
  }

  lemma {:induction false} EndedFirstKept(c: Cluster, s: Step)
    requires Inv(c) && InOrder(c) && EndedFirst(c) && Enabled(c, s)
    requires PromotionProtocol.Ordered(c, s) && AbortsInOrder(c, s)
    ensures EndedFirst(Next(c, s))
  {
    match s
    case CreatePromotion(u, f) => EndedFirstAfterCreation(c, u, f);
    case End(n, phase) =>
      if Own(c, n) {
        RunningIsOldest(c, n);
      }
      EndedFirstAfterEnd(c, n, phase);
    case Abort(n) => EndedFirstAfterEnd(c, n, Aborted);
    case _ => EndedFirstOtherwise(c, s);
  }

  lemma {:induction false} OrderlyHarmless(r: Replay, m: Move)
    requires Orderly(r) && Steps(r, m.step, m.names, m.after)
    requires PromotionProtocol.Ordered(r.cluster, m.step)
    ensures Harmless(r, m)
  {
    if m.step.CreatePromotion? {
      var n := r.cluster.naming.own(m.step.ulid, m.step.freight);
      EndedFirstAfterCreation(r.cluster, m.step.ulid, m.step.freight);
      if r.last.Some? {
        assert r.last.value in r.log;
        CompareFlips(r.last.value, n);
      }
    }
    forall p, q | Open(r.cluster, p) && q in m.names
      ensures Compare(p, q) >= 0
    {
      assert Due(r.cluster, r.last, q);
      CompareFlips(p, q);
    }
  }

  lemma {:induction false} OrderlyRunKeeps(r: Replay, moves: seq<Move>, t: Replay)
    requires Orderly(r) && OrderlyRun(r, moves, t)
    ensures Orderly(t)
    decreases |moves|
  {
    if moves != [] {
      var m := moves[0];
      RecordedKept(r, m);
      OrderKept(r.cluster, m.step);
      EndedFirstKept(r.cluster, m.step);
      OrderlyHarmless(r, m);
      HarmlessExactly(r, m);
      OrderlyRunKeeps(m.after, moves[1..], t);
    }
  }

  /** What has yet to end is newer than the last one replayed, so nothing blocks. */
  lemma {:induction false} NotBlocked(r: Replay)
    requires Recorded(r) && NonePassedOver(r)
    ensures !Blocked(r.cluster, r.last)
  {
  }

  /** If Promotions are stored in the order of their creation and none is aborted
      while an older one has yet to end, then none is ever passed over, and each
      time the Stage lets go, all that have ended have been replayed. */
  lemma {:induction false} NothingIsPassedOver(
    stage: string, moves: seq<Move>, r: Replay, m: Move, p: string)
    requires stage != "" && OrderlyRun(Begun(stage), moves, r) && Own(r.cluster, p)
    requires Steps(r, m.step, m.names, m.after) && Replaying(r.cluster, m.step)
    ensures !PassedOver(r, p)
    ensures Ended(r.cluster, p) ==> p in m.after.log
  {
    GeneratedNamesAscend(stage);
    OrderlyRunKeeps(Begun(stage), moves, r);
    NotBlocked(r);
    if Ended(r.cluster, p) {
      assert Beyond(r.last, p) ==> Due(r.cluster, r.last, p);
    }
  }

  // ----- A run that passes over a Promotion

  /** A run that replays nothing. */
  ghost predicate Silent(c: Cluster, steps: seq<Step>, d: Cluster)
    decreases |steps|
  {
    if steps == [] then c == d
    else Enabled(c, steps[0]) && !Replaying(c, steps[0]) && Silent(Next(c, steps[0]), steps[1..], d)
  }

  lemma {:induction false} SilentStep(c: Cluster, s: Step, steps: seq<Step>, d: Cluster)
    requires Enabled(c, s) && !Replaying(c, s) && Silent(Next(c, s), steps, d)
    ensures Silent(c, [s] + steps, d)
  {
    assert ([s] + steps)[1..] == steps;
  }

  lemma {:induction false} ThenOne(r: Replay, steps: seq<Step>, d: Cluster, m: Move) returns (moves: seq<Move>)
    requires Silent(r.cluster, steps, d) && Steps(r.(cluster := d), m.step, m.names, m.after)
    ensures RunReplay(r, moves, m.after) && |moves| == |steps| + 1
    ensures forall i :: 0 <= i < |steps| ==> moves[i].step == steps[i]
    decreases |steps|
  {
    if steps == [] {
      moves := [m];
      assert moves[1..] == [];
    } else {
      var next := r.(cluster := Next(r.cluster, steps[0]));
      var rest := ThenOne(next, steps[1..], d, m);
      moves := [Move(steps[0], [], next)] + rest;
      assert moves[1..] == rest && r.log + [] == r.log;
    }
  }

  /** Of the Stage's own Promotions x < p < q, p has yet to end, the others have
      ended, and x is current. */
  ghost predicate OneWaitsBetween(c: Cluster, x: string, p: string, q: string)
  {
    && Named(c) && Compare(x, p) < 0 && Compare(p, q) < 0
    && (forall n :: Own(c, n) <==> n in {x, p, q})
    && Open(c, p) && Ended(c, x) && Ended(c, q)
    && c.currentPromotion == Some(x)
  }

  lemma {:induction false} ReplayedAround(c: Cluster, x: string, p: string, q: string) returns (m: Move)
    requires OneWaitsBetween(c, x, p, q)
    ensures Steps(Replay(c, None, []), m.step, m.names, m.after)
    ensures Open(m.after.cluster, p) && PassedOver(m.after, p)
  {
    CompareTransitive(x, p, q);
    CompareFlips(x, p);
    CompareFlips(p, q);
    CompareFlips(x, q);
    assert x != p && p != q;
    var s := SyncPromotions(p, NoFreight);
    forall n | Own(c, n)
      ensures ComparePromotion(c.promotions[p], c.promotions[n]) <= 0
    {
      CompareFlips(p, p);
    }
    assert FirstPromotion(c, p);
    m := Move(s, [x, q], Replay(Next(c, s), Some(q), [] + [x, q]));
    assert Compare(x, q) < 0;
    assert forall n :: n in [x, q] <==> Due(c, None, n);
  }

  /** The same before any of the three has run or ended. */
  ghost predicate AllWait(c: Cluster, x: string, p: string, q: string)
  {
    && Named(c) && Compare(x, p) < 0 && Compare(p, q) < 0
    && (forall n :: Own(c, n) <==> n in {x, p, q})
    && Open(c, p) && Open(c, x) && Open(c, q)
    && c.currentPromotion == Some(x)
  }

  lemma {:induction false} TwoAborted(c: Cluster, x: string, p: string, q: string) returns (d: Cluster)
    requires AllWait(c, x, p, q)
    ensures Silent(c, [Abort(q), Abort(x)], d) && OneWaitsBetween(d, x, p, q)
  {
    CompareTransitive(x, p, q);
    CompareFlips(x, p);
    CompareFlips(p, q);
    CompareFlips(x, q);
    assert x != p && p != q && x != q;
    var c1 := Next(c, Abort(q));
    d := Next(c1, Abort(x));
    assert forall n :: Own(d, n) <==> Own(c, n);
    SilentStep(c1, Abort(x), [], d);
    SilentStep(c, Abort(q), [Abort(x)], d);
  }

  lemma {:induction false} NamesInOrder(stage: string, u: Ulid, v: Ulid, w: Ulid, f: string)
    requires stage != "" && u < v < w && f != ""
    ensures
      var x, p, q := StyleName(stage, u, f), StyleName(stage, v, f), StyleName(stage, w, f);
      Compare(x, p) < 0 && Compare(p, q) < 0 && x != p && p != q && x != q
  {
    GeneratedNamesAscend(stage);
    var x, p, q := StyleName(stage, u, f), StyleName(stage, v, f), StyleName(stage, w, f);
    assert EarlierLesser(NamingOf(stage), u, f, v, f);
    assert EarlierLesser(NamingOf(stage), v, f, w, f);
    assert EarlierLesser(NamingOf(stage), u, f, w, f);
    CompareFlips(x, x);
    CompareFlips(p, p);
  }

  lemma {:induction false} FirstIsCurrent(stage: string, u: Ulid, f: string) returns (c: Cluster)
    requires f != ""
    ensures
      var x := StyleName(stage, u, f);
      && Silent(Start(stage), [CreatePromotion(u, f), SyncPromotions(x, NoFreight)], c)
      && c.naming == NamingOf(stage) && c.issued == {x} && c.requests == map[] && c.currentRequest.None?
      && c.promotions == map[x := Promotion(x, New, "", "", 0)] && c.currentPromotion == Some(x)
  {
    var x := StyleName(stage, u, f);
    var c0, s1, s2 := Start(stage), CreatePromotion(u, f), SyncPromotions(x, NoFreight);
    var c1 := Next(c0, s1);
    CompareFlips(x, x);
    assert forall n :: Own(c1, n) <==> n == x;
    c := Next(c1, s2);
    SilentStep(c1, s2, [], c);
    SilentStep(c0, s1, [s2], c);
  }

  lemma {:induction false} TwoMore(c: Cluster, v: Ulid, w: Ulid, f: string, x: string) returns (d: Cluster)
    requires
      var p, q := c.naming.own(v, f), c.naming.own(w, f);
      f != "" && x != p && p != q && x != q && Compare(x, p) < 0 && Compare(p, q) < 0
    requires c.issued == {x} && c.requests == map[] && c.currentRequest.None?
    requires c.promotions == map[x := Promotion(x, New, "", "", 0)] && c.currentPromotion == Some(x)
    ensures Silent(c, [CreatePromotion(v, f), CreatePromotion(w, f)], d)
    ensures AllWait(d, x, c.naming.own(v, f), c.naming.own(w, f))
  {
    var c1 := Next(c, CreatePromotion(v, f));
    d := Next(c1, CreatePromotion(w, f));
    SilentStep(c1, CreatePromotion(w, f), [], d);
    SilentStep(c, CreatePromotion(v, f), [CreatePromotion(w, f)], d);
  }

  lemma {:induction false} SilentTogether(c: Cluster, s: seq<Step>, d: Cluster, t: seq<Step>, e: Cluster)
    requires Silent(c, s, d) && Silent(d, t, e)
    ensures Silent(c, s + t, e)
    decreases |s|
  {
    if s == [] {
      assert s + t == t;
    } else {
      SilentTogether(Next(c, s[0]), s[1..], d, t, e);
      assert (s + t)[1..] == s[1..] + t;
    }
  }

  /** Three Promotions are created in order, the first current before the others
      exist; the last is aborted while it waits, then the first. */
  function AbortedInQueue(stage: string, u: Ulid, v: Ulid, w: Ulid, f: string): seq<Step>
  {
    var x, q := StyleName(stage, u, f), StyleName(stage, w, f);
    [CreatePromotion(u, f), SyncPromotions(x, NoFreight)]
    + [CreatePromotion(v, f), CreatePromotion(w, f)]
    + [Abort(q), Abort(x)]
  }

  /** The Stage's next reconciliation passes over the second, which has yet to run. */
  lemma {:induction false} AbortInQueuePassesOver(
    stage: string, u: Ulid, v: Ulid, w: Ulid, f: string) returns (moves: seq<Move>, r: Replay)
    requires stage != "" && u < v < w && f != ""
    ensures RunReplay(Begun(stage), moves, r) && |moves| == |AbortedInQueue(stage, u, v, w, f)| + 1
    ensures forall i :: 0 <= i < |moves| - 1 ==> moves[i].step == AbortedInQueue(stage, u, v, w, f)[i]
    ensures Open(r.cluster, StyleName(stage, v, f)) && PassedOver(r, StyleName(stage, v, f))
  {
    var x, p, q := StyleName(stage, u, f), StyleName(stage, v, f), StyleName(stage, w, f);
    NamesInOrder(stage, u, v, w, f);
    var c := FirstIsCurrent(stage, u, f);
    var d := TwoMore(c, v, w, f, x);
    var e := TwoAborted(d, x, p, q);
    var s, t, a := [CreatePromotion(u, f), SyncPromotions(x, NoFreight)],
      [CreatePromotion(v, f), CreatePromotion(w, f)], [Abort(q), Abort(x)];
    SilentTogether(Start(stage), s, c, t, d);
    SilentTogether(Start(stage), s + t, d, a, e);
    var m := ReplayedAround(e, x, p, q);
    r := m.after;
    moves := ThenOne(Begun(stage), s + t + a, e, m);
  }
}
