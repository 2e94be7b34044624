/** What the garbage collector deletes (pkg/garbage/freight.go,
    pkg/garbage/promotions.go): everything ranked more than a configured number
    after the oldest protected item, and old enough. Freight is protected while
    a Stage uses it, a Promotion while it is not in a terminal phase. */
module Retention {
  import opened Results
  import opened Times
  import opened Sorting
  import opened Availability
  import opened Promotions

  datatype Limits = Limits(maxRetained: nat, minAge: Duration)

  function Newest<T>(time: T -> Time): (T, T) -> int
  {
    (a, b) => time(b) - time(a)
  }

  lemma {:induction false} NewestIsComparator<T(!new)>(time: T -> Time)
    ensures Comparator(Newest(time))
  {
    forall a, b ensures Ordered(Newest(time), a, b) {}
    forall a, b, c ensures Chained(Newest(time), a, b, c) {}
  }

  // ----- The rule

  /** In a newest-first list, neither the item at i, nor any older one, nor any
      of the maxRetained just newer than it is protected, and it is old enough. */
  ghost predicate Targeted<T>(
    sorted: seq<T>, time: T -> Time, protected: T -> bool, limits: Limits, now: Time, i: nat)
    requires i < |sorted|
  {
    && limits.maxRetained <= i
    && (forall j :: i - limits.maxRetained <= j < |sorted| ==> !protected(sorted[j]))
    && now - time(sorted[i]) >= limits.minAge
  }

  /** Of the items, listed newest first in some order, the targets are the tail from cut. */
  ghost predicate Sweep<T>(
    items: seq<T>, sorted: seq<T>, cut: nat,
    time: T -> Time, protected: T -> bool, limits: Limits, now: Time)
  {
    && multiset(sorted) == multiset(items)
    && SortedBy(sorted, Newest(time))
    && cut <= |sorted|
    && forall i :: 0 <= i < |sorted| ==> (i >= cut <==> Targeted(sorted, time, protected, limits, now, i))
  }

  lemma {:induction false} SweepFrom<T>(
    items: seq<T>, sorted: seq<T>, oldest: int, first: int, cut: nat,
    time: T -> Time, protected: T -> bool, limits: Limits, now: Time)
    requires multiset(sorted) == multiset(items) && SortedBy(sorted, Newest(time))
    requires -1 <= oldest < |sorted| && (oldest >= 0 ==> protected(sorted[oldest]))
    requires forall j :: oldest < j < |sorted| ==> !protected(sorted[j])
    requires first == oldest + limits.maxRetained + 1 <= |sorted|
    requires first <= cut <= |sorted|
    requires forall i :: first <= i < cut ==> now - time(sorted[i]) < limits.minAge
    requires cut < |sorted| ==> now - time(sorted[cut]) >= limits.minAge
    ensures Sweep(items, sorted, cut, time, protected, limits, now)
  {
    forall i | cut <= i < |sorted|
      ensures now - time(sorted[i]) >= limits.minAge
    {
      assert cut < i ==> Newest(time)(sorted[cut], sorted[i]) <= 0;
    }
  }

  lemma {:induction false} NothingToSweep<T>(
    items: seq<T>, sorted: seq<T>, oldest: int, time: T -> Time, protected: T -> bool, limits: Limits, now: Time)
    requires multiset(sorted) == multiset(items) && SortedBy(sorted, Newest(time))
    requires -1 <= oldest < |sorted| && (oldest >= 0 ==> protected(sorted[oldest]))
    requires oldest + limits.maxRetained + 1 >= |sorted|
    ensures Sweep(items, sorted, |sorted|, time, protected, limits, now)
  {
  }

  /** A sweep depends on what times and protections are, not on how they are computed. */
  lemma {:induction false} SweepSame<T>(
    items: seq<T>, sorted: seq<T>, cut: nat, time: T -> Time, protected: T -> bool,
    time': T -> Time, protected': T -> bool, limits: Limits, now: Time)
    requires Sweep(items, sorted, cut, time, protected, limits, now)
    requires forall x <- sorted :: time(x) == time'(x) && protected(x) == protected'(x)
    ensures Sweep(items, sorted, cut, time', protected', limits, now)
  {
    forall i, j | 0 <= i < j < |sorted|
      ensures Newest(time')(sorted[i], sorted[j]) <= 0
    {
      assert Newest(time)(sorted[i], sorted[j]) <= 0;
    }
    forall i | 0 <= i < |sorted|
      ensures Targeted(sorted, time, protected, limits, now, i) <==> Targeted(sorted, time', protected', limits, now, i)
    {
      assert sorted[i] in sorted;
    }
  }

  /** The deletion loop the two collectors share: it goes on after a failure. */
  method DeleteOldEnough<T>(
    order: seq<T>, first: nat, time: T -> Time, fails: T -> bool, limits: Limits, now: Time)
    returns (deletions: seq<T>, deleteErrCount: nat, ghost cut: nat)
    requires SortedBy(order, Newest(time)) && first <= |order|
    ensures first <= cut <= |order| && deletions == order[cut..]
    ensures forall i :: first <= i < cut ==> now - time(order[i]) < limits.minAge
    ensures cut < |order| ==> now - time(order[cut]) >= limits.minAge
    ensures deleteErrCount > 0 <==> exists x <- deletions :: fails(x)
  {
    deletions, deleteErrCount, cut := [], 0, |order|;
    for i := first to |order|
      invariant first <= cut <= |order| && (cut < i || cut == |order|)
      invariant deletions == if cut < i then order[cut..i] else []
      invariant forall j :: first <= j < i && j < cut ==> now - time(order[j]) < limits.minAge
      invariant cut < |order| ==> now - time(order[cut]) >= limits.minAge
      invariant deleteErrCount > 0 <==> exists x <- deletions :: fails(x)
    {
      if cut < i {
        assert Newest(time)(order[cut], order[i]) <= 0;
      }
      if now - time(order[i]) < limits.minAge {
        continue; // Not old enough
      }
      if cut == |order| {
        cut := i;
      }
      assert order[cut..i + 1] == order[cut..i] + [order[i]];
      deletions := deletions + [order[i]];
      if fails(order[i]) {
        deleteErrCount := deleteErrCount + 1;
      }
    }
  }

  // ----- Freight of one Warehouse

  function FreightTime(f: Freight): Time { f.EffectiveDiscoveredAt() }

  /** The Stages that the StagesByFreight index finds: those whose current
      collection names the Freight. */
  function StagesUsing(stages: seq<set<string>>, freight: string): seq<set<string>>
  {
    if stages == [] then []
    else (if freight in stages[0] then [stages[0]] else []) + StagesUsing(stages[1..], freight)
  }

  ghost function InUse(stages: seq<set<string>>): Freight -> bool
  {
    (f: Freight) => exists s <- stages :: f.name in s
  }

  lemma {:induction false} StagesUsingFinds(stages: seq<set<string>>, freight: string)
    ensures StagesUsing(stages, freight) != [] <==> exists s <- stages :: freight in s
  {
    if stages != [] {
      StagesUsingFinds(stages[1..], freight);
      assert stages == [stages[0]] + stages[1..];
    }
  }

  datatype SweepError<T> = ListStagesFailed(item: T) | DeleteFailed

  lemma {:induction false} FreightSweep(
    items: seq<Freight>, sorted: seq<Freight>, cut: nat, stages: seq<set<string>>, limits: Limits, now: Time)
    requires Sweep(items, sorted, cut, FreightTime, InUse(stages), limits, now)
    ensures Sweep(
      items, sorted, cut, (f: Freight) => if f.discoveredAt.Some? then f.discoveredAt.value else f.createdAt,
      InUse(stages), limits, now)
  {
    SweepSame(
      items, sorted, cut, FreightTime, InUse(stages),
      (f: Freight) => if f.discoveredAt.Some? then f.discoveredAt.value else f.createdAt, InUse(stages), limits, now);
  }

  /** cleanWarehouseFreight. The Stages cannot be listed for the names in
      unlistable; the deletion of those in undeletable fails. */
  method CleanWarehouseFreight(
    items: seq<Freight>, stages: seq<set<string>>, limits: Limits, now: Time,
    unlistable: set<string>, undeletable: set<string>)
    returns (deletions: seq<Freight>, err: Option<SweepError<Freight>>, ghost sorted: seq<Freight>)
    ensures |items| <= limits.maxRetained ==> deletions == [] && err == None
    ensures |items| > limits.maxRetained && (exists f <- items :: f.name in unlistable) ==>
      deletions == [] && err.Some? && err.value.ListStagesFailed? && err.value.item.name in unlistable
    ensures |items| > limits.maxRetained && (forall f <- items :: f.name !in unlistable) ==>
      && |deletions| <= |items| == |sorted|
      && deletions == sorted[|items| - |deletions|..]
      && Sweep(
           items, sorted, |items| - |deletions|,
           (f: Freight) => if f.discoveredAt.Some? then f.discoveredAt.value else f.createdAt,
           InUse(stages), limits, now)
      && (err == None || err == Some(DeleteFailed))
      && (err.Some? <==> exists f <- deletions :: f.name in undeletable)
  {
    NewestIsComparator(FreightTime);
    deletions, err, sorted := [], None, items;
    if |items| <= limits.maxRetained {
      return;
    }
    var order := SortFunc(items, Newest(FreightTime));
    sorted := order;
    SameElements(order, items);
    var oldestInUseIndex := -1;
    for i := 0 to |order|
      invariant -1 <= oldestInUseIndex < i
      invariant oldestInUseIndex >= 0 ==> InUse(stages)(order[oldestInUseIndex])
      invariant forall j :: oldestInUseIndex < j < i ==> !InUse(stages)(order[j])
      invariant forall j :: 0 <= j < i ==> order[j].name !in unlistable
    {
      if order[i].name in unlistable {
        assert order[i] in items;
        return [], Some(ListStagesFailed(order[i])), sorted;
      }
      var using := StagesUsing(stages, order[i].name);
      StagesUsingFinds(stages, order[i].name);
      if |using| > 0 {
        oldestInUseIndex := i;
      }
    }
    var firstToDeleteIndex := oldestInUseIndex + limits.maxRetained + 1;
    if firstToDeleteIndex >= |order| {
      NothingToSweep(items, sorted, oldestInUseIndex, FreightTime, InUse(stages), limits, now);
      FreightSweep(items, sorted, |sorted|, stages, limits, now);
      return;
    }
    var deleteErrCount; ghost var cut;
    deletions, deleteErrCount, cut := DeleteOldEnough(
      order, firstToDeleteIndex, FreightTime, (f: Freight) => f.name in undeletable, limits, now);
    SweepFrom(items, sorted, oldestInUseIndex, firstToDeleteIndex, cut, FreightTime, InUse(stages), limits, now);
    FreightSweep(items, sorted, cut, stages, limits, now);
    if deleteErrCount > 0 {
      err := Some(DeleteFailed);
    }
  }

  // ----- Promotions of one Stage

  function PromotionTime(p: Promotion): Time { p.createdAt }
  function NonTerminal(p: Promotion): bool { !p.phase.IsTerminal() }

  lemma {:induction false} PromotionSweep(
    items: seq<Promotion>, sorted: seq<Promotion>, cut: nat, limits: Limits, now: Time)
    requires Sweep(items, sorted, cut, PromotionTime, NonTerminal, limits, now)
    ensures Sweep(
      items, sorted, cut, (p: Promotion) => p.createdAt,
      (p: Promotion) => p.phase !in {Succeeded, Failed, Errored, Aborted}, limits, now)
    ensures forall p <- sorted[cut..] ::
      p.phase in {Succeeded, Failed, Errored, Aborted} && now - p.createdAt >= limits.minAge
  {
    var unfinished := (p: Promotion) => p.phase !in {Succeeded, Failed, Errored, Aborted};
    SweepSame(
      items, sorted, cut, PromotionTime, NonTerminal, (p: Promotion) => p.createdAt, unfinished, limits, now);
    SurvivorsAreNewestAndProtected(items, sorted, cut, PromotionTime, NonTerminal, limits, now);
  }

  /** cleanStagePromotions. */
  method CleanStagePromotions(
    items: seq<Promotion>, limits: Limits, now: Time, undeletable: set<string>)
    returns (deletions: seq<Promotion>, err: Option<SweepError<Promotion>>, ghost sorted: seq<Promotion>)
    ensures |items| <= limits.maxRetained ==> deletions == [] && err == None
    ensures |items| > limits.maxRetained ==>
      && |deletions| <= |items| == |sorted|
      && deletions == sorted[|items| - |deletions|..]
      && Sweep(
           items, sorted, |items| - |deletions|, (p: Promotion) => p.createdAt,
           (p: Promotion) => p.phase !in {Succeeded, Failed, Errored, Aborted}, limits, now)
      && (err == None || err == Some(DeleteFailed))
      && (err.Some? <==> exists p <- deletions :: p.name in undeletable)
    ensures forall p <- deletions ::
      p.phase in {Succeeded, Failed, Errored, Aborted} && now - p.createdAt >= limits.minAge
  {
    NewestIsComparator(PromotionTime);
    deletions, err, sorted := [], None, items;
    if |items| <= limits.maxRetained {
      return;
    }
    var order := SortFunc(items, Newest(PromotionTime));
    sorted := order;
    SameElements(order, items);
    var oldestNonTerminalIndex := -1;
    for i := 0 to |order|
      invariant -1 <= oldestNonTerminalIndex < i
      invariant oldestNonTerminalIndex >= 0 ==> NonTerminal(order[oldestNonTerminalIndex])
      invariant forall j :: oldestNonTerminalIndex < j < i ==> !NonTerminal(order[j])
    {
      if !order[i].phase.IsTerminal() {
        oldestNonTerminalIndex := i;
      }
    }
    var firstToDeleteIndex := oldestNonTerminalIndex + limits.maxRetained + 1;
    if firstToDeleteIndex >= |order| {
      NothingToSweep(items, sorted, oldestNonTerminalIndex, PromotionTime, NonTerminal, limits, now);
      PromotionSweep(items, sorted, |sorted|, limits, now);
      return;
    }
    var deleteErrCount; ghost var cut;
    deletions, deleteErrCount, cut := DeleteOldEnough(
      order, firstToDeleteIndex, PromotionTime, (p: Promotion) => p.name in undeletable, limits, now);
    SweepFrom(items, sorted, oldestNonTerminalIndex, firstToDeleteIndex, cut, PromotionTime, NonTerminal, limits, now);
    PromotionSweep(items, sorted, cut, limits, now);
    if deleteErrCount > 0 {
      err := Some(DeleteFailed);
    }
  }

  // ----- What the rule guarantees, whichever sorted order was used

  /** Nothing protected goes, nothing young goes, and what stays is newer than
      what goes. */
  lemma {:induction false} SurvivorsAreNewestAndProtected<T>(
    items: seq<T>, sorted: seq<T>, cut: nat,
    time: T -> Time, protected: T -> bool, limits: Limits, now: Time)
    requires Sweep(items, sorted, cut, time, protected, limits, now)
    ensures forall x <- sorted[cut..] :: !protected(x) && now - time(x) >= limits.minAge
    ensures forall x, y :: x in sorted[..cut] && y in sorted[cut..] ==> time(x) >= time(y)
    ensures |sorted[..cut]| >= if |items| < limits.maxRetained then |items| else limits.maxRetained
  {
    SameElements(sorted, items);
    forall x <- sorted[cut..]
      ensures !protected(x) && now - time(x) >= limits.minAge
    {
      var i :| 0 <= i < |sorted[cut..]| && sorted[cut..][i] == x;
      assert Targeted(sorted, time, protected, limits, now, cut + i);
    }
    forall x, y | x in sorted[..cut] && y in sorted[cut..]
      ensures time(x) >= time(y)
    {
      var i :| 0 <= i < cut && sorted[i] == x;
      var j :| 0 <= j < |sorted[cut..]| && sorted[cut..][j] == y;
      assert Newest(time)(sorted[i], sorted[cut + j]) <= 0;
    }
    assert cut < |sorted| ==> Targeted(sorted, time, protected, limits, now, cut);
  }

  /** If something protected remains, so do the next maxRetained older items. */
  lemma {:induction false} GenerationsRetained<T>(
    items: seq<T>, sorted: seq<T>, cut: nat, oldest: nat,
    time: T -> Time, protected: T -> bool, limits: Limits, now: Time)
    requires Sweep(items, sorted, cut, time, protected, limits, now)
    requires oldest < |sorted| && protected(sorted[oldest])
    ensures cut >= if oldest + limits.maxRetained + 1 <= |sorted| then oldest + limits.maxRetained + 1 else |sorted|
  {
    assert cut < |sorted| ==> Targeted(sorted, time, protected, limits, now, cut);
  }

  lemma {:induction false} DistinctTimesFixTheOrder<T(!new)>(r: seq<T>, s: seq<T>, time: T -> Time)
    requires multiset(r) == multiset(s)
    requires SortedBy(r, Newest(time)) && SortedBy(s, Newest(time))
    requires forall i, j :: 0 <= i < j < |r| ==> time(r[i]) != time(r[j])
    ensures r == s
  {
    forall i, j | 0 <= i < |r| && 0 <= j < |r|
        && Newest(time)(r[i], r[j]) <= 0 && Newest(time)(r[j], r[i]) <= 0
      ensures r[i] == r[j]
    {
      assert time(r[i]) == time(r[j]);
    }
    SortedPermutationUnique(r, s, Newest(time));
  }

  // ----- A second pass

  /** The item is not protected, and no protected one is older. */
  ghost predicate Trails<T>(items: seq<T>, x: T, time: T -> Time, protected: T -> bool)
  {
    !protected(x) && forall p <- items :: protected(p) ==> time(x) <= time(p)
  }

  /** Of a list, in its order, the items that trail all the items, or those that do not. */
  ghost function Split<T(!new)>(
    list: seq<T>, items: seq<T>, time: T -> Time, protected: T -> bool, trailing: bool): (r: seq<T>)
    ensures forall x :: x in r <==> x in list && (Trails(items, x, time, protected) <==> trailing)
  {
    if list == [] then []
    else
      var n := |list| - 1;
      Split(list[..n], items, time, protected, trailing)
      + if Trails(items, list[n], time, protected) == trailing then [list[n]] else []
  }

  lemma {:induction false} SplitCounts<T(!new)>(
    list: seq<T>, items: seq<T>, time: T -> Time, protected: T -> bool, trailing: bool, x: T)
    ensures
      multiset(Split(list, items, time, protected, trailing))[x] ==
      if Trails(items, x, time, protected) == trailing then multiset(list)[x] else 0
  {
    if list != [] {
      var n := |list| - 1;
      SplitCounts(list[..n], items, time, protected, trailing, x);
      assert list == list[..n] + [list[n]];
    }
  }

  lemma {:induction false} SplitPermutes<T(!new)>(
    r: seq<T>, s: seq<T>, items: seq<T>, time: T -> Time, protected: T -> bool)
    requires multiset(r) == multiset(s)
    ensures |Split(r, items, time, protected, true)| == |Split(s, items, time, protected, true)|
  {
    var a, b := Split(r, items, time, protected, true), Split(s, items, time, protected, true);
    forall x
      ensures multiset(a)[x] == multiset(b)[x]
    {
      SplitCounts(r, items, time, protected, true, x);
      SplitCounts(s, items, time, protected, true, x);
    }
    assert multiset(a) == multiset(b);
    assert |multiset(a)| == |a| && |multiset(b)| == |b|;
  }

  lemma {:induction false} SplitSorted<T(!new)>(
    list: seq<T>, items: seq<T>, time: T -> Time, protected: T -> bool, trailing: bool)
    requires SortedBy(list, Newest(time))
    ensures SortedBy(Split(list, items, time, protected, trailing), Newest(time))
  {
    if list != [] {
      var n := |list| - 1;
      var init := Split(list[..n], items, time, protected, trailing);
      SplitSorted(list[..n], items, time, protected, trailing);
      forall i | 0 <= i < |init|
        ensures Newest(time)(init[i], list[n]) <= 0
      {
        assert init[i] in list[..n];
        var k :| 0 <= k < n && list[k] == init[i];
      }
    }
  }

  /** A list ends with at least so many trailing items. */
  lemma {:induction false} SuffixSplits<T(!new)>(
    list: seq<T>, items: seq<T>, time: T -> Time, protected: T -> bool, count: nat)
    requires count <= |list|
    requires forall k :: |list| - count <= k < |list| ==> Trails(items, list[k], time, protected)
    ensures count <= |Split(list, items, time, protected, true)|
  {
    if count > 0 {
      SuffixSplits(list[..|list| - 1], items, time, protected, count - 1);
    }
  }

  /** The items in a newest-first order that has the trailing ones last. */
  ghost function TrailingLast<T(!new)>(sorted: seq<T>, time: T -> Time, protected: T -> bool): seq<T>
  {
    Split(sorted, sorted, time, protected, false) + Split(sorted, sorted, time, protected, true)
  }

  lemma {:induction false} TrailingLastIsSorted<T(!new)>(sorted: seq<T>, time: T -> Time, protected: T -> bool)
    requires SortedBy(sorted, Newest(time))
    ensures multiset(TrailingLast(sorted, time, protected)) == multiset(sorted)
    ensures SortedBy(TrailingLast(sorted, time, protected), Newest(time))
  {
    var a, b := Split(sorted, sorted, time, protected, false), Split(sorted, sorted, time, protected, true);
    SplitSorted(sorted, sorted, time, protected, false);
    SplitSorted(sorted, sorted, time, protected, true);
    forall i, j | 0 <= i < |a| && 0 <= j < |b|
      ensures Newest(time)(a[i], b[j]) <= 0
    {
      assert a[i] in a && b[j] in b;
      assert a[i] in sorted && Trails(sorted, b[j], time, protected) && !Trails(sorted, a[i], time, protected);
    }
    forall x
      ensures multiset(a + b)[x] == multiset(sorted)[x]
    {
      SplitCounts(sorted, sorted, time, protected, false, x);
      SplitCounts(sorted, sorted, time, protected, true, x);
    }
  }

  /** For every order there is a tail of targets. */
  lemma {:induction false} CutExists<T(!new)>(
    items: seq<T>, sorted: seq<T>, time: T -> Time, protected: T -> bool, limits: Limits, now: Time)
    returns (cut: nat)
    requires multiset(sorted) == multiset(items) && SortedBy(sorted, Newest(time))
    ensures Sweep(items, sorted, cut, time, protected, limits, now)
  {
    cut := |sorted|;
    while cut > 0 && Targeted(sorted, time, protected, limits, now, cut - 1)
      invariant cut <= |sorted|
      invariant forall i :: cut <= i < |sorted| ==> Targeted(sorted, time, protected, limits, now, i)
    {
      cut := cut - 1;
    }
    forall i | 0 <= i < cut
      ensures !Targeted(sorted, time, protected, limits, now, i)
    {
      if Targeted(sorted, time, protected, limits, now, i) {
        TargetedLater(sorted, time, protected, limits, now, i, cut - 1);
      }
    }
  }

  lemma {:induction false} TargetedLater<T(!new)>(
    sorted: seq<T>, time: T -> Time, protected: T -> bool, limits: Limits, now: Time, i: nat, j: nat)
    requires SortedBy(sorted, Newest(time)) && i <= j < |sorted|
    requires Targeted(sorted, time, protected, limits, now, i)
    ensures Targeted(sorted, time, protected, limits, now, j)
  {
    assert i < j ==> Newest(time)(sorted[i], sorted[j]) <= 0;
  }

  /** At most maxRetained items trail, or the oldest item is too young. */
  ghost predicate Settled<T(!new)>(
    sorted: seq<T>, time: T -> Time, protected: T -> bool, limits: Limits, now: Time)
  {
    || |Split(sorted, sorted, time, protected, true)| <= limits.maxRetained
    || now - time(sorted[|sorted| - 1]) < limits.minAge
  }

  /** Whatever the sort, the last item is equally old. */
  lemma {:induction false} OldestAgree<T(!new)>(r: seq<T>, s: seq<T>, time: T -> Time, n: nat)
    requires multiset(r) == multiset(s) && SortedBy(r, Newest(time)) && SortedBy(s, Newest(time))
    requires |r| == |s| == n + 1
    ensures time(r[n]) == time(s[n])
  {
    SameElements(r, s);
    assert r[n] in r && s[n] in s;
    var i :| 0 <= i < |s| && s[i] == r[n];
    var j :| 0 <= j < |r| && r[j] == s[n];
    assert i < n ==> Newest(time)(s[i], s[n]) <= 0;
    assert j < n ==> Newest(time)(r[j], r[n]) <= 0;
  }

  lemma {:induction false} SettledTargetsNothing<T(!new)>(
    items: seq<T>, again: seq<T>, cut: nat, time: T -> Time, protected: T -> bool, limits: Limits, now: Time)
    requires SortedBy(items, Newest(time)) && Settled(items, time, protected, limits, now)
    requires Sweep(items, again, cut, time, protected, limits, now)
    ensures cut == |again|
  {
    var n := |again| - 1;
    SameElements(again, items);
    if cut < |again| {
      assert Targeted(again, time, protected, limits, now, n);
      OldestAgree(items, again, time, n);
      forall k | n - limits.maxRetained <= k <= n
        ensures Trails(items, again[k], time, protected)
      {
        forall p <- items | protected(p)
          ensures time(again[k]) <= time(p)
        {
          assert p in again;
          var j :| 0 <= j < |again| && again[j] == p;
          assert Newest(time)(again[j], again[k]) <= 0;
        }
      }
      SuffixSplits(again, items, time, protected, limits.maxRetained + 1);
      SplitPermutes(again, items, items, time, protected);
    }
  }

  lemma {:induction false} UnsettledTargetsSomething<T(!new)>(
    items: seq<T>, time: T -> Time, protected: T -> bool, limits: Limits, now: Time)
    returns (again: seq<T>, cut: nat)
    requires SortedBy(items, Newest(time)) && !Settled(items, time, protected, limits, now)
    ensures Sweep(items, again, cut, time, protected, limits, now) && cut < |again|
  {
    again := TrailingLast(items, time, protected);
    TrailingLastIsSorted(items, time, protected);
    cut := CutExists(items, again, time, protected, limits, now);
    var n := |again| - 1;
    SameElements(again, items);
    var trailing := Split(items, items, time, protected, true);
    forall j | n - limits.maxRetained <= j <= n
      ensures !protected(again[j])
    {
      assert again[j] == trailing[j - (|again| - |trailing|)];
      assert again[j] in trailing;
    }
    OldestAgree(again, items, time, n);
    assert Targeted(again, time, protected, limits, now, n);
  }

  /** Exactly when a second pass at the same time has nothing to do, however it
      sorts: at most maxRetained of the survivors are unprotected and no newer
      than any protected one, or the oldest survivor is too young. */
  lemma {:induction false} SecondPassTargetsNothingExactly<T(!new)>(
    items: seq<T>, sorted: seq<T>, cut: nat, time: T -> Time, protected: T -> bool, limits: Limits, now: Time)
    requires Sweep(items, sorted, cut, time, protected, limits, now)
    ensures
      (forall again, cutAgain | Sweep(sorted[..cut], again, cutAgain, time, protected, limits, now) ::
         cutAgain == |again|)
      <==> Settled(sorted[..cut], time, protected, limits, now)
  {
    var survivors := sorted[..cut];
    if Settled(survivors, time, protected, limits, now) {
      forall again, cutAgain | Sweep(survivors, again, cutAgain, time, protected, limits, now)
        ensures cutAgain == |again|
      {
        SettledTargetsNothing(survivors, again, cutAgain, time, protected, limits, now);
      }
    } else {
      var again, cutAgain := UnsettledTargetsSomething(survivors, time, protected, limits, now);
    }
  }

  /** A second pass at the same time finds nothing to do, provided no two items
      are of the same age. */
  lemma {:induction false} SecondPassTargetsNothing<T(!new)>(
    items: seq<T>, sorted: seq<T>, cut: nat, again: seq<T>, cutAgain: nat,
    time: T -> Time, protected: T -> bool, limits: Limits, now: Time)
    requires Sweep(items, sorted, cut, time, protected, limits, now)
    requires Sweep(sorted[..cut], again, cutAgain, time, protected, limits, now)
    requires forall i, j :: 0 <= i < j < |sorted| ==> time(sorted[i]) != time(sorted[j])
    ensures cutAgain == |again|
  {
    DistinctTimesFixTheOrder(sorted[..cut], again, time);
    if cutAgain < |again| {
      assert Targeted(again, time, protected, limits, now, cutAgain);
      TailUnprotected(sorted, cut, time, protected, limits, now);
      assert Targeted(sorted, time, protected, limits, now, cutAgain);
    }
  }

  lemma {:induction false} TailUnprotected<T>(
    sorted: seq<T>, cut: nat, time: T -> Time, protected: T -> bool, limits: Limits, now: Time)
    requires cut <= |sorted|
    requires forall i :: cut <= i < |sorted| ==> Targeted(sorted, time, protected, limits, now, i)
    ensures forall i :: cut <= i < |sorted| ==> !protected(sorted[i])
  {
    assert cut < |sorted| ==> Targeted(sorted, time, protected, limits, now, cut);
  }

  /** With equally old items it may not: if the first sort puts an unprotected
      item before the protected one and the second sort puts it after, the second
      pass deletes what the first pass spared. */
  lemma {:induction false} EquallyOldItemsAreSweptAgain<T(!new)>(
    a: T, b: T, c: T, time: T -> Time, protected: T -> bool, minAge: Duration, now: Time)
    requires protected(a) && !protected(b) && !protected(c)
    requires time(a) == time(b) == time(c) && now - time(a) >= minAge
    ensures Sweep([a, b, c], [b, a, c], 2, time, protected, Limits(0, minAge), now)
    ensures Sweep([b, a, c][..2], [a, b], 1, time, protected, Limits(0, minAge), now)
  {
    var sorted, limits := [b, a, c], Limits(0, minAge);
    assert sorted[1] == a && !Targeted(sorted, time, protected, limits, now, 0)
      && !Targeted(sorted, time, protected, limits, now, 1) && Targeted(sorted, time, protected, limits, now, 2);
    assert sorted[..2] == [b, a];
    var again := [a, b];
    assert again[0] == a && !Targeted(again, time, protected, limits, now, 0)
      && Targeted(again, time, protected, limits, now, 1);
  }
}
