/** Promotions, their phases, and the order in which a Stage considers them
    (api/v1alpha1/promotion_types.go, pkg/api/promotion.go). */
module Promotions {
  import opened Times
  import opened Strings
  import opened Sorting

  /** Any text is a phase; four of them are terminal. */
  datatype Phase = New | Pending | Running | Succeeded | Failed | Errored | Aborted | Unknown(text: string)
  {
    predicate IsTerminal() { Succeeded? || Failed? || Errored? || Aborted? }
  }

  datatype Promotion = Promotion(
    name: string,
    phase: Phase,
    target: string,  // empty: a Promotion to the Stage itself
    owner: string,   // the owning PromotionRequest, empty if there is none
    createdAt: Time)

  /** ComparePromotionPhase: Running, then non-terminal, then terminal. */
  function ComparePhase(a: Phase, b: Phase): int
  {
    if a.Running? && !b.Running? then -1
    else if !a.Running? && b.Running? then 1
    else if !a.IsTerminal() && b.IsTerminal() then -1
    else if a.IsTerminal() && !b.IsTerminal() then 1
    else 0
  }

  /** ComparePromotionByPhaseAndCreationTime. */
  function ComparePromotion(a: Promotion, b: Promotion): int
  {
    if ComparePhase(a.phase, b.phase) != 0 then ComparePhase(a.phase, b.phase)
    else if !a.phase.IsTerminal() then Compare(a.name, b.name)
    else Compare(b.name, a.name)
  }

  lemma {:induction false} ComparePromotionIsComparator()
    ensures Comparator(ComparePromotion)
  {
    forall a, b
      ensures Ordered(ComparePromotion, a, b)
    {
      CompareFlips(a.name, b.name);
    }
    forall a, b, c
      ensures Chained(ComparePromotion, a, b, c)
    {
      if ComparePromotion(a, b) <= 0 && ComparePromotion(b, c) <= 0 {
        if Compare(a.name, b.name) <= 0 && Compare(b.name, c.name) <= 0 {
          CompareTransitive(a.name, b.name, c.name);
        }
        if Compare(c.name, b.name) <= 0 && Compare(b.name, a.name) <= 0 {
          CompareTransitive(c.name, b.name, a.name);
        }
      }
    }
  }

  /** The order ties only Promotions of the same name, so among the Promotions of
      a Stage every sort yields the same list. */
  lemma {:induction false} SortedPromotionsUnique(r: seq<Promotion>, s: seq<Promotion>)
    requires SortedBy(r, ComparePromotion) && SortedBy(s, ComparePromotion)
    requires multiset(r) == multiset(s)
    requires forall i, j :: 0 <= i < j < |r| ==> r[i].name != r[j].name
    ensures r == s
  {
    forall i, j | 0 <= i < |r| && 0 <= j < |r|
        && ComparePromotion(r[i], r[j]) <= 0 && ComparePromotion(r[j], r[i]) <= 0
      ensures r[i] == r[j]
    {
      CompareFlips(r[i].name, r[j].name);
      assert Compare(r[i].name, r[j].name) == 0;
    }
    SortedPermutationUnique(r, s, ComparePromotion);
  }

  /** Whatever is first in the order decides: a Running one if there is any,
      otherwise the least-named non-terminal one if there is any. */
  lemma {:induction false} HeadOfOrder(sorted: seq<Promotion>)
    requires sorted != [] && SortedBy(sorted, ComparePromotion)
    ensures sorted[0].phase.Running? <==> exists p <- sorted :: p.phase.Running?
    ensures sorted[0].phase.IsTerminal() <==> forall p <- sorted :: p.phase.IsTerminal()
    ensures !sorted[0].phase.IsTerminal() && !sorted[0].phase.Running? ==>
      forall p <- sorted :: !p.phase.IsTerminal() ==> Compare(sorted[0].name, p.name) <= 0
  {
    forall p <- sorted
      ensures ComparePromotion(sorted[0], p) <= 0
    {
      var i :| 0 <= i < |sorted| && sorted[i] == p;
      CompareFlips(p.name, p.name);
    }
  }
}
