/** The bounded stack of verifications of a Freight collection
    (VerificationInfoStack in api/v1alpha1/stage_types.go). */
module VerificationStack {

  const MAX_SIZE := 10

  datatype VerificationInfo = VerificationInfo(id: string, phase: string, details: string)

  type Stack = seq<VerificationInfo>

  predicate HasId(v: Stack, id: string)
  {
    exists k :: 0 <= k < |v| && v[k].id == id
  }

  predicate DistinctIds(v: Stack)
  {
    forall j, k :: 0 <= j < k < |v| ==> v[j].id != v[k].id
  }

  /** The position of the first entry of an ID, or the height of the stack. */
  function Position(v: Stack, id: string): (r: nat)
    ensures r <= |v| && (r < |v| ==> v[r].id == id)
    ensures forall k :: 0 <= k < r ==> v[k].id != id
  {
    if v == [] || v[0].id == id then 0 else 1 + Position(v[1..], id)
  }

  /** The first entry of the same ID replaced, if there is one. */
  function Updated(v: Stack, info: VerificationInfo): (r: Stack)
    ensures |r| == |v|
    ensures forall k :: 0 <= k < |v| ==> r[k].id == v[k].id
    ensures !HasId(v, info.id) ==> r == v
  {
    var k := Position(v, info.id);
    if k < |v| then v[k := info] else v
  }

  function UpdatedAll(v: Stack, infos: seq<VerificationInfo>): (r: Stack)
    ensures |r| == |v|
    ensures forall k :: 0 <= k < |v| ==> r[k].id == v[k].id
  {
    if infos == [] then v else Updated(UpdatedAll(v, infos[..|infos| - 1]), infos[|infos| - 1])
  }

  /** Those without an entry yet, in the order given. */
  function Unmatched(v: Stack, infos: seq<VerificationInfo>): seq<VerificationInfo>
  {
    if infos == [] then []
    else
      Unmatched(v, infos[..|infos| - 1])
      + (if HasId(v, infos[|infos| - 1].id) then [] else [infos[|infos| - 1]])
  }

  function Cut(v: Stack): Stack
  {
    if |v| > MAX_SIZE then v[..MAX_SIZE] else v
  }

  function After(v: Stack, infos: seq<VerificationInfo>): Stack
  {
    Cut(Unmatched(v, infos) + UpdatedAll(v, infos))
  }

  class VerificationInfoStack {
    var items: Stack

    constructor ()
      ensures items == []
    {
      items := [];
    }

    /** UpdateOrPush. */
    method UpdateOrPush(infos: seq<VerificationInfo>)
      modifies this
      ensures items == After(old(items), infos)
    {
      var newStack: Stack := [];
      for n := 0 to |infos|
        invariant items == UpdatedAll(old(items), infos[..n])
        invariant newStack == Unmatched(old(items), infos[..n])
      {
        assert infos[..n + 1][..n] == infos[..n];
        assert HasId(items, infos[n].id) <==> HasId(old(items), infos[n].id);
        var found := UpdateFirst(infos[n]);
        if !found {
          newStack := newStack + [infos[n]];
        }
      }
      assert infos[..|infos|] == infos;
      items := newStack + items;
      if |items| > MAX_SIZE {
        items := items[..MAX_SIZE];
      }
    }

    /** The inner loop: replaces the first entry of the same ID. */
    method UpdateFirst(info: VerificationInfo) returns (found: bool)
      modifies this
      ensures found <==> HasId(old(items), info.id)
      ensures items == Updated(old(items), info)
    {
      for k := 0 to |items|
        invariant items == old(items)
        invariant forall j :: 0 <= j < k ==> items[j].id != info.id
      {
        if items[k].id == info.id {
          UpdatedAt(items, info, k);
          items := items[k := info];
          return true;
        }
      }
      assert !HasId(items, info.id);
      return false;
    }
  }

  lemma {:induction false} UpdatedAt(v: Stack, info: VerificationInfo, k: nat)
    requires k < |v| && v[k].id == info.id && forall j :: 0 <= j < k ==> v[j].id != info.id
    ensures Updated(v, info) == v[k := info]
  {
    assert Position(v, info.id) == k;
  }

  // ----- One information at a time

  /** What one push does: an entry of the same ID is replaced where it is, an
      unknown ID goes on top and pushes out at most the last entry. */
  lemma {:induction false} PushIs(v: Stack, info: VerificationInfo)
    requires |v| <= MAX_SIZE
    ensures HasId(v, info.id) ==> After(v, [info]) == Updated(v, info)
    ensures !HasId(v, info.id) ==> After(v, [info]) == Cut([info] + v)
  {
    OneInfo(v, [info]);
  }

  lemma {:induction false} OneInfo(v: Stack, infos: seq<VerificationInfo>)
    requires |infos| == 1
    ensures UpdatedAll(v, infos) == Updated(v, infos[0])
    ensures Unmatched(v, infos) == if HasId(v, infos[0].id) then [] else infos
  {
    assert infos[..|infos| - 1] == [];
  }

  /** Every entry but those of the ID pushed stands as it was. */
  lemma {:induction false} UpdatedKeeps(v: Stack, info: VerificationInfo, k: nat)
    requires k < |v| && DistinctIds(v)
    ensures Updated(v, info)[k] == if v[k].id == info.id then info else v[k]
  {
    var p := Position(v, info.id);
    assert v[k].id == info.id ==> p == k;
  }

  lemma {:induction false} SameIdsDistinct(v: Stack, r: Stack)
    requires DistinctIds(v) && |r| == |v| && forall k :: 0 <= k < |v| ==> r[k].id == v[k].id
    ensures DistinctIds(r)
  {
  }

  lemma {:induction false} CutDistinct(v: Stack)
    requires DistinctIds(v)
    ensures DistinctIds(Cut(v))
  {
  }

  lemma {:induction false} OnTopDistinct(v: Stack, info: VerificationInfo)
    requires DistinctIds(v) && !HasId(v, info.id)
    ensures DistinctIds([info] + v)
  {
    var r := [info] + v;
    forall j, k | 0 <= j < k < |r|
      ensures r[j].id != r[k].id
    {
      assert r[k] == v[k - 1];
      if j > 0 {
        assert r[j] == v[j - 1];
      }
    }
  }

  /** One push keeps the stack bounded and its IDs distinct. */
  lemma {:induction false} PushKeepsBoundAndIds(v: Stack, info: VerificationInfo)
    requires |v| <= MAX_SIZE && DistinctIds(v)
    ensures |After(v, [info])| <= MAX_SIZE && DistinctIds(After(v, [info]))
  {
    PushIs(v, info);
    if HasId(v, info.id) {
      SameIdsDistinct(v, Updated(v, info));
    } else {
      OnTopDistinct(v, info);
      CutDistinct([info] + v);
    }
  }

  /** The place in v an entry of the stack after the push comes from. */
  function Source(v: Stack, info: VerificationInfo, k: int): int
  {
    if HasId(v, info.id) then k else k - 1
  }

  /** Where each entry after a push comes from: the entry of the ID pushed is the
      information pushed, every other is an unchanged entry of before. */
  lemma {:induction false} EntryAfterPush(v: Stack, info: VerificationInfo, k: nat)
    requires |v| <= MAX_SIZE && DistinctIds(v) && k < |After(v, [info])|
    ensures After(v, [info])[k].id == info.id ==> After(v, [info])[k] == info
    ensures
      After(v, [info])[k].id != info.id ==>
        && 0 <= Source(v, info, k) < |v|
        && v[Source(v, info, k)] == After(v, [info])[k]
  {
    PushIs(v, info);
    if HasId(v, info.id) {
      UpdatedKeeps(v, info, k);
    } else {
      var r := [info] + v;
      if k > 0 {
        assert r[k] == v[k - 1];
        NotAt(v, info.id, k - 1);
      }
    }
  }

  lemma {:induction false} NotAt(v: Stack, id: string, k: nat)
    requires !HasId(v, id) && k < |v|
    ensures v[k].id != id
  {
  }

  /** The ID pushed is on the stack, on top if it is new. */
  lemma {:induction false} PushedIsThere(v: Stack, info: VerificationInfo)
    requires |v| <= MAX_SIZE
    ensures HasId(After(v, [info]), info.id)
    ensures !HasId(v, info.id) ==> After(v, [info])[0] == info
  {
    PushIs(v, info);
    var r := After(v, [info]);
    if HasId(v, info.id) {
      var k :| 0 <= k < |v| && v[k].id == info.id;
      assert r[k].id == info.id;
    } else {
      assert r[0] == info;
    }
  }

  /** Entries that survive a push stay in the same order. */
  lemma {:induction false} OrderSurvives(v: Stack, info: VerificationInfo, j: nat, k: nat, j': nat, k': nat)
    requires |v| <= MAX_SIZE && DistinctIds(v) && j < k < |v|
    requires j' < |After(v, [info])| && After(v, [info])[j'].id == v[j].id
    requires k' < |After(v, [info])| && After(v, [info])[k'].id == v[k].id
    ensures j' < k'
  {
    PositionAfterPush(v, info, j, j');
    PositionAfterPush(v, info, k, k');
  }

  lemma {:induction false} PositionAfterPush(v: Stack, info: VerificationInfo, j: nat, j': nat)
    requires |v| <= MAX_SIZE && DistinctIds(v) && j < |v|
    requires j' < |After(v, [info])| && After(v, [info])[j'].id == v[j].id
    ensures Source(v, info, j') == j
  {
    PushIs(v, info);
    if HasId(v, info.id) {
      assert Updated(v, info)[j'].id == v[j'].id;
    } else {
      var r := [info] + v;
      NotAt(v, info.id, j);
      assert r[j'] == v[j' - 1];
    }
  }

  /** The stack after a run of single pushes. */
  function RunOf(pushes: seq<VerificationInfo>): Stack
  {
    if pushes == [] then [] else After(RunOf(pushes[..|pushes| - 1]), [pushes[|pushes| - 1]])
  }

  /** The latest information pushed for an ID. */
  ghost predicate Latest(pushes: seq<VerificationInfo>, info: VerificationInfo)
  {
    exists n :: 0 <= n < |pushes| && pushes[n] == info && NoneAfter(pushes, n, info.id)
  }

  ghost predicate NoneAfter(pushes: seq<VerificationInfo>, n: int, id: string)
    requires 0 <= n
  {
    forall m :: n < m < |pushes| ==> pushes[m].id != id
  }

  /** Over every run the stack holds at most ten entries, of distinct IDs. */
  lemma {:induction false} EveryRunIsBoundedAndDistinct(pushes: seq<VerificationInfo>)
    ensures |RunOf(pushes)| <= 10 && DistinctIds(RunOf(pushes))
  {
    if pushes != [] {
      var n := |pushes| - 1;
      EveryRunIsBoundedAndDistinct(pushes[..n]);
      PushKeepsBoundAndIds(RunOf(pushes[..n]), pushes[n]);
    }
  }

  /** Over every run each entry is the latest information pushed for its ID. */
  lemma {:induction false} EveryRunShowsTheLatest(pushes: seq<VerificationInfo>, k: nat)
    requires k < |RunOf(pushes)|
    ensures Latest(pushes, RunOf(pushes)[k])
  {
    var n := |pushes| - 1;
    var init, last := pushes[..n], pushes[n];
    EveryRunIsBoundedAndDistinct(init);
    EntryAfterPush(RunOf(init), last, k);
    var info := RunOf(pushes)[k];
    if info.id == last.id {
      assert pushes[n] == info && NoneAfter(pushes, n, info.id);
    } else {
      EveryRunShowsTheLatest(init, Source(RunOf(init), last, k));
      StillLatest(init, last, info);
      assert init + [last] == pushes;
    }
  }

  lemma {:induction false} StillLatest(init: seq<VerificationInfo>, last: VerificationInfo, info: VerificationInfo)
    requires Latest(init, info) && info.id != last.id
    ensures Latest(init + [last], info)
  {
    var n :| 0 <= n < |init| && init[n] == info && NoneAfter(init, n, info.id);
    var all := init + [last];
    assert all[n] == info;
    forall m | n < m < |all|
      ensures all[m].id != info.id
    {
      if m < |init| {
        assert all[m] == init[m];
      }
    }
    assert NoneAfter(all, n, info.id);
  }

  /** Over every run the ID pushed last is on the stack. */
  lemma {:induction false} EveryRunShowsTheLastPush(pushes: seq<VerificationInfo>)
    requires pushes != []
    ensures HasId(RunOf(pushes), pushes[|pushes| - 1].id)
  {
    var n := |pushes| - 1;
    EveryRunIsBoundedAndDistinct(pushes[..n]);
    PushedIsThere(RunOf(pushes[..n]), pushes[n]);
  }

  // ----- Several at once

  lemma {:induction false} UnmatchedAreNew(v: Stack, infos: seq<VerificationInfo>, k: nat)
    requires k < |Unmatched(v, infos)|
    ensures !HasId(v, Unmatched(v, infos)[k].id)
  {
    var init := infos[..|infos| - 1];
    if k < |Unmatched(v, init)| {
      UnmatchedAreNew(v, init, k);
    }
  }

  /** Several pushed at once keep the IDs distinct exactly if the new ones among
      them that fit are distinct. */
  lemma {:induction false} DistinctIdsExactly(v: Stack, infos: seq<VerificationInfo>)
    requires DistinctIds(v)
    ensures DistinctIds(After(v, infos)) <==> DistinctIds(Cut(Unmatched(v, infos)))
  {
    var new', kept := Unmatched(v, infos), UpdatedAll(v, infos);
    forall k | 0 <= k < |new'|
      ensures !HasId(kept, new'[k].id)
    {
      UnmatchedAreNew(v, infos, k);
      HasSameIds(v, kept, new'[k].id);
    }
    SameIdsDistinct(v, kept);
    if DistinctIds(Cut(new')) {
      JoinedDistinct(new', kept);
    } else {
      JoinedRepeats(new', kept);
    }
  }

  lemma {:induction false} HasSameIds(v: Stack, r: Stack, id: string)
    requires !HasId(v, id) && |r| == |v| && forall k :: 0 <= k < |v| ==> r[k].id == v[k].id
    ensures !HasId(r, id)
  {
  }

  lemma {:induction false} JoinedDistinct(new': Stack, kept: Stack)
    requires DistinctIds(Cut(new')) && DistinctIds(kept)
    requires forall k :: 0 <= k < |new'| ==> !HasId(kept, new'[k].id)
    ensures DistinctIds(Cut(new' + kept))
  {
    var r := Cut(new' + kept);
    forall j, k | 0 <= j < k < |r|
      ensures r[j].id != r[k].id
    {
      if k < |new'| {
        assert r[j] == Cut(new')[j] && r[k] == Cut(new')[k];
      } else if j < |new'| {
        assert r[j] == new'[j] && r[k] == kept[k - |new'|];
        NotAt(kept, new'[j].id, k - |new'|);
      } else {
        assert r[j] == kept[j - |new'|] && r[k] == kept[k - |new'|];
      }
    }
  }

  lemma {:induction false} JoinedRepeats(new': Stack, kept: Stack)
    requires !DistinctIds(Cut(new'))
    ensures !DistinctIds(Cut(new' + kept))
  {
    var c, r := Cut(new'), Cut(new' + kept);
    var j, k :| 0 <= j < k < |c| && c[j].id == c[k].id;
    assert r[j] == c[j] && r[k] == c[k];
  }

  /** An entry already on the stack ends as the last of the informations given
      for its ID, and as it was if there are none. */
  lemma {:induction false} KnownEntriesShowTheLast(v: Stack, infos: seq<VerificationInfo>, k: nat)
    requires DistinctIds(v) && k < |v|
    ensures UpdatedAll(v, infos)[k] == LastFor(infos, v[k])
  {
    if infos != [] {
      var init := infos[..|infos| - 1];
      KnownEntriesShowTheLast(v, init, k);
      SameIdsDistinct(v, UpdatedAll(v, init));
      UpdatedKeeps(UpdatedAll(v, init), infos[|infos| - 1], k);
    }
  }

  function LastFor(infos: seq<VerificationInfo>, entry: VerificationInfo): (r: VerificationInfo)
    ensures r.id == entry.id
    ensures
      || (r == entry && forall m :: 0 <= m < |infos| ==> infos[m].id != entry.id)
      || exists n :: 0 <= n < |infos| && infos[n] == r && forall m :: n < m < |infos| ==> infos[m].id != entry.id
  {
    if infos == [] then entry
    else if infos[|infos| - 1].id == entry.id then infos[|infos| - 1]
    else LastFor(infos[..|infos| - 1], entry)
  }
}
