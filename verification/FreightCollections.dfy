/** Collections of Freight references, keyed by printed origin and identified by
    a hash of their Freight's names (api/v1alpha1/stage_types.go), and the
    collection a Stage runs once Freight is promoted to it
    (pkg/api/freight_collection.go). The hash is any function of its input. */
module FreightCollections {
  import opened Results
  import opened Strings
  import opened Sorting
  import opened Origins

  datatype FreightReference = FreightReference(name: string, origin: Origin)

  type References = map<string, FreightReference>

  // ----- What a collection holds

  /** The entries after pushing the references one by one. */
  function Pushed(m: References, refs: seq<FreightReference>): References
  {
    if refs == [] then m
    else Pushed(m, refs[..|refs| - 1])[refs[|refs| - 1].origin.String() := refs[|refs| - 1]]
  }

  /** Every entry is filed under its own origin. */
  ghost predicate Filed(m: References)
  {
    forall k <- m :: m[k].origin.String() == k
  }

  lemma {:induction false} PushedFiled(m: References, refs: seq<FreightReference>)
    requires Filed(m)
    ensures Filed(Pushed(m, refs))
  {
    if refs != [] {
      PushedFiled(m, refs[..|refs| - 1]);
    }
  }

  ghost predicate DistinctOrigins(refs: seq<FreightReference>)
  {
    forall i, j :: 0 <= i < j < |refs| ==> refs[i].origin.String() != refs[j].origin.String()
  }

  /** The references pushed are all there, and the entries of other origins are
      as before. */
  lemma {:induction false} PushedEntries(m: References, refs: seq<FreightReference>)
    requires DistinctOrigins(refs)
    ensures forall r <- refs :: r.origin.String() in Pushed(m, refs) && Pushed(m, refs)[r.origin.String()] == r
    ensures forall k :: (forall r <- refs :: r.origin.String() != k) ==>
      (k in Pushed(m, refs) <==> k in m) && (k in m ==> Pushed(m, refs)[k] == m[k])
  {
    if refs != [] {
      var init, last := refs[..|refs| - 1], refs[|refs| - 1];
      assert refs == init + [last];
      PushedEntries(m, init);
      forall r <- init
        ensures r.origin.String() != last.origin.String()
      {
        var i :| 0 <= i < |init| && init[i] == r;
        assert refs[i].origin.String() != refs[|refs| - 1].origin.String();
      }
    }
  }

  ghost predicate Names(refs: seq<FreightReference>, k: string)
  {
    exists r <- refs :: r.origin.String() == k
  }

  lemma {:induction false} PushedAt(m: References, refs: seq<FreightReference>, k: string)
    requires DistinctOrigins(refs)
    ensures !Names(refs, k) ==> (k in Pushed(m, refs) <==> k in m) && (k in m ==> Pushed(m, refs)[k] == m[k])
    ensures forall r <- refs :: r.origin.String() == k ==> k in Pushed(m, refs) && Pushed(m, refs)[k] == r
  {
    PushedEntries(m, refs);
  }

  /** References of distinct origins may be pushed in any order. */
  lemma {:induction false} PushOrderIsIrrelevant(m: References, a: seq<FreightReference>, b: seq<FreightReference>)
    requires DistinctOrigins(a) && DistinctOrigins(b) && multiset(a) == multiset(b)
    ensures Pushed(m, a) == Pushed(m, b)
  {
    SameElements(a, b);
    var pa, pb := Pushed(m, a), Pushed(m, b);
    forall k
      ensures k in pa <==> k in pb
      ensures k in pa ==> pa[k] == pb[k]
    {
      PushedAt(m, a, k);
      PushedAt(m, b, k);
      if Names(a, k) {
        var r :| r in a && r.origin.String() == k;
        assert r in b;
      } else {
        assert !Names(b, k);
      }
    }
  }

  // ----- What identifies it

  /** How many entries bear a name. */
  ghost function Count(m: References, name: string): nat
  {
    |set k <- m | m[k].name == name|
  }

  lemma {:induction false} CountWithout(m: References, k: string, name: string)
    requires k in m
    ensures Count(m, name) == Count(m - {k}, name) + (if m[k].name == name then 1 else 0)
  {
    var all, rest := set j <- m | m[j].name == name, set j <- m - {k} | (m - {k})[j].name == name;
    if m[k].name == name {
      assert all == rest + {k};
    } else {
      assert all == rest;
    }
  }

  ghost predicate Lists(names: seq<string>, m: References)
  {
    forall n :: multiset(names)[n] == Count(m, n)
  }

  /** The identifier is the hash of the entries' names, sorted and joined. */
  ghost predicate Identifies(id: string, m: References, hash: string -> string)
  {
    exists sorted :: SortedBy(sorted, Compare) && Lists(sorted, m) && id == hash(Join(sorted, ","))
  }

  /** Collections with the same names have the same identifier, whatever the
      iteration order of their maps and the order in which they were filled. */
  lemma {:induction false} IdentifierDetermined(
    a: string, m: References, b: string, m': References, hash: string -> string)
    requires Identifies(a, m, hash) && Identifies(b, m', hash)
    requires forall n :: Count(m, n) == Count(m', n)
    ensures a == b
  {
    var sa :| SortedBy(sa, Compare) && Lists(sa, m) && a == hash(Join(sa, ","));
    var sb :| SortedBy(sb, Compare) && Lists(sb, m') && b == hash(Join(sb, ","));
    SameLists(sa, m, sb, m');
    SortedStringsUnique(sa, sb);
  }

  lemma {:induction false} SameLists(a: seq<string>, m: References, b: seq<string>, m': References)
    requires Lists(a, m) && Lists(b, m') && forall n :: Count(m, n) == Count(m', n)
    ensures multiset(a) == multiset(b)
  {
    forall n
      ensures multiset(a)[n] == multiset(b)[n]
    {
      assert Count(m, n) == Count(m', n);
    }
  }

  // ----- The collection itself

  class FreightCollection {
    var id: string
    var freight: References

    constructor ()
      ensures id == "" && freight == map[]
    {
      id, freight := "", map[];
    }

    /** Includes. */
    method Includes(name: string) returns (found: bool)
      ensures found <==> exists k <- freight :: freight[k].name == name
    {
      var keys := freight.Keys;
      while keys != {}
        invariant keys <= freight.Keys
        invariant forall k <- freight.Keys - keys :: freight[k].name != name
        decreases keys
      {
        var k :| k in keys;
        if freight[k].name == name {
          return true;
        }
        keys := keys - {k};
      }
      return false;
    }

    /** UpdateOrPush. */
    method UpdateOrPush(refs: seq<FreightReference>, hash: string -> string)
      modifies this
      ensures freight == Pushed(old(freight), refs)
      ensures Identifies(id, freight, hash)
    {
      for i := 0 to |refs|
        invariant freight == Pushed(old(freight), refs[..i])
      {
        assert refs[..i + 1][..i] == refs[..i];
        freight := freight[refs[i].origin.String() := refs[i]];
      }
      assert refs[..|refs|] == refs;
      var names := Names();
      CompareIsComparator();
      var freightNames := SortFunc(names, Compare);
      id := hash(Join(freightNames, ","));
    }

    /** The names, in the order the map happens to be iterated. */
    method Names() returns (names: seq<string>)
      ensures Lists(names, freight)
    {
      names := [];
      var rest := freight;
      while rest != map[]
        invariant forall n :: multiset(names)[n] + Count(rest, n) == Count(freight, n)
        decreases |rest|
      {
        var k :| k in rest;
        forall n
          ensures Count(rest, n) == Count(rest - {k}, n) + (if rest[k].name == n then 1 else 0)
        {
          CountWithout(rest, k, n);
        }
        names := names + [rest[k].name];
        rest := rest - {k};
      }
    }

    /** The map's keys, in the order it happens to be iterated. */
    method Keys() returns (origins: seq<string>)
      ensures |origins| == |freight| && forall o :: o in origins <==> o in freight
      ensures forall i, j :: 0 <= i < j < |origins| ==> origins[i] != origins[j]
    {
      origins := [];
      var keys := freight.Keys;
      while keys != {}
        invariant keys <= freight.Keys && |origins| + |keys| == |freight|
        invariant forall o :: o in origins <==> o in freight && o !in keys
        invariant forall i, j :: 0 <= i < j < |origins| ==> origins[i] != origins[j]
        decreases keys
      {
        var k :| k in keys;
        origins := origins + [k];
        keys := keys - {k};
      }
    }

    method SortedKeys() returns (sorted: seq<string>)
      ensures |sorted| == |freight| && forall o :: o in sorted <==> o in freight
      ensures forall i, j :: 0 <= i < j < |sorted| ==> Compare(sorted[i], sorted[j]) < 0
    {
      var origins := Keys();
      CompareIsComparator();
      sorted := SortFunc(origins, Compare);
      SameElements(sorted, origins);
      DistinctSorted(origins, sorted);
    }

    /** References: one per origin, in the order of the printed origins. */
    method References() returns (refs: seq<FreightReference>)
      requires Filed(freight)
      ensures |refs| == |freight| && forall r <- refs :: r.origin.String() in freight && freight[r.origin.String()] == r
      ensures forall i, j :: 0 <= i < j < |refs| ==> Compare(refs[i].origin.String(), refs[j].origin.String()) < 0
    {
      var sorted := SortedKeys();
      refs := [];
      for i := 0 to |sorted|
        invariant |refs| == i
        invariant forall j :: 0 <= j < i ==> sorted[j] in freight && refs[j] == freight[sorted[j]]
      {
        assert sorted[i] in sorted;
        refs := refs + [freight[sorted[i]]];
      }
    }
  }

  lemma {:induction false} DistinctSorted(a: seq<string>, sorted: seq<string>)
    requires multiset(a) == multiset(sorted) && SortedBy(sorted, Compare)
    requires forall i, j :: 0 <= i < j < |a| ==> a[i] != a[j]
    ensures forall i, j :: 0 <= i < j < |sorted| ==> Compare(sorted[i], sorted[j]) < 0
  {
    forall i, j | 0 <= i < j < |sorted|
      ensures sorted[i] != sorted[j]
    {
      if sorted[i] == sorted[j] {
        TwiceIn(sorted, i, j);
        OnceIn(a, sorted[i]);
      }
    }
  }

  lemma {:induction false} TwiceIn(s: seq<string>, i: nat, j: nat)
    requires i < j < |s| && s[i] == s[j]
    ensures multiset(s)[s[i]] >= 2
  {
    assert s == s[..j] + [s[j]] + s[j + 1..];
    assert s[..j][i] == s[i];
    assert s[i] in multiset(s[..j]);
  }

  lemma {:induction false} OnceIn(s: seq<string>, x: string)
    requires forall i, j :: 0 <= i < j < |s| ==> s[i] != s[j]
    ensures multiset(s)[x] <= 1
  {
    if s != [] {
      assert s == s[..|s| - 1] + [s[|s| - 1]];
      OnceIn(s[..|s| - 1], x);
      if s[|s| - 1] == x {
        assert x !in s[..|s| - 1];
        assert x !in multiset(s[..|s| - 1]);
      }
    }
  }

  // ----- The collection of a Stage

  /** inheritableFreight: what the last Promotion's collection holds, if there is
      one, otherwise what the current one does. */
  function Inheritable(last: Option<References>, current: Option<References>): Option<References>
  {
    if last.Some? then last else current
  }

  /** The promoted Freight, and for a Stage with several origins the inherited
      entry of every other requested one. */
  ghost predicate Carried(
    m: References, requested: seq<Origin>, inherited: Option<References>, freight: FreightReference)
  {
    && (forall k :: k in m <==>
          || k == freight.origin.String()
          || (|requested| > 1 && inherited.Some? && k in inherited.value && exists o <- requested :: o.String() == k))
    && m[freight.origin.String()] == freight
    && (forall k <- m :: k != freight.origin.String() ==> m[k] == inherited.value[k])
  }

  /** The inherited entry, if there is one, of each requested origin. */
  method CarryOver(
    collection: FreightCollection, requested: seq<Origin>, inherited: References, hash: string -> string)
    requires Filed(inherited) && collection.freight == map[]
    modifies collection
    ensures forall k :: k in collection.freight <==> k in inherited && exists o <- requested :: o.String() == k
    ensures forall k <- collection.freight :: collection.freight[k] == inherited[k]
  {
    for i := 0 to |requested|
      invariant forall k :: k in collection.freight <==> k in inherited && exists o <- requested[..i] :: o.String() == k
      invariant forall k <- collection.freight :: collection.freight[k] == inherited[k]
    {
      var key := requested[i].String();
      assert requested[..i + 1] == requested[..i] + [requested[i]];
      if key in inherited {
        PushOne(collection.freight, inherited[key]);
        collection.UpdateOrPush([inherited[key]], hash);
      }
    }
    assert requested[..|requested|] == requested;
  }

  /** NewFreightCollectionForStage. */
  method NewFreightCollectionForStage(
    requested: seq<Origin>, last: Option<References>, current: Option<References>,
    freight: FreightReference, hash: string -> string)
    returns (collection: FreightCollection)
    requires last.Some? ==> Filed(last.value)
    requires current.Some? ==> Filed(current.value)
    ensures fresh(collection)
    ensures Filed(collection.freight) && Identifies(collection.id, collection.freight, hash)
    ensures Carried(collection.freight, requested, if last.Some? then last else current, freight)
  {
    collection := new FreightCollection();
    var inherited := Inheritable(last, current);
    if |requested| > 1 && inherited.Some? {
      CarryOver(collection, requested, inherited.value, hash);
    }
    PushOne(collection.freight, freight);
    collection.UpdateOrPush([freight], hash);
  }

  lemma {:induction false} PushOne(m: References, r: FreightReference)
    ensures Pushed(m, [r]) == m[r.origin.String() := r]
  {
    assert [r][..0] == [];
  }

  // ----- One Promotion after the other

  /** The collection of the i-th Promotion, which inherits from the one before it. */
  ghost predicate CarriedOn(ms: seq<References>, requested: seq<Origin>, promoted: seq<FreightReference>, i: nat)
    requires i < |ms| == |promoted|
  {
    Carried(ms[i], requested, if i == 0 then None else Some(ms[i - 1]), promoted[i])
  }

  ghost predicate Successive(ms: seq<References>, requested: seq<Origin>, promoted: seq<FreightReference>)
  {
    |ms| == |promoted| && forall i :: 0 <= i < |ms| ==> CarriedOn(ms, requested, promoted, i)
  }

  /** Of this origin, the j-th was the latest to be promoted up to the n-th. */
  ghost predicate LatestOf(promoted: seq<FreightReference>, n: nat, k: string, j: int)
  {
    && 0 <= j <= n < |promoted| && promoted[j].origin.String() == k
    && forall i :: j < i <= n ==> promoted[i].origin.String() != k
  }

  /** A Stage with several origins always has, of each, the Freight promoted last,
      as long as it requests the origin; and nothing else. */
  lemma {:induction false} LatestOfEachOrigin(
    ms: seq<References>, requested: seq<Origin>, promoted: seq<FreightReference>, n: nat, k: string)
    requires Successive(ms, requested, promoted) && n < |ms| && |requested| > 1
    ensures forall j :: LatestOf(promoted, n, k, j) && (j == n || exists o <- requested :: o.String() == k) ==>
      k in ms[n] && ms[n][k] == promoted[j]
    ensures k in ms[n] ==> exists j :: LatestOf(promoted, n, k, j) && ms[n][k] == promoted[j]
  {
    assert CarriedOn(ms, requested, promoted, n);
    if promoted[n].origin.String() == k {
      assert LatestOf(promoted, n, k, n);
    } else if n > 0 {
      LatestOfEachOrigin(ms, requested, promoted, n - 1, k);
      assert forall j :: LatestOf(promoted, n, k, j) <==> LatestOf(promoted, n - 1, k, j);
    }
  }
}
