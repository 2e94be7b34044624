/** slices.SortFunc and slices.CompactFunc. SortFunc promises a sorted
    permutation and nothing else (it is not stable), so every caller is proved
    for whichever sorted permutation it returns. */
module Sorting {
  import opened Strings

  predicate Ordered<T>(cmp: (T, T) -> int, a: T, b: T)
  {
    cmp(a, b) <= 0 || cmp(b, a) <= 0
  }

  predicate Chained<T>(cmp: (T, T) -> int, a: T, b: T, c: T)
  {
    cmp(a, b) <= 0 && cmp(b, c) <= 0 ==> cmp(a, c) <= 0
  }

  /** What SortFunc demands of a comparison function: a total preorder. */
  ghost predicate Comparator<T(!new)>(cmp: (T, T) -> int)
  {
    && (forall a, b :: Ordered(cmp, a, b))
    && (forall a, b, c :: Chained(cmp, a, b, c))
  }

  ghost predicate SortedBy<T>(s: seq<T>, cmp: (T, T) -> int)
  {
    forall i, j :: 0 <= i < j < |s| ==> cmp(s[i], s[j]) <= 0
  }

  method SortFunc<T(==, !new)>(s: seq<T>, cmp: (T, T) -> int) returns (r: seq<T>)
    requires Comparator(cmp)
    ensures SortedBy(r, cmp)
    ensures multiset(r) == multiset(s)
  {
    r := [];
    for n := 0 to |s|
      invariant SortedBy(r, cmp)
      invariant multiset(r) == multiset(s[..n])
    {
      var k := 0;
      while k < |r| && cmp(r[k], s[n]) <= 0
        invariant 0 <= k <= |r|
        invariant forall i :: 0 <= i < k ==> cmp(r[i], s[n]) <= 0
      {
        k := k + 1;
      }
      assert s[..n + 1] == s[..n] + [s[n]];
      InsertSorted(r, k, s[n], cmp);
      r := Insert(r, k, s[n]);
    }
    assert s[..|s|] == s;
  }

  function Insert<T>(r: seq<T>, k: nat, x: T): seq<T>
    requires k <= |r|
  {
    r[..k] + [x] + r[k..]
  }

  lemma {:induction false} InsertSorted<T(!new)>(r: seq<T>, k: nat, x: T, cmp: (T, T) -> int)
    requires Comparator(cmp) && SortedBy(r, cmp) && k <= |r|
    requires forall i :: 0 <= i < k ==> cmp(r[i], x) <= 0
    requires k < |r| ==> cmp(r[k], x) > 0
    ensures SortedBy(Insert(r, k, x), cmp)
    ensures multiset(Insert(r, k, x)) == multiset(r) + multiset{x}
  {
    assert r == r[..k] + r[k..];
    forall j | k <= j < |r|
      ensures cmp(x, r[j]) <= 0
    {
      assert Ordered(cmp, r[k], x);
      assert Chained(cmp, x, r[k], r[j]);
    }
  }

  lemma {:induction false} SameElements<T>(r: seq<T>, s: seq<T>)
    requires multiset(r) == multiset(s)
    ensures |r| == |s|
    ensures forall x :: x in r <==> x in s
  {
    assert |r| == |multiset(r)| == |multiset(s)| == |s|;
    forall x
      ensures x in r <==> x in s
    {
      assert x in r <==> x in multiset(r);
      assert x in s <==> x in multiset(s);
    }
  }

  /** Distinct elements of s never tie. */
  ghost predicate Strict<T>(s: seq<T>, cmp: (T, T) -> int)
  {
    forall i, j :: 0 <= i < |s| && 0 <= j < |s| && cmp(s[i], s[j]) <= 0 && cmp(s[j], s[i]) <= 0 ==> s[i] == s[j]
  }

  lemma {:induction false} TailElements<T>(r: seq<T>, s: seq<T>)
    requires r != [] && s != [] && r[0] == s[0]
    requires multiset(r) == multiset(s)
    ensures multiset(r[1..]) == multiset(s[1..])
    ensures forall x :: x in r[1..] ==> x in r
  {
    assert r == [r[0]] + r[1..] && s == [s[0]] + s[1..];
    assert multiset(r[1..]) == multiset(r) - multiset{r[0]};
    assert multiset(s[1..]) == multiset(s) - multiset{s[0]};
  }

  /** When only equal elements compare equal, there is one sorted permutation. */
  lemma {:induction false} SortedPermutationUnique<T(!new)>(r: seq<T>, s: seq<T>, cmp: (T, T) -> int)
    requires SortedBy(r, cmp) && SortedBy(s, cmp)
    requires multiset(r) == multiset(s)
    requires Strict(r, cmp)
    ensures r == s
  {
    SameElements(r, s);
    if r != [] {
      assert r[0] in s && s[0] in r;
      var i :| 0 <= i < |s| && s[i] == r[0];
      var j :| 0 <= j < |r| && r[j] == s[0];
      assert cmp(s[0], s[i]) <= 0 || i == 0;
      assert cmp(r[0], r[j]) <= 0 || j == 0;
      assert r[0] == s[0];
      TailElements(r, s);
      SortedPermutationUnique(r[1..], s[1..], cmp);
    }
  }

  // ----- Strings

  lemma {:induction false} CompareIsComparator()
    ensures Comparator(Compare)
  {
    forall a, b
      ensures Ordered(Compare, a, b)
    {
      CompareFlips(a, b);
    }
    forall a, b, c
      ensures Chained(Compare, a, b, c)
    {
      if Compare(a, b) <= 0 && Compare(b, c) <= 0 {
        CompareTransitive(a, b, c);
      }
    }
  }

  /** Strings sort one way. */
  lemma {:induction false} SortedStringsUnique(a: seq<string>, b: seq<string>)
    requires SortedBy(a, Compare) && SortedBy(b, Compare) && multiset(a) == multiset(b)
    ensures a == b
  {
    forall i, j | 0 <= i < |a| && 0 <= j < |a| && Compare(a[i], a[j]) <= 0 && Compare(a[j], a[i]) <= 0
      ensures a[i] == a[j]
    {
      CompareFlips(a[i], a[j]);
    }
    SortedPermutationUnique(a, b, Compare);
  }

  // ----- De-duplication

  /** slices.CompactFunc: keeps the first element of every run of equal ones. */
  function CompactFunc<T>(s: seq<T>, eq: (T, T) -> bool): (r: seq<T>)
  {
    if |s| < 2 then s
    else
      CompactFunc(s[..|s| - 1], eq)
      + (if eq(s[|s| - 1], s[|s| - 2]) then [] else [s[|s| - 1]])
  }

  predicate StrictlyAscending<T>(s: seq<T>, name: T -> string)
  {
    forall i, j :: 0 <= i < j < |s| ==> Compare(name(s[i]), name(s[j])) < 0
  }

  function SameName<T>(name: T -> string): (T, T) -> bool
  {
    (x, y) => name(x) == name(y)
  }

  lemma {:induction false} AppendAscending<T>(r: seq<T>, x: T, name: T -> string)
    requires StrictlyAscending(r, name)
    requires r != [] ==> Compare(name(r[|r| - 1]), name(x)) < 0
    ensures StrictlyAscending(r + [x], name)
  {
    forall i | 0 <= i < |r|
      ensures Compare(name(r[i]), name(x)) < 0
    {
      if i < |r| - 1 {
        CompareChain(name(r[i]), name(r[|r| - 1]), name(x));
      }
    }
  }

  /** Sorted by name, and the name identifies the item. */
  predicate NameSorted<T(==)>(s: seq<T>, name: T -> string)
  {
    forall i, j :: 0 <= i < j < |s| ==>
      Compare(name(s[i]), name(s[j])) <= 0 && (name(s[i]) == name(s[j]) ==> s[i] == s[j])
  }

  lemma {:induction false} LastStep<T>(s: seq<T>, eq: (T, T) -> bool)
    requires |s| >= 2
    ensures
      var r := CompactFunc(s[..|s| - 1], eq);
      CompactFunc(s, eq) == if eq(s[|s| - 1], s[|s| - 2]) then r else r + [s[|s| - 1]]
  {
  }

  lemma {:induction false} InInit<T>(s: seq<T>, x: T)
    requires s != []
    ensures x in s <==> x in s[..|s| - 1] || x == s[|s| - 1]
  {
    assert s == s[..|s| - 1] + [s[|s| - 1]];
  }

  lemma {:induction false} CompactKeepsLast<T>(s: seq<T>, name: T -> string)
    requires NameSorted(s, name) && s != []
    ensures
      var r := CompactFunc(s, SameName(name));
      r != [] && r[|r| - 1] == s[|s| - 1]
  {
    if |s| >= 2 {
      CompactKeepsLast(s[..|s| - 1], name);
      LastStep(s, SameName(name));
    }
  }

  lemma {:induction false} CompactKeeps<T>(s: seq<T>, name: T -> string, x: T)
    requires NameSorted(s, name)
    ensures x in CompactFunc(s, SameName(name)) <==> x in s
  {
    if |s| >= 2 {
      CompactKeeps(s[..|s| - 1], name, x);
      LastStep(s, SameName(name));
      InInit(s, x);
      assert s[|s| - 2] in s[..|s| - 1];
      CompactKeeps(s[..|s| - 1], name, s[|s| - 2]);
    }
  }

  /** Compacting a list sorted by an identifying name leaves each item once, in
      strictly ascending name order. */
  lemma {:induction false} CompactSorted<T>(s: seq<T>, name: T -> string)
    requires NameSorted(s, name)
    ensures StrictlyAscending(CompactFunc(s, SameName(name)), name)
    ensures forall x :: x in CompactFunc(s, SameName(name)) <==> x in s
  {
    forall x
      ensures x in CompactFunc(s, SameName(name)) <==> x in s
    {
      CompactKeeps(s, name, x);
    }
    CompactAscends(s, name);
  }

  lemma {:induction false} CompactAscends<T>(s: seq<T>, name: T -> string)
    requires NameSorted(s, name)
    ensures StrictlyAscending(CompactFunc(s, SameName(name)), name)
  {
    if |s| >= 2 {
      CompactAscends(s[..|s| - 1], name);
      CompactAscendsStep(s, name);
    }
  }

  lemma {:induction false} CompactAscendsStep<T>(s: seq<T>, name: T -> string)
    requires |s| >= 2 && NameSorted(s, name)
    requires StrictlyAscending(CompactFunc(s[..|s| - 1], SameName(name)), name)
    ensures StrictlyAscending(CompactFunc(s, SameName(name)), name)
  {
    var init, last, prev := s[..|s| - 1], s[|s| - 1], s[|s| - 2];
    LastStep(s, SameName(name));
    if name(last) != name(prev) {
      CompactKeepsLast(init, name);
      assert Compare(name(prev), name(last)) < 0;
      AppendAscending(CompactFunc(init, SameName(name)), last, name);
    }
  }
}
