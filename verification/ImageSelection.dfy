/** Selecting container images by tag (pkg/image): filtering tags, fetching in
    order until enough are found, and cutting the result to the discovery limit.
    Fetching a tag yields an image, nothing if the platform does not match, or
    an error. */
module ImageSelection {
  import opened Results
  import opened Times
  import opened Images
  import opened Strings
  import opened Sorting

  type Fetch<!E> = string -> Result<Option<Image>, E>

  // ----- Filtering tags

  /** MatchesTag. */
  method MatchesTag(ignore: seq<string -> bool>, allow: seq<string -> bool>, tag: string) returns (matches: bool)
    ensures matches <==> Matches(ignore, allow, tag)
  {
    for i := 0 to |ignore|
      invariant forall k :: 0 <= k < i ==> !ignore[k](tag)
    {
      if ignore[i](tag) {
        return false;
      }
    }
    if |allow| == 0 {
      return true;
    }
    for i := 0 to |allow|
      invariant forall k :: 0 <= k < i ==> !allow[k](tag)
    {
      if allow[i](tag) {
        return true;
      }
    }
    return false;
  }

  ghost predicate Matches(ignore: seq<string -> bool>, allow: seq<string -> bool>, tag: string)
  {
    && (forall k :: 0 <= k < |ignore| ==> !ignore[k](tag))
    && (allow == [] || exists k :: 0 <= k < |allow| && allow[k](tag))
  }

  ghost function Filtered(ignore: seq<string -> bool>, allow: seq<string -> bool>, tags: seq<string>): seq<string>
  {
    if tags == [] then []
    else
      Filtered(ignore, allow, tags[..|tags| - 1])
      + (if Matches(ignore, allow, tags[|tags| - 1]) then [tags[|tags| - 1]] else [])
  }

  /** filterTags. */
  method FilterTags(ignore: seq<string -> bool>, allow: seq<string -> bool>, tags: seq<string>)
    returns (filtered: seq<string>)
    ensures filtered == Filtered(ignore, allow, tags)
  {
    filtered := [];
    for i := 0 to |tags|
      invariant filtered == Filtered(ignore, allow, tags[..i])
    {
      var matches := MatchesTag(ignore, allow, tags[i]);
      assert tags[..i + 1][..i] == tags[..i];
      if matches {
        filtered := filtered + [tags[i]];
      }
    }
    assert tags[..|tags|] == tags;
  }

  lemma {:induction false} MatchesExactly(ignore: seq<string -> bool>, allow: seq<string -> bool>, tag: string)
    ensures Matches(ignore, allow, tag) <==>
      (forall p <- ignore :: !p(tag)) && (|allow| > 0 ==> exists p <- allow :: p(tag))
  {
  }

  lemma {:induction false} FilteredCounts(
    ignore: seq<string -> bool>, allow: seq<string -> bool>, tags: seq<string>, tag: string)
    ensures multiset(Filtered(ignore, allow, tags))[tag] ==
      if Matches(ignore, allow, tag) then multiset(tags)[tag] else 0
  {
    if tags != [] {
      var init, last := tags[..|tags| - 1], tags[|tags| - 1];
      FilteredCounts(ignore, allow, init, tag);
      assert tags == init + [last];
    }
  }

  /** What is left of the tags, as often as it was there: those that match no ignore
      expression and, if there are any to match, some allow expression. */
  lemma {:induction false} FilteredExactly(
    ignore: seq<string -> bool>, allow: seq<string -> bool>, tags: seq<string>, tag: string)
    ensures multiset(Filtered(ignore, allow, tags))[tag] ==
      if (forall p <- ignore :: !p(tag)) && (|allow| > 0 ==> exists p <- allow :: p(tag)) then multiset(tags)[tag] else 0
  {
    FilteredCounts(ignore, allow, tags, tag);
    MatchesExactly(ignore, allow, tag);
  }

  // ----- Fetching in order

  function FoundBy<E>(tag: string, fetch: Fetch<E>): (r: seq<Image>)
    ensures |r| <= 1
  {
    match fetch(tag)
    case Success(Some(image)) => [image]
    case _ => []
  }

  /** Every image that fetching all the tags would find, in the order of the tags. */
  function Found<E>(tags: seq<string>, fetch: Fetch<E>): (r: seq<Image>)
    ensures |r| <= |tags|
  {
    if tags == [] then []
    else
      Found(tags[..|tags| - 1], fetch) + FoundBy(tags[|tags| - 1], fetch)
  }

  ghost predicate NoErrors<E>(tags: seq<string>, fetch: Fetch<E>)
  {
    forall t <- tags :: fetch(t).Success?
  }

  function Limit(limit: nat, n: nat): nat
  {
    if limit == 0 || limit > n then n else limit
  }

  function Take(images: seq<Image>, n: nat): seq<Image>
  {
    if n < |images| then images[..n] else images
  }

  lemma {:induction false} FoundSplit<E>(a: seq<string>, b: seq<string>, fetch: Fetch<E>)
    ensures Found(a + b, fetch) == Found(a, fetch) + Found(b, fetch)
  {
    if b == [] {
      assert a + b == a;
    } else {
      assert (a + b)[..|a + b| - 1] == a + b[..|b| - 1];
      FoundSplit(a, b[..|b| - 1], fetch);
    }
  }

  /** Fetching in order meets an error at k, before it has found enough. */
  ghost predicate FailsAt<E>(tags: seq<string>, fetch: Fetch<E>, limit: nat, k: int)
  {
    && 0 <= k < |tags| && fetch(tags[k]).Failure?
    && NoErrors(tags[..k], fetch) && |Found(tags[..k], fetch)| < limit
  }

  lemma {:induction false} EnoughFound<E>(tags: seq<string>, fetch: Fetch<E>, limit: nat, k: nat)
    requires k <= |tags| && NoErrors(tags[..k], fetch) && |Found(tags[..k], fetch)| == limit
    ensures Found(tags[..k], fetch) == Take(Found(tags, fetch), limit)
    ensures forall m :: !FailsAt(tags, fetch, limit, m)
  {
    assert tags == tags[..k] + tags[k..];
    FoundSplit(tags[..k], tags[k..], fetch);
    forall m
      ensures !FailsAt(tags, fetch, limit, m)
    {
      if k <= m < |tags| {
        assert tags[..m] == tags[..k] + tags[k..m];
        FoundSplit(tags[..k], tags[k..m], fetch);
      } else if 0 <= m < k {
        assert tags[m] in tags[..k];
      }
    }
  }

  lemma {:induction false} FoundNext<E>(tags: seq<string>, fetch: Fetch<E>, k: nat)
    requires k < |tags| && NoErrors(tags[..k], fetch) && fetch(tags[k]).Success?
    ensures NoErrors(tags[..k + 1], fetch)
    ensures Found(tags[..k + 1], fetch) == Found(tags[..k], fetch) + FoundBy(tags[k], fetch)
  {
    assert tags[..k + 1][..k] == tags[..k];
    assert tags[..k + 1] == tags[..k] + [tags[k]];
  }

  /** The first images up to the limit that fetching the tags in order finds, or
      the first error, if it comes before that. */
  ghost predicate FirstFound<E>(r: Result<seq<Image>, E>, tags: seq<string>, discoveryLimit: nat, fetch: Fetch<E>)
  {
    var limit := Limit(discoveryLimit, |tags|);
    match r
    case Success(images) => images == Take(Found(tags, fetch), limit) && forall k :: !FailsAt(tags, fetch, limit, k)
    case Failure(error) => exists k :: FailsAt(tags, fetch, limit, k) && fetch(tags[k]) == Failure(error)
  }

  /** Fetching in order meets at most one error. */
  lemma {:induction false} FirstErrorUnique<E>(tags: seq<string>, fetch: Fetch<E>, limit: nat, k: int, m: int)
    requires FailsAt(tags, fetch, limit, k) && FailsAt(tags, fetch, limit, m)
    ensures k == m
  {
  }

  /** getImagesByTags of the tag-based selector, which stops as soon as it has enough. */
  method GetImagesByTags<E>(tags: seq<string>, discoveryLimit: nat, fetch: Fetch<E>)
    returns (r: Result<seq<Image>, E>)
    ensures FirstFound(r, tags, discoveryLimit, fetch)
  {
    var limit := Limit(discoveryLimit, |tags|);
    var images: seq<Image> := [];
    for k := 0 to |tags|
      invariant images == Found(tags[..k], fetch) && |images| <= limit
      invariant NoErrors(tags[..k], fetch)
    {
      if |images| >= limit {
        EnoughFound(tags, fetch, limit, k);
        return Success(images);
      }
      var image := fetch(tags[k]);
      if image.Failure? {
        assert FailsAt(tags, fetch, limit, k);
        return Failure(image.error);
      }
      FoundNext(tags, fetch, k);
      if image.value.None? {
        continue;
      }
      images := images + [image.value.value];
    }
    assert tags[..|tags|] == tags;
    return Success(images);
  }

  /** imagesToAPIImages, which cuts to the limit once more. */
  method ImagesToAPIImages(images: seq<Image>, limit: int) returns (api: seq<Image>)
    ensures api == if limit <= 0 then images else Take(images, limit)
  {
    var n := if limit <= 0 || limit > |images| then |images| else limit;
    api := [];
    for i := 0 to n
      invariant api == images[..i]
    {
      api := api + [images[i]];
    }
  }

  // ----- The lexical strategy

  function Descending(s: seq<string>): seq<string>
  {
    if s == [] then [] else [s[|s| - 1]] + Descending(s[..|s| - 1])
  }

  lemma {:induction false} DescendingAt(s: seq<string>, i: nat)
    requires i < |s|
    ensures |Descending(s)| == |s| && Descending(s)[i] == s[|s| - 1 - i]
  {
    if i > 0 {
      DescendingAt(s[..|s| - 1], i - 1);
    } else if |s| > 1 {
      DescendingAt(s[..|s| - 1], 0);
    }
  }

  lemma {:induction false} DescendingElements(s: seq<string>)
    ensures multiset(Descending(s)) == multiset(s) && |Descending(s)| == |s|
  {
    if s != [] {
      DescendingElements(s[..|s| - 1]);
      assert s == s[..|s| - 1] + [s[|s| - 1]];
    }
  }

  /** The order is the tags' own, greatest first. */
  ghost predicate LexicallyDescending(order: seq<string>, tags: seq<string>)
  {
    && multiset(order) == multiset(tags)
    && forall i, j :: 0 <= i < j < |order| ==> Compare(order[i], order[j]) >= 0
  }

  method SortDescending(tags: seq<string>) returns (order: seq<string>)
    ensures LexicallyDescending(order, tags)
  {
    CompareIsComparator();
    var sorted := SortFunc(tags, Compare);
    order := Descending(sorted);
    DescendingElements(sorted);
    forall i, j | 0 <= i < j < |order|
      ensures Compare(order[i], order[j]) >= 0
    {
      DescendingAt(sorted, i);
      DescendingAt(sorted, j);
      CompareFlips(order[i], order[j]);
    }
  }

  /** What is found first in the descending order of the tags. */
  ghost predicate LexicalSelection<E>(
    r: Result<seq<Image>, E>, tags: seq<string>, discoveryLimit: nat, fetch: Fetch<E>)
  {
    exists order :: LexicallyDescending(order, tags) && FirstFound(r, order, discoveryLimit, fetch)
  }

  /** Select of the lexical selector. */
  method SelectLexical<E>(
    ignore: seq<string -> bool>, allow: seq<string -> bool>, tags: seq<string>, discoveryLimit: nat, fetch: Fetch<E>)
    returns (r: Result<seq<Image>, E>)
    ensures LexicalSelection(r, Filtered(ignore, allow, tags), discoveryLimit, fetch)
  {
    var filtered := FilterTags(ignore, allow, tags);
    if |filtered| == 0 {
      assert LexicallyDescending([], filtered) && Found([], fetch) == [];
      return Success([]);
    }
    var order := SortDescending(filtered);
    r := GetImagesByTags(order, discoveryLimit, fetch);
    if r.Failure? || |r.value| == 0 {
      return;
    }
    var api := ImagesToAPIImages(r.value, discoveryLimit);
    r := Success(api);
  }

  /** The descending order of the tags is unique. */
  lemma {:induction false} LexicalOrderUnique(a: seq<string>, b: seq<string>, tags: seq<string>)
    requires LexicallyDescending(a, tags) && LexicallyDescending(b, tags)
    ensures a == b
  {
    var cmp := (x, y) => Compare(y, x);
    forall i, j | 0 <= i < j < |a|
      ensures cmp(a[i], a[j]) <= 0
    {
      CompareFlips(a[i], a[j]);
    }
    SameElements(a, b);
    forall i, j | 0 <= i < j < |b|
      ensures cmp(b[i], b[j]) <= 0
    {
      CompareFlips(b[i], b[j]);
    }
    forall i, j | 0 <= i < |a| && 0 <= j < |a| && cmp(a[i], a[j]) <= 0 && cmp(a[j], a[i]) <= 0
      ensures a[i] == a[j]
    {
      CompareFlips(a[i], a[j]);
    }
    SortedPermutationUnique(a, b, cmp);
  }

  /** So the lexical selection is a function of the repository's tags, in
      whatever order they are listed. */
  lemma {:induction false} LexicalSelectionIgnoresListing<E(!new)>(
    r: Result<seq<Image>, E>, s: Result<seq<Image>, E>,
    tags: seq<string>, listed: seq<string>, discoveryLimit: nat, fetch: Fetch<E>)
    requires multiset(tags) == multiset(listed)
    requires LexicalSelection(r, tags, discoveryLimit, fetch) && LexicalSelection(s, listed, discoveryLimit, fetch)
    ensures r == s
  {
    var a :| LexicallyDescending(a, tags) && FirstFound(r, a, discoveryLimit, fetch);
    var b :| LexicallyDescending(b, listed) && FirstFound(s, b, discoveryLimit, fetch);
    LexicalOrderUnique(a, b, tags);
    var limit := Limit(discoveryLimit, |a|);
    if r.Failure? && s.Failure? {
      var k :| FailsAt(a, fetch, limit, k) && fetch(a[k]) == Failure(r.error);
      var m :| FailsAt(a, fetch, limit, m) && fetch(a[m]) == Failure(s.error);
      FirstErrorUnique(a, fetch, limit, k, m);
    }
  }

  /** The first of the images, as many as the limit allows; zero is no limit. */
  predicate FirstOf(images: seq<Image>, found: seq<Image>, discoveryLimit: nat)
  {
    images <= found && |images| == if 0 < discoveryLimit < |found| then discoveryLimit else |found|
  }

  /** What the lexical selector selects: the first of the images found for the tags
      in descending order. */
  lemma {:induction false} LexicalMeans<E>(images: seq<Image>, tags: seq<string>, discoveryLimit: nat, fetch: Fetch<E>)
    requires LexicalSelection(Success(images), tags, discoveryLimit, fetch)
    ensures exists order :: LexicallyDescending(order, tags) && FirstOf(images, Found(order, fetch), discoveryLimit)
  {
    var order :| LexicallyDescending(order, tags)
      && FirstFound(Result<seq<Image>, E>.Success(images), order, discoveryLimit, fetch);
    assert FirstOf(images, Found(order, fetch), discoveryLimit);
  }

  // ----- The newest-build strategy

  /** Newest first, and by descending tag among equally new images. */
  function NewestBuild(a: Image, b: Image): int
  {
    if a.createdAt != b.createdAt then b.createdAt - a.createdAt else Compare(b.tag, a.tag)
  }

  lemma {:induction false} NewestBuildIsComparator()
    ensures Comparator(NewestBuild)
  {
    forall a, b
      ensures Ordered(NewestBuild, a, b)
    {
      CompareFlips(a.tag, b.tag);
    }
    forall a, b, c
      ensures Chained(NewestBuild, a, b, c)
    {
      if Compare(c.tag, b.tag) <= 0 && Compare(b.tag, a.tag) <= 0 {
        CompareTransitive(c.tag, b.tag, a.tag);
      }
    }
  }

  /** The order is the gathered images' own, newest first. */
  ghost predicate NewestFirst(order: seq<Image>, gathered: seq<Image>)
  {
    multiset(order) == multiset(gathered) && SortedBy(order, NewestBuild)
  }

  function Discovered(order: seq<Image>, discoveryLimit: nat): seq<Image>
  {
    if discoveryLimit == 0 then order else Take(order, discoveryLimit)
  }

  /** The first images of all those gathered, newest first. */
  ghost predicate NewestOf(api: seq<Image>, gathered: seq<Image>, discoveryLimit: nat)
  {
    exists order :: NewestFirst(order, gathered) && api == Discovered(order, discoveryLimit)
  }

  ghost predicate DistinctTags(images: seq<Image>)
  {
    forall i, j :: 0 <= i < j < |images| ==> images[i].tag != images[j].tag
  }

  /** Select of the newest-build selector, from the images gathered on. */
  method SelectNewest(gathered: seq<Image>, discoveryLimit: nat) returns (api: seq<Image>)
    ensures NewestOf(api, gathered, discoveryLimit)
  {
    NewestBuildIsComparator();
    var images := SortFunc(gathered, NewestBuild);
    api := ImagesToAPIImages(images, discoveryLimit);
    assert NewestFirst(images, gathered);
  }

  lemma {:induction false} NewestOrderUnique(gathered: seq<Image>, a: seq<Image>, b: seq<Image>)
    requires DistinctTags(gathered) && NewestFirst(a, gathered) && NewestFirst(b, gathered)
    ensures a == b
  {
    forall i, j | 0 <= i < |a| && 0 <= j < |a| && NewestBuild(a[i], a[j]) <= 0 && NewestBuild(a[j], a[i]) <= 0
      ensures a[i] == a[j]
    {
      CompareFlips(a[i].tag, a[j].tag);
      SameElements(a, gathered);
      assert a[i] in a && a[j] in a;
      var k :| 0 <= k < |gathered| && gathered[k] == a[i];
      var m :| 0 <= m < |gathered| && gathered[m] == a[j];
      assert k == m;
    }
    SortedPermutationUnique(a, b, NewestBuild);
  }

  /** In whatever order concurrent fetches completed, the selection is the same,
      provided the images' tags are distinct. */
  lemma {:induction false} CompletionOrderIsIrrelevant(
    a: seq<Image>, b: seq<Image>, apiA: seq<Image>, apiB: seq<Image>, discoveryLimit: nat)
    requires multiset(a) == multiset(b) && DistinctTags(a)
    requires NewestOf(apiA, a, discoveryLimit) && NewestOf(apiB, b, discoveryLimit)
    ensures apiA == apiB
  {
    var orderA :| NewestFirst(orderA, a) && apiA == Discovered(orderA, discoveryLimit);
    var orderB :| NewestFirst(orderB, b) && apiB == Discovered(orderB, discoveryLimit);
    NewestOrderUnique(a, orderA, orderB);
  }

  /** Newer, or as new and with no lesser tag. */
  predicate NoOlder(a: Image, b: Image)
  {
    a.createdAt > b.createdAt || (a.createdAt == b.createdAt && Compare(a.tag, b.tag) >= 0)
  }

  lemma {:induction false} NewestFirstDescends(order: seq<Image>, gathered: seq<Image>, i: nat, j: nat)
    requires NewestFirst(order, gathered) && i < j < |order|
    ensures NoOlder(order[i], order[j])
  {
    assert NewestBuild(order[i], order[j]) <= 0;
    CompareFlips(order[i].tag, order[j].tag);
  }

  lemma {:induction false} LeftOut(order: seq<Image>, gathered: seq<Image>, n: nat)
    requires multiset(order) == multiset(gathered) && n <= |order|
    ensures multiset(order[..n]) <= multiset(gathered)
    ensures multiset(gathered) - multiset(order[..n]) == multiset(order[n..])
  {
    assert order == order[..n] + order[n..];
  }

  lemma {:induction false} AfterIsNoNewer(order: seq<Image>, gathered: seq<Image>, n: nat, i: nat, x: Image)
    requires NewestFirst(order, gathered) && i < n <= |order| && x in order[n..]
    ensures NoOlder(order[i], x)
  {
    var j :| 0 <= j < |order[n..]| && order[n..][j] == x;
    NewestFirstDescends(order, gathered, i, n + j);
  }

  lemma {:induction false} NoneLeftOutIsNewer(order: seq<Image>, gathered: seq<Image>, n: nat)
    requires NewestFirst(order, gathered) && n <= |order|
    ensures forall x, y :: x in multiset(gathered) - multiset(order[..n]) && y in order[..n] ==> NoOlder(y, x)
  {
    LeftOut(order, gathered, n);
    forall x: Image, y: Image | x in order[n..] && y in order[..n]
      ensures NoOlder(y, x)
    {
      var i :| 0 <= i < n && order[..n][i] == y;
      AfterIsNoNewer(order, gathered, n, i, x);
    }
  }

  lemma {:induction false} FirstDescend(order: seq<Image>, gathered: seq<Image>, n: nat)
    requires NewestFirst(order, gathered) && n <= |order|
    ensures forall i, j :: 0 <= i < j < n ==> NoOlder(order[..n][i], order[..n][j])
  {
    forall i, j | 0 <= i < j < n
      ensures NoOlder(order[..n][i], order[..n][j])
    {
      NewestFirstDescends(order, gathered, i, j);
    }
  }

  /** What the newest-build selector selects: as many of the gathered images as the
      limit allows, newest first and by descending tag among equally new ones, and
      none left out that is newer than one selected. */
  lemma {:induction false} NewestAreSelected(api: seq<Image>, gathered: seq<Image>, discoveryLimit: nat)
    requires NewestOf(api, gathered, discoveryLimit)
    ensures |api| == if discoveryLimit == 0 || discoveryLimit > |gathered| then |gathered| else discoveryLimit
    ensures multiset(api) <= multiset(gathered)
    ensures forall i, j :: 0 <= i < j < |api| ==> NoOlder(api[i], api[j])
    ensures forall x, y :: x in multiset(gathered) - multiset(api) && y in api ==> NoOlder(y, x)
  {
    var order: seq<Image> :| NewestFirst(order, gathered) && api == Discovered(order, discoveryLimit);
    assert |order| == |gathered| by {
      assert |multiset(order)| == |multiset(gathered)|;
    }
    var n := |api|;
    assert api == order[..n];
    LeftOut(order, gathered, n);
    FirstDescend(order, gathered, n);
    NoneLeftOutIsNewer(order, gathered, n);
  }
}
