/** Looking up images through a shared cache (pkg/image/repository_client.go,
    pkg/image/cache.go). The registry's tags and digests are immutable while
    lookups go on. */
module ImageCache {
  import opened Results
  import opened Times
  import opened Images

  // ----- The registry

  /** A reference of an index; os and arch are empty if it names no platform. */
  datatype Ref = Ref(digest: string, os: string, arch: string, variant: string, claimed: Option<Time>)

  /** An image manifest with the creation times found in its annotations, its
      labels and its config, or an index with the time its annotations claim. */
  datatype Manifest =
    | Single(claimed: Option<Time>, labelled: Option<Time>, configured: Time)
    | Index(refs: seq<Ref>, claimed: Option<Time>)
    | UnknownType

  /** Content by digest, and for each digest a height: an index can only refer to
      content that was there before it. A repository holds some of the content --
      not always all that its indexes name -- and tags some of what it holds. */
  datatype Registry = Registry(
    manifests: map<string, Manifest>,
    heights: map<string, nat>,
    held: set<(string, string)>,
    tags: map<(string, string), string>)
  {
    function Height(digest: string): nat
    {
      if digest in heights then heights[digest] + 1 else 0
    }

    ghost predicate Valid()
    {
      && heights.Keys == manifests.Keys
      && (forall d <- manifests :: manifests[d].Index? ==>
            forall r <- manifests[d].refs :: IsDigest(r.digest) && Height(r.digest) < Height(d))
      && (forall h <- held :: h.1 in manifests)
      && (forall t <- tags :: IsDigest(tags[t]) && (t.0, tags[t]) in held)
    }
  }

  datatype LookupError =
    | TagNotFound(repo: string, tag: string)
    | DigestNotFound(digest: string)
    | EmptyIndex(digest: string)
    | UnknownArtifact(digest: string)

  type Lookup<+T> = Result<T, LookupError>

  const UNKNOWN := "unknown"

  predicate NamesImage(r: Ref)
  {
    r.os != UNKNOWN && r.os != "" && r.arch != UNKNOWN && r.arch != ""
  }

  /** getCreationTime. */
  function CreationTime(claimed: Option<Time>, labelled: Option<Time>, configured: Time): Time
  {
    match claimed
    case Some(t) => t
    case None => if labelled.Some? && labelled.value > configured then labelled.value else configured
  }

  function Latest(ps: seq<Platform>): Time
    requires ps != []
  {
    var last := ps[|ps| - 1].createdAt;
    if |ps| == 1 then last
    else
      var before := Latest(ps[..|ps| - 1]);
      if last > before then last else before
  }

  /** The image that an index is, given its platforms. */
  function IndexImage(digest: string, claimed: Option<Time>, ps: Lookup<seq<Platform>>): Lookup<Image>
  {
    match ps
    case Failure(e) => Failure(e)
    case Success(ps) =>
      if ps == [] then Failure(EmptyIndex(digest))
      else Success(Image("", digest, match claimed case Some(t) => t case None => Latest(ps), ps))
  }

  /** The platforms with that of one more reference, given the image it names. */
  function WithPlatform(ps: seq<Platform>, r: Ref, image: Lookup<Image>): Lookup<seq<Platform>>
  {
    match image
    case Failure(e) => Failure(e)
    case Success(image) =>
      var createdAt := match r.claimed case Some(t) => t case None => image.createdAt;
      Success(ps + [Platform(r.os, r.arch, r.variant, createdAt)])
  }

  // ----- What uncached lookups return

  function ByDigest(reg: Registry, repo: string, digest: string): Lookup<Image>
    requires reg.Valid()
    decreases reg.Height(digest), 1, 0
  {
    if (repo, digest) !in reg.held then Failure(DigestNotFound(digest))
    else
      match reg.manifests[digest]
      case Single(claimed, labelled, configured) =>
        Success(Image("", digest, CreationTime(claimed, labelled, configured), []))
      case UnknownType => Failure(UnknownArtifact(digest))
      case Index(refs, claimed) => IndexImage(digest, claimed, Platforms(reg, repo, digest, refs))
  }

  /** The platforms of an index, one for each reference that names an image. */
  function Platforms(reg: Registry, repo: string, digest: string, refs: seq<Ref>): Lookup<seq<Platform>>
    requires reg.Valid()
    requires forall r <- refs :: reg.Height(r.digest) < reg.Height(digest)
    decreases reg.Height(digest), 0, |refs|
  {
    if refs == [] then Success([])
    else
      var init, last := refs[..|refs| - 1], refs[|refs| - 1];
      match Platforms(reg, repo, digest, init)
      case Failure(e) => Failure(e)
      case Success(ps) =>
        if NamesImage(last) then WithPlatform(ps, last, ByDigest(reg, repo, last.digest)) else Success(ps)
  }

  function ByTag(reg: Registry, repo: string, tag: string): Lookup<Image>
    requires reg.Valid()
  {
    if (repo, tag) !in reg.tags then Failure(TagNotFound(repo, tag))
    else
      match ByDigest(reg, repo, reg.tags[(repo, tag)])
      case Failure(e) => Failure(e)
      case Success(image) => Success(image.(tag := tag))
  }

  type Constraint = Option<PlatformConstraint>

  /** The platform filter, applied to what was found, cached or not. */
  function Constrained(pc: Constraint, image: Lookup<Image>): Lookup<Option<Image>>
  {
    match image
    case Failure(e) => Failure(e)
    case Success(image) =>
      match pc
      case None => Success(Some(image))
      case Some(pc) => Success(if exists p <- image.platforms :: pc.Matches(p) then Some(image) else None)
  }

  // ----- Cache keys

  function TagKey(repo: string, tag: string): string
  {
    repo + ":" + tag
  }

  predicate IsAlgorithm(s: string)
  {
    s == "sha256" || s == "sha512"
  }

  /** Lower-case hexadecimal digits, as many as the algorithm yields. */
  predicate IsChecksum(algorithm: string, s: string)
  {
    && |s| == (if algorithm == "sha256" then 64 else 128)
    && forall c <- s :: '0' <= c <= '9' || 'a' <= c <= 'f'
  }

  /** A digest is an algorithm and a checksum. */
  ghost predicate IsDigest(s: string)
  {
    exists algorithm, checksum ::
      IsAlgorithm(algorithm) && IsChecksum(algorithm, checksum) && s == TagKey(algorithm, checksum)
  }

  lemma {:induction false} LastColon(repo: string, tag: string)
    requires ':' !in tag
    ensures TagKey(repo, tag)[|repo|] == ':'
    ensures forall i :: |repo| < i < |TagKey(repo, tag)| ==> TagKey(repo, tag)[i] != ':'
  {
    forall i | |repo| < i < |TagKey(repo, tag)|
      ensures TagKey(repo, tag)[i] != ':'
    {
      assert TagKey(repo, tag)[i] == tag[i - |repo| - 1];
    }
  }

  /** A tag contains no colon, so its key tells repository and tag apart. */
  lemma {:induction false} TagKeyInjective(repo: string, tag: string, repo': string, tag': string)
    requires ':' !in tag && ':' !in tag' && TagKey(repo, tag) == TagKey(repo', tag')
    ensures repo == repo' && tag == tag'
  {
    LastColon(repo, tag);
    LastColon(repo', tag');
    var k := TagKey(repo, tag);
    assert repo == k[..|repo|] && repo' == k[..|repo'|];
    assert tag == k[|repo| + 1..] && tag' == k[|repo'| + 1..];
  }

  /** Tag keys and digest keys coincide exactly for a repository named like a
      digest algorithm and a tag that is a checksum of it. */
  lemma {:induction false} TagKeyIsDigestExactly(repo: string, tag: string)
    requires ':' !in tag
    ensures IsDigest(TagKey(repo, tag)) <==> IsAlgorithm(repo) && IsChecksum(repo, tag)
  {
    if IsDigest(TagKey(repo, tag)) {
      var algorithm, checksum :|
        IsAlgorithm(algorithm) && IsChecksum(algorithm, checksum) && TagKey(repo, tag) == TagKey(algorithm, checksum);
      TagKeyInjective(repo, tag, algorithm, checksum);
    }
  }

  // ----- Lookups through the cache

  /** One client of the shared cache. */
  datatype Client = Client(repo: string, cacheByTag: bool)

  type Entries = map<string, Image>

  /** A use of the cache. */
  datatype Use = Got(key: string, found: Option<Image>) | Put(key: string, image: Image) | Lost

  /** The contents of the cache, and all uses made of it by those that this model
      follows; which of these uses fail, and what everyone else makes of the
      contents before each of them. */
  datatype Store = Store(
    entries: Entries,
    log: seq<Use>,
    fails: nat -> bool,
    others: (nat, Entries) -> Entries)

  /** Nobody else uses the cache. */
  function Alone(n: nat, entries: Entries): Entries
  {
    entries
  }

  function Unused(fails: nat -> bool): Store
  {
    Store(map[], [], fails, Alone)
  }

  /** A read that fails is treated like a miss. */
  function Read(st: Store, key: string): (Option<Image>, Store)
  {
    var n := |st.log|;
    var entries := st.others(n, st.entries);
    var found := if key in entries && !st.fails(n) then Some(entries[key]) else None;
    (found, st.(entries := entries, log := st.log + [Got(key, found)]))
  }

  /** A write that fails is logged and otherwise ignored. */
  function Write(st: Store, key: string, image: Image): Store
  {
    var n := |st.log|;
    var entries := st.others(n, st.entries);
    if st.fails(n) then st.(entries := entries, log := st.log + [Lost])
    else st.(entries := entries[key := image], log := st.log + [Put(key, image)])
  }

  function CachedByDigest(reg: Registry, client: Client, digest: string, st: Store): (Lookup<Image>, Store)
    requires reg.Valid()
    decreases reg.Height(digest), 2, 0
  {
    var (found, read) := Read(st, digest);
    if found.Some? then (Success(found.value), read)
    else
      var (image, fetched) := Fetched(reg, client, digest, read);
      // A client that caches by tag leaves caching to its caller, to save space.
      (image, if image.Success? && !client.cacheByTag then Write(fetched, digest, image.value) else fetched)
  }

  function Fetched(reg: Registry, client: Client, digest: string, st: Store): (Lookup<Image>, Store)
    requires reg.Valid()
    decreases reg.Height(digest), 1, 0
  {
    if (client.repo, digest) !in reg.held then (Failure(DigestNotFound(digest)), st)
    else
      match reg.manifests[digest]
      case Single(claimed, labelled, configured) =>
        (Success(Image("", digest, CreationTime(claimed, labelled, configured), [])), st)
      case UnknownType => (Failure(UnknownArtifact(digest)), st)
      case Index(refs, claimed) =>
        var (ps, walked) := CachedPlatforms(reg, client, digest, refs, st);
        (IndexImage(digest, claimed, ps), walked)
  }

  function CachedPlatforms(
    reg: Registry, client: Client, digest: string, refs: seq<Ref>, st: Store): (Lookup<seq<Platform>>, Store)
    requires reg.Valid()
    requires forall r <- refs :: reg.Height(r.digest) < reg.Height(digest)
    decreases reg.Height(digest), 0, |refs|
  {
    if refs == [] then (Success([]), st)
    else
      var init, last := refs[..|refs| - 1], refs[|refs| - 1];
      var (ps, walked) := CachedPlatforms(reg, client, digest, init, st);
      if ps.Failure? || !NamesImage(last) then (ps, walked)
      else
        var (image, asked) := CachedByDigest(reg, client, last.digest, walked);
        (WithPlatform(ps.value, last, image), asked)
  }

  function CachedByTag(reg: Registry, client: Client, tag: string, st: Store): (Lookup<Image>, Store)
    requires reg.Valid()
  {
    var key := TagKey(client.repo, tag);
    var (found, read) := if client.cacheByTag then Read(st, key) else (None, st);
    if found.Some? then (Success(found.value), read)
    else if (client.repo, tag) !in reg.tags then (Failure(TagNotFound(client.repo, tag)), read)
    else
      var (image, fetched) := Fetched(reg, client, reg.tags[(client.repo, tag)], read);
      match image
      case Failure(e) => (Failure(e), fetched)
      case Success(image) =>
        var tagged := image.(tag := tag);
        (Success(tagged), if client.cacheByTag then Write(fetched, key, tagged) else fetched)
  }

  class Cache {
    var entries: Entries
    var log: seq<Use>
    const fails: nat -> bool
    const others: (nat, Entries) -> Entries

    constructor (fails: nat -> bool, others: (nat, Entries) -> Entries)
      ensures State() == Store(map[], [], fails, others)
    {
      entries, log, this.fails, this.others := map[], [], fails, others;
    }

    function State(): Store
      reads this
    {
      Store(entries, log, fails, others)
    }

    method Get(key: string) returns (image: Option<Image>)
      modifies this
      ensures (image, State()) == Read(old(State()), key)
    {
      entries := others(|log|, entries);
      image := if key in entries && !fails(|log|) then Some(entries[key]) else None;
      log := log + [Got(key, image)];
    }

    method Set(key: string, image: Image)
      modifies this
      ensures State() == Write(old(State()), key, image)
    {
      entries := others(|log|, entries);
      if fails(|log|) {
        log := log + [Lost];
      } else {
        entries := entries[key := image];
        log := log + [Put(key, image)];
      }
    }

    /** The cache may drop entries at any time. */
    method Evict(keys: set<string>)
      modifies this
      ensures State() == old(State()).(entries := old(entries) - keys)
    {
      entries := entries - keys;
    }
  }

  /** getImageByDigest. */
  method GetImageByDigest(reg: Registry, cache: Cache, client: Client, digest: string) returns (r: Lookup<Image>)
    requires reg.Valid()
    modifies cache
    ensures (r, cache.State()) == CachedByDigest(reg, client, digest, old(cache.State()))
    decreases reg.Height(digest), 2, 0
  {
    var found := cache.Get(digest);
    if found.Some? {
      return Success(found.value);
    }
    r := GetImageFromRemoteDesc(reg, cache, client, digest);
    if r.Success? && !client.cacheByTag {
      cache.Set(digest, r.value);
    }
  }

  /** remoteGet and getImageFromRemoteDesc. */
  method GetImageFromRemoteDesc(reg: Registry, cache: Cache, client: Client, digest: string)
    returns (r: Lookup<Image>)
    requires reg.Valid()
    modifies cache
    ensures (r, cache.State()) == Fetched(reg, client, digest, old(cache.State()))
    decreases reg.Height(digest), 1, 0
  {
    if (client.repo, digest) !in reg.held {
      return Failure(DigestNotFound(digest));
    }
    match reg.manifests[digest]
    case Index(refs, claimed) =>
      r := GetImageFromIndex(reg, cache, client, digest, refs, claimed);
    case Single(claimed, labelled, configured) =>
      r := Success(Image("", digest, CreationTime(claimed, labelled, configured), []));
    case UnknownType =>
      r := Failure(UnknownArtifact(digest));
  }

  /** getImageFromV1ImageIndex. */
  method GetImageFromIndex(
    reg: Registry, cache: Cache, client: Client, digest: string, refs: seq<Ref>, claimed: Option<Time>)
    returns (r: Lookup<Image>)
    requires reg.Valid()
    requires (client.repo, digest) in reg.held && reg.manifests[digest] == Index(refs, claimed)
    modifies cache
    ensures (r, cache.State()) == Fetched(reg, client, digest, old(cache.State()))
    decreases reg.Height(digest), 0, 0
  {
    var newestRefCreatedAt: Option<Time> := None;
    var platforms: seq<Platform> := [];
    for i := 0 to |refs|
      invariant CachedPlatforms(reg, client, digest, refs[..i], old(cache.State())) ==
        (Success(platforms), cache.State())
      invariant newestRefCreatedAt == if platforms == [] then None else Some(Latest(platforms))
    {
      var ref := refs[i];
      assert ref in refs;
      assert refs[..i + 1][..i] == refs[..i];
      if !NamesImage(ref) {
        continue;
      }
      ghost var before := cache.State();
      var image := GetImageByDigest(reg, cache, client, ref.digest);
      if image.Failure? {
        WalkFails(reg, client, digest, refs, i, old(cache.State()), cache.State(), image.error);
        return Failure(image.error);
      }
      var refCreatedAt := match ref.claimed case Some(t) => t case None => image.value.createdAt;
      if newestRefCreatedAt.None? || refCreatedAt > newestRefCreatedAt.value {
        newestRefCreatedAt := Some(refCreatedAt);
      }
      LatestNext(platforms, Platform(ref.os, ref.arch, ref.variant, refCreatedAt));
      platforms := platforms + [Platform(ref.os, ref.arch, ref.variant, refCreatedAt)];
    }
    assert refs[..|refs|] == refs;
    if |platforms| == 0 {
      return Failure(EmptyIndex(digest));
    }
    var createdAt := match claimed case Some(t) => t case None => newestRefCreatedAt.value;
    r := Success(Image("", digest, createdAt, platforms));
  }

  lemma {:induction false} LatestNext(ps: seq<Platform>, p: Platform)
    ensures Latest(ps + [p]) == if ps == [] || p.createdAt > Latest(ps) then p.createdAt else Latest(ps)
  {
    assert (ps + [p])[..|ps|] == ps;
  }

  /** An error at one reference is the error of the index. */
  lemma {:induction false} WalkFails(
    reg: Registry, client: Client, digest: string, refs: seq<Ref>, i: nat, st: Store, end: Store, e: LookupError)
    requires reg.Valid() && i < |refs|
    requires forall r <- refs :: reg.Height(r.digest) < reg.Height(digest)
    requires CachedPlatforms(reg, client, digest, refs[..i + 1], st) == (Failure(e), end)
    ensures CachedPlatforms(reg, client, digest, refs, st) == (Failure(e), end)
    decreases |refs|
  {
    if i == |refs| - 1 {
      assert refs[..i + 1] == refs;
    } else {
      assert refs[..|refs| - 1][..i + 1] == refs[..i + 1];
      WalkFails(reg, client, digest, refs[..|refs| - 1], i, st, end, e);
    }
  }

  /** getImageByTag. */
  method GetImageByTag(reg: Registry, cache: Cache, client: Client, tag: string, pc: Constraint)
    returns (r: Lookup<Option<Image>>)
    requires reg.Valid()
    modifies cache
    ensures
      var (image, end) := CachedByTag(reg, client, tag, old(cache.State()));
      r == Constrained(pc, image) && cache.State() == end
  {
    var cacheKey := TagKey(client.repo, tag);
    var found: Option<Image> := None;
    if client.cacheByTag {
      found := cache.Get(cacheKey);
    }
    if found.None? {
      if (client.repo, tag) !in reg.tags {
        return Failure(TagNotFound(client.repo, tag));
      }
      var fetched := GetImageFromRemoteDesc(reg, cache, client, reg.tags[(client.repo, tag)]);
      if fetched.Failure? {
        return Failure(fetched.error);
      }
      var image := fetched.value.(tag := tag);
      if client.cacheByTag {
        cache.Set(cacheKey, image);
      }
      found := Some(image);
    }
    if pc.None? {
      return Success(found);
    }
    for i := 0 to |found.value.platforms|
      invariant forall k :: 0 <= k < i ==> !pc.value.Matches(found.value.platforms[k])
    {
      if pc.value.Matches(found.value.platforms[i]) {
        return Success(found);
      }
    }
    return Success(None);
  }

  // ----- Whole runs

  datatype Operation =
    | LookUpTag(client: Client, tag: string, pc: Constraint)
    | LookUpDigest(client: Client, digest: string)
    | Evict(keys: set<string>)

  ghost predicate ValidOperation(op: Operation)
  {
    match op
    case LookUpTag(client, tag, _) => ':' !in tag && !IsDigest(TagKey(client.repo, tag))
    case LookUpDigest(_, digest) => IsDigest(digest)
    case Evict(_) => true
  }

  /** What an operation answers without a cache. */
  function Uncached(reg: Registry, op: Operation): Lookup<Option<Image>>
    requires reg.Valid()
  {
    match op
    case LookUpTag(client, tag, pc) => Constrained(pc, ByTag(reg, client.repo, tag))
    case LookUpDigest(client, digest) => Constrained(None, ByDigest(reg, client.repo, digest))
    case Evict(_) => Success(None)
  }

  function Cached(reg: Registry, op: Operation, st: Store): (Lookup<Option<Image>>, Store)
    requires reg.Valid()
  {
    match op
    case LookUpTag(client, tag, pc) =>
      var (image, end) := CachedByTag(reg, client, tag, st);
      (Constrained(pc, image), end)
    case LookUpDigest(client, digest) =>
      var (image, end) := CachedByDigest(reg, client, digest, st);
      (Constrained(None, image), end)
    case Evict(keys) => (Success(None), st.(entries := st.entries - keys))
  }

  /** The state of the cache after a run of operations. */
  function After(reg: Registry, ops: seq<Operation>, fails: nat -> bool): Store
    requires reg.Valid()
  {
    if ops == [] then Unused(fails)
    else Cached(reg, ops[|ops| - 1], After(reg, ops[..|ops| - 1], fails)).1
  }

  /** The answer to the k-th operation of a run. */
  function Answer(reg: Registry, ops: seq<Operation>, fails: nat -> bool, k: nat): Lookup<Option<Image>>
    requires reg.Valid() && k < |ops|
  {
    Cached(reg, ops[k], After(reg, ops[..k], fails)).0
  }

  method Perform(reg: Registry, cache: Cache, op: Operation) returns (answer: Lookup<Option<Image>>)
    requires reg.Valid()
    modifies cache
    ensures (answer, cache.State()) == Cached(reg, op, old(cache.State()))
  {
    match op
    case LookUpTag(client, tag, pc) =>
      answer := GetImageByTag(reg, cache, client, tag, pc);
    case LookUpDigest(client, digest) =>
      var image := GetImageByDigest(reg, cache, client, digest);
      answer := Constrained(None, image);
    case Evict(keys) =>
      cache.Evict(keys);
      answer := Success(None);
  }

  lemma {:induction false} AfterNext(reg: Registry, ops: seq<Operation>, fails: nat -> bool, i: nat)
    requires reg.Valid() && i < |ops|
    ensures Cached(reg, ops[i], After(reg, ops[..i], fails)) == (Answer(reg, ops, fails, i), After(reg, ops[..i + 1], fails))
  {
    assert ops[..i + 1][..i] == ops[..i];
  }

  /** A run of operations through one cache. */
  method LookUpAll(reg: Registry, ops: seq<Operation>, fails: nat -> bool)
    returns (answers: seq<Lookup<Option<Image>>>)
    requires reg.Valid()
    ensures |answers| == |ops|
    ensures forall k :: 0 <= k < |ops| ==> answers[k] == Answer(reg, ops, fails, k)
  {
    var cache := new Cache(fails, Alone);
    answers := [];
    for i := 0 to |ops|
      invariant fresh(cache) && cache.State() == After(reg, ops[..i], fails)
      invariant |answers| == i
      invariant forall k :: 0 <= k < i ==> answers[k] == Answer(reg, ops, fails, k)
    {
      AfterNext(reg, ops, fails, i);
      var answer := Perform(reg, cache, ops[i]);
      answers := answers + [answer];
    }
  }

  // ----- What answers mean

  /** A platform filter spares an image exactly for one of its platforms. */
  lemma {:induction false} PlatformFilterExactly(reg: Registry, client: Client, tag: string, pc: Constraint, image: Image)
    requires reg.Valid()
    ensures
      var answer, found := Uncached(reg, LookUpTag(client, tag, pc)), ByTag(reg, client.repo, tag);
      && (answer == Success(Some(image)) <==>
            && found == Success(image)
            && (pc.None? || exists p <- image.platforms ::
                  p.os == pc.value.os && p.arch == pc.value.arch && p.variant == pc.value.variant))
      && (answer == Success(None) <==>
            && found.Success? && pc.Some?
            && forall p <- found.value.platforms ::
                 p.os != pc.value.os || p.arch != pc.value.arch || p.variant != pc.value.variant)
      && (forall e :: answer == Failure(e) <==> found == Failure(e))
  {
  }

  /** The reference is to an image for this platform. */
  predicate IsFor(r: Ref, os: string, arch: string, variant: string)
  {
    && r.os == os && r.arch == arch && r.variant == variant
    && os != "" && os != "unknown" && arch != "" && arch != "unknown"
  }

  lemma {:induction false} PlatformsAreReferences(
    reg: Registry, repo: string, digest: string, refs: seq<Ref>, os: string, arch: string, variant: string)
    requires reg.Valid()
    requires forall r <- refs :: reg.Height(r.digest) < reg.Height(digest)
    requires Platforms(reg, repo, digest, refs).Success?
    ensures
      (exists p <- Platforms(reg, repo, digest, refs).value :: p.os == os && p.arch == arch && p.variant == variant)
      <==> exists r <- refs :: IsFor(r, os, arch, variant)
    decreases |refs|
  {
    if refs != [] {
      var init, last := refs[..|refs| - 1], refs[|refs| - 1];
      PlatformsAreReferences(reg, repo, digest, init, os, arch, variant);
      assert refs == init + [last];
      var ps := Platforms(reg, repo, digest, init).value;
      if NamesImage(last) {
        var p := Platforms(reg, repo, digest, refs).value[|ps|];
        assert Platforms(reg, repo, digest, refs).value == ps + [p];
        assert p in ps + [p];
      }
    }
  }

  /** Under a constraint a tag's image is found exactly if the tag is that of an
      index with a reference to an image for the platform; other images have none. */
  lemma {:induction false} FoundForPlatformExactly(reg: Registry, client: Client, tag: string, pc: PlatformConstraint)
    requires reg.Valid() && ByTag(reg, client.repo, tag).Success?
    ensures
      var manifest := reg.manifests[reg.tags[(client.repo, tag)]];
      Uncached(reg, LookUpTag(client, tag, Some(pc))) != Success(None) <==>
        manifest.Index? && exists r <- manifest.refs :: IsFor(r, pc.os, pc.arch, pc.variant)
  {
    var repo, digest := client.repo, reg.tags[(client.repo, tag)];
    PlatformFilterExactly(reg, client, tag, Some(pc), ByTag(reg, repo, tag).value);
    if reg.manifests[digest].Index? {
      PlatformsAreReferences(reg, repo, digest, reg.manifests[digest].refs, pc.os, pc.arch, pc.variant);
    }
  }

  /** The later of two times, either of which may be unknown but not both. */
  ghost predicate Later(t: Time, a: Option<Time>, b: Time)
  {
    (t == b || a == Some(t)) && t >= b && (a.Some? ==> t >= a.value)
  }

  /** The time claimed for a reference's image, or else found for it. */
  ghost predicate CreatedAs(reg: Registry, repo: string, r: Ref, t: Time)
    requires reg.Valid()
  {
    match r.claimed
    case Some(c) => t == c
    case None => ByDigest(reg, repo, r.digest).Success? && t == ByDigest(reg, repo, r.digest).value.createdAt
  }

  ghost predicate NewestOfReferences(reg: Registry, repo: string, refs: seq<Ref>, t: Time)
    requires reg.Valid()
  {
    && (exists r <- refs :: IsFor(r, r.os, r.arch, r.variant) && CreatedAs(reg, repo, r, t))
    && (forall r, u | r in refs && IsFor(r, r.os, r.arch, r.variant) && CreatedAs(reg, repo, r, u) :: u <= t)
  }

  lemma {:induction false} LatestIsNewest(reg: Registry, repo: string, digest: string, refs: seq<Ref>)
    requires reg.Valid()
    requires forall r <- refs :: reg.Height(r.digest) < reg.Height(digest)
    requires Platforms(reg, repo, digest, refs).Success? && Platforms(reg, repo, digest, refs).value != []
    ensures NewestOfReferences(reg, repo, refs, Latest(Platforms(reg, repo, digest, refs).value))
    decreases |refs|
  {
    var init, last := refs[..|refs| - 1], refs[|refs| - 1];
    var before := Platforms(reg, repo, digest, init).value;
    assert refs == init + [last];
    if before != [] {
      LatestIsNewest(reg, repo, digest, init);
    } else {
      NoneNamed(reg, repo, digest, init);
    }
    if NamesImage(last) {
      var p := WithPlatform(before, last, ByDigest(reg, repo, last.digest)).value[|before|];
      LatestNext(before, p);
      assert CreatedAs(reg, repo, last, p.createdAt);
    }
  }

  lemma {:induction false} NoneNamed(reg: Registry, repo: string, digest: string, refs: seq<Ref>)
    requires reg.Valid()
    requires forall r <- refs :: reg.Height(r.digest) < reg.Height(digest)
    requires Platforms(reg, repo, digest, refs) == Success([])
    ensures forall r <- refs :: !IsFor(r, r.os, r.arch, r.variant)
    decreases |refs|
  {
    if refs != [] {
      NoneNamed(reg, repo, digest, refs[..|refs| - 1]);
      assert refs == refs[..|refs| - 1] + [refs[|refs| - 1]];
    }
  }

  /** An image's creation time is that claimed in its annotations. Failing that it
      is, for an index, the newest of the images it names and, for any other, the
      later of what its labels and its config say. */
  lemma {:induction false} CreatedExactly(reg: Registry, repo: string, digest: string)
    requires reg.Valid() && ByDigest(reg, repo, digest).Success?
    ensures
      var t := ByDigest(reg, repo, digest).value.createdAt;
      match reg.manifests[digest]
      case Single(claimed, labelled, configured) =>
        if claimed.Some? then t == claimed.value else Later(t, labelled, configured)
      case Index(refs, claimed) =>
        if claimed.Some? then t == claimed.value else NewestOfReferences(reg, repo, refs, t)
      case UnknownType => false
  {
    if reg.manifests[digest].Index? {
      LatestIsNewest(reg, repo, digest, reg.manifests[digest].refs);
    }
  }

  // ----- What lookups ask for

  /** The digests that an uncached lookup of a digest asks the repository for. */
  function Asked(reg: Registry, repo: string, digest: string): set<string>
    requires reg.Valid()
    decreases reg.Height(digest), 2, 0
  {
    {digest} + Below(reg, repo, digest)
  }

  function Below(reg: Registry, repo: string, digest: string): set<string>
    requires reg.Valid()
    decreases reg.Height(digest), 1, 0
  {
    if (repo, digest) in reg.held && reg.manifests[digest].Index? then
      AskedRefs(reg, repo, digest, reg.manifests[digest].refs)
    else {}
  }

  /** References are followed in order until one fails. */
  function AskedRefs(reg: Registry, repo: string, digest: string, refs: seq<Ref>): set<string>
    requires reg.Valid()
    requires forall r <- refs :: reg.Height(r.digest) < reg.Height(digest)
    decreases reg.Height(digest), 0, |refs|
  {
    if refs == [] then {}
    else
      var init, last := refs[..|refs| - 1], refs[|refs| - 1];
      AskedRefs(reg, repo, digest, init)
      + if Platforms(reg, repo, digest, init).Success? && NamesImage(last) then Asked(reg, repo, last.digest) else {}
  }

  function OpAsks(reg: Registry, op: Operation): set<string>
    requires reg.Valid()
  {
    match op
    case LookUpTag(client, tag, _) =>
      if (client.repo, tag) in reg.tags then Below(reg, client.repo, reg.tags[(client.repo, tag)]) else {}
    case LookUpDigest(client, digest) => Asked(reg, client.repo, digest)
    case Evict(_) => {}
  }

  /** The operation asks for the digest, finds the image, and may cache it. */
  ghost predicate Lends(reg: Registry, op: Operation, digest: string)
    requires reg.Valid()
  {
    && !op.Evict? && !op.client.cacheByTag
    && digest in OpAsks(reg, op) && ByDigest(reg, op.client.repo, digest).Success?
  }

  /** The operation asks for the digest, which its repository does not hold. */
  ghost predicate Lacks(reg: Registry, op: Operation, digest: string)
    requires reg.Valid()
  {
    !op.Evict? && digest in OpAsks(reg, op) && (op.client.repo, digest) !in reg.held
  }

  /** No operation lacks a digest that another lends. */
  ghost predicate Shareable(reg: Registry, pool: seq<Operation>)
    requires reg.Valid()
  {
    forall a, b, digest :: a in pool && b in pool && Lends(reg, a, digest) ==> !Lacks(reg, b, digest)
  }

  /** Whatever is asked for, so is all that it asks for. */
  lemma {:induction false} AskedClosed(reg: Registry, repo: string, digest: string, d: string)
    requires reg.Valid() && d in Asked(reg, repo, digest)
    ensures Asked(reg, repo, d) <= Asked(reg, repo, digest)
    decreases reg.Height(digest), 2, 0
  {
    if d != digest {
      BelowClosed(reg, repo, digest, d);
    }
  }

  lemma {:induction false} BelowClosed(reg: Registry, repo: string, digest: string, d: string)
    requires reg.Valid() && d in Below(reg, repo, digest)
    ensures Asked(reg, repo, d) <= Below(reg, repo, digest)
    decreases reg.Height(digest), 1, 0
  {
    RefsClosed(reg, repo, digest, reg.manifests[digest].refs, d);
  }

  lemma {:induction false} RefsClosed(reg: Registry, repo: string, digest: string, refs: seq<Ref>, d: string)
    requires reg.Valid()
    requires forall r <- refs :: reg.Height(r.digest) < reg.Height(digest)
    requires d in AskedRefs(reg, repo, digest, refs)
    ensures Asked(reg, repo, d) <= AskedRefs(reg, repo, digest, refs)
    decreases reg.Height(digest), 0, |refs|
  {
    var init, last := refs[..|refs| - 1], refs[|refs| - 1];
    if d in AskedRefs(reg, repo, digest, init) {
      RefsClosed(reg, repo, digest, init, d);
    } else {
      AskedClosed(reg, repo, last.digest, d);
    }
  }

  lemma {:induction false} OpClosed(reg: Registry, op: Operation, d: string)
    requires reg.Valid() && !op.Evict? && d in OpAsks(reg, op)
    ensures Asked(reg, op.client.repo, d) <= OpAsks(reg, op)
  {
    match op
    case LookUpTag(client, tag, _) => BelowClosed(reg, client.repo, reg.tags[(client.repo, tag)], d);
    case LookUpDigest(client, digest) => AskedClosed(reg, client.repo, digest, d);
  }

  // ----- Repositories that find an image find the same

  lemma {:induction false} SameImage(reg: Registry, a: string, b: string, digest: string)
    requires reg.Valid() && ByDigest(reg, a, digest).Success? && ByDigest(reg, b, digest).Success?
    ensures ByDigest(reg, a, digest) == ByDigest(reg, b, digest)
    decreases reg.Height(digest), 1, 0
  {
    if reg.manifests[digest].Index? {
      SamePlatforms(reg, a, b, digest, reg.manifests[digest].refs);
    }
  }

  lemma {:induction false} SamePlatforms(reg: Registry, a: string, b: string, digest: string, refs: seq<Ref>)
    requires reg.Valid()
    requires forall r <- refs :: reg.Height(r.digest) < reg.Height(digest)
    requires Platforms(reg, a, digest, refs).Success? && Platforms(reg, b, digest, refs).Success?
    ensures Platforms(reg, a, digest, refs) == Platforms(reg, b, digest, refs)
    decreases reg.Height(digest), 0, |refs|
  {
    if refs != [] {
      var init, last := refs[..|refs| - 1], refs[|refs| - 1];
      SamePlatforms(reg, a, b, digest, init);
      if NamesImage(last) {
        SameImage(reg, a, b, last.digest);
      }
    }
  }

  /** If one repository finds the image and another does not, that is for want of a
      digest that both lookups ask for, and that the one finds. */
  lemma {:induction false} MissingDigest(reg: Registry, a: string, b: string, digest: string) returns (y: string)
    requires reg.Valid() && ByDigest(reg, a, digest).Success? && ByDigest(reg, b, digest).Failure?
    ensures y in Asked(reg, a, digest) && ByDigest(reg, a, y).Success?
    ensures y in Asked(reg, b, digest) && (b, y) !in reg.held
    decreases reg.Height(digest), 1, 0
  {
    if (b, digest) !in reg.held {
      y := digest;
    } else {
      var refs := reg.manifests[digest].refs;
      if Platforms(reg, b, digest, refs).Success? {
        SamePlatforms(reg, a, b, digest, refs);
      }
      y := MissingRef(reg, a, b, digest, refs);
    }
  }

  lemma {:induction false} MissingRef(reg: Registry, a: string, b: string, digest: string, refs: seq<Ref>)
    returns (y: string)
    requires reg.Valid()
    requires forall r <- refs :: reg.Height(r.digest) < reg.Height(digest)
    requires Platforms(reg, a, digest, refs).Success? && Platforms(reg, b, digest, refs).Failure?
    ensures y in AskedRefs(reg, a, digest, refs) && ByDigest(reg, a, y).Success?
    ensures y in AskedRefs(reg, b, digest, refs) && (b, y) !in reg.held
    decreases reg.Height(digest), 0, |refs|
  {
    var init, last := refs[..|refs| - 1], refs[|refs| - 1];
    if Platforms(reg, b, digest, init).Failure? {
      y := MissingRef(reg, a, b, digest, init);
    } else {
      y := MissingDigest(reg, a, b, last.digest);
    }
  }

  // ----- What lookups do to the cache

  function Effect(entries: Entries, use: Use): Entries
  {
    if use.Put? then entries[use.key := use.image] else entries
  }

  function Effects(entries: Entries, uses: seq<Use>): Entries
  {
    if uses == [] then entries else Effect(Effects(entries, uses[..|uses| - 1]), uses[|uses| - 1])
  }

  predicate Reads(entries: Entries, use: Use)
  {
    use.Got? && use.found.Some? ==> use.key in entries && entries[use.key] == use.found.value
  }

  /** What the uses found was there when they found it. */
  predicate Truthful(entries: Entries, uses: seq<Use>)
  {
    forall k :: 0 <= k < |uses| ==> Reads(Effects(entries, uses[..k]), uses[k])
  }

  lemma {:induction false} EffectsTogether(entries: Entries, a: seq<Use>, b: seq<Use>)
    ensures Effects(Effects(entries, a), b) == Effects(entries, a + b)
    decreases |b|
  {
    if b == [] {
      assert a + b == a;
    } else {
      EffectsTogether(entries, a, b[..|b| - 1]);
      assert (a + b)[..|a + b| - 1] == a + b[..|b| - 1];
    }
  }

  lemma {:induction false} TruthfulTogether(entries: Entries, a: seq<Use>, b: seq<Use>)
    requires Truthful(entries, a) && Truthful(Effects(entries, a), b)
    ensures Truthful(entries, a + b)
  {
    forall k | 0 <= k < |a + b|
      ensures Reads(Effects(entries, (a + b)[..k]), (a + b)[k])
    {
      if k < |a| {
        assert (a + b)[..k] == a[..k];
      } else {
        assert (a + b)[..k] == a + b[..k - |a|];
        EffectsTogether(entries, a, b[..k - |a|]);
      }
    }
  }

  /** One state follows another by the uses logged in between; if nobody else uses
      the cache, they account for its contents. */
  ghost predicate Continues(st: Store, uses: seq<Use>, end: Store)
  {
    && end.log == st.log + uses && end.fails == st.fails && end.others == st.others
    && (st.others == Alone ==> end.entries == Effects(st.entries, uses) && Truthful(st.entries, uses))
  }

  lemma {:induction false} ContinuesOn(st: Store, a: seq<Use>, mid: Store, b: seq<Use>, end: Store)
    requires Continues(st, a, mid) && Continues(mid, b, end)
    ensures Continues(st, a + b, end)
  {
    EffectsTogether(st.entries, a, b);
    if st.others == Alone {
      TruthfulTogether(st.entries, a, b);
    }
  }

  lemma {:induction false} OneUse(st: Store, use: Use, end: Store)
    requires end == st.(entries := Effect(st.others(|st.log|, st.entries), use), log := st.log + [use])
    requires Reads(st.others(|st.log|, st.entries), use)
    ensures Continues(st, [use], end)
  {
    assert [use][..0] == [];
  }

  lemma {:induction false} NoUse(st: Store)
    ensures Continues(st, [], st)
  {
  }

  lemma {:induction false} DigestContinues(reg: Registry, client: Client, digest: string, st: Store)
    returns (uses: seq<Use>)
    requires reg.Valid()
    ensures Continues(st, uses, CachedByDigest(reg, client, digest, st).1)
    decreases reg.Height(digest), 2, 0
  {
    var (found, read) := Read(st, digest);
    uses := [Got(digest, found)];
    OneUse(st, Got(digest, found), read);
    if found.None? {
      var fetching := FetchContinues(reg, client, digest, read);
      var (image, fetched) := Fetched(reg, client, digest, read);
      ContinuesOn(st, uses, read, fetching, fetched);
      uses := uses + fetching;
      if image.Success? && !client.cacheByTag {
        var written := Write(fetched, digest, image.value);
        var use := written.log[|fetched.log|];
        OneUse(fetched, use, written);
        ContinuesOn(st, uses, fetched, [use], written);
        uses := uses + [use];
      }
    }
  }

  lemma {:induction false} FetchContinues(reg: Registry, client: Client, digest: string, st: Store)
    returns (uses: seq<Use>)
    requires reg.Valid()
    ensures Continues(st, uses, Fetched(reg, client, digest, st).1)
    decreases reg.Height(digest), 1, 0
  {
    uses := [];
    NoUse(st);
    if (client.repo, digest) in reg.held && reg.manifests[digest].Index? {
      uses := WalkContinues(reg, client, digest, reg.manifests[digest].refs, st);
    }
  }

  lemma {:induction false} WalkContinues(reg: Registry, client: Client, digest: string, refs: seq<Ref>, st: Store)
    returns (uses: seq<Use>)
    requires reg.Valid()
    requires forall r <- refs :: reg.Height(r.digest) < reg.Height(digest)
    ensures Continues(st, uses, CachedPlatforms(reg, client, digest, refs, st).1)
    decreases reg.Height(digest), 0, |refs|
  {
    uses := [];
    NoUse(st);
    if refs != [] {
      var init, last := refs[..|refs| - 1], refs[|refs| - 1];
      uses := WalkContinues(reg, client, digest, init, st);
      var (ps, walked) := CachedPlatforms(reg, client, digest, init, st);
      if ps.Success? && NamesImage(last) {
        var asking := DigestContinues(reg, client, last.digest, walked);
        ContinuesOn(st, uses, walked, asking, CachedByDigest(reg, client, last.digest, walked).1);
        uses := uses + asking;
      }
    }
  }

  lemma {:induction false} TagContinues(reg: Registry, client: Client, tag: string, st: Store)
    returns (uses: seq<Use>)
    requires reg.Valid()
    ensures Continues(st, uses, CachedByTag(reg, client, tag, st).1)
  {
    var key := TagKey(client.repo, tag);
    var (found, read) := if client.cacheByTag then Read(st, key) else (None, st);
    uses := [];
    NoUse(st);
    if client.cacheByTag {
      uses := [Got(key, found)];
      OneUse(st, Got(key, found), read);
    }
    if found.None? && (client.repo, tag) in reg.tags {
      var digest := reg.tags[(client.repo, tag)];
      var fetching := FetchContinues(reg, client, digest, read);
      var (image, fetched) := Fetched(reg, client, digest, read);
      ContinuesOn(st, uses, read, fetching, fetched);
      uses := uses + fetching;
      if image.Success? && client.cacheByTag {
        var written := Write(fetched, key, image.value.(tag := tag));
        var use := written.log[|fetched.log|];
        OneUse(fetched, use, written);
        ContinuesOn(st, uses, fetched, [use], written);
        uses := uses + [use];
      }
    }
  }

  lemma {:induction false} OperationContinues(reg: Registry, op: Operation, st: Store) returns (uses: seq<Use>)
    requires reg.Valid() && !op.Evict?
    ensures Continues(st, uses, Cached(reg, op, st).1)
  {
    match op
    case LookUpTag(client, tag, _) => uses := TagContinues(reg, client, tag, st);
    case LookUpDigest(client, digest) => uses := DigestContinues(reg, client, digest, st);
  }

  // ----- Shareable lookups are transparent

  ghost predicate TagEntry(reg: Registry, key: string, image: Image)
    requires reg.Valid()
  {
    exists repo, tag :: ':' !in tag && key == TagKey(repo, tag) && ByTag(reg, repo, tag) == Success(image)
  }

  ghost predicate DigestEntry(reg: Registry, pool: seq<Operation>, key: string, image: Image)
    requires reg.Valid()
  {
    exists op :: op in pool && Lends(reg, op, key) && ByDigest(reg, op.client.repo, key) == Success(image)
  }

  /** One of the operations finds this image without a cache. */
  ghost predicate RightEntry(reg: Registry, pool: seq<Operation>, key: string, image: Image)
    requires reg.Valid()
  {
    if IsDigest(key) then DigestEntry(reg, pool, key, image) else TagEntry(reg, key, image)
  }

  ghost predicate RightUse(reg: Registry, pool: seq<Operation>, use: Use)
    requires reg.Valid()
  {
    match use
    case Got(key, Some(image)) => RightEntry(reg, pool, key, image)
    case Put(key, image) => RightEntry(reg, pool, key, image)
    case _ => true
  }

  ghost predicate AllRight(reg: Registry, pool: seq<Operation>, log: seq<Use>)
    requires reg.Valid()
  {
    forall use <- log :: RightUse(reg, pool, use)
  }

  /** The first wrong use is a read: it was others that went wrong. */
  ghost predicate MisledAt(reg: Registry, pool: seq<Operation>, log: seq<Use>, m: nat)
    requires reg.Valid()
  {
    m < |log| && AllRight(reg, pool, log[..m]) && log[m].Got? && !RightUse(reg, pool, log[m])
  }

  ghost predicate Misled(reg: Registry, pool: seq<Operation>, log: seq<Use>)
    requires reg.Valid()
  {
    exists m :: MisledAt(reg, pool, log, m)
  }

  lemma {:induction false} StaysMisled(reg: Registry, pool: seq<Operation>, log: seq<Use>, uses: seq<Use>)
    requires reg.Valid() && Misled(reg, pool, log)
    ensures Misled(reg, pool, log + uses)
  {
    var m: nat :| MisledAt(reg, pool, log, m);
    assert (log + uses)[..m] == log[..m];
    assert MisledAt(reg, pool, log + uses, m);
  }

  lemma {:induction false} MisledNow(reg: Registry, pool: seq<Operation>, log: seq<Use>, use: Use)
    requires reg.Valid() && AllRight(reg, pool, log) && use.Got? && !RightUse(reg, pool, use)
    ensures Misled(reg, pool, log + [use])
  {
    assert (log + [use])[..|log|] == log;
    assert MisledAt(reg, pool, log + [use], |log|);
  }

  /** Unless a lookup is misled, all it does is right, and so is its answer. */
  ghost predicate Faithful<T>(reg: Registry, pool: seq<Operation>, log: seq<Use>, answer: T, uncached: T)
    requires reg.Valid()
  {
    Misled(reg, pool, log) || (AllRight(reg, pool, log) && answer == uncached)
  }

  lemma {:induction false} HitIsRight(reg: Registry, pool: seq<Operation>, op: Operation, digest: string, image: Image)
    requires reg.Valid() && Shareable(reg, pool) && op in pool && !op.Evict?
    requires digest in OpAsks(reg, op) && DigestEntry(reg, pool, digest, image)
    ensures ByDigest(reg, op.client.repo, digest) == Success(image)
  {
    var lender :| lender in pool && Lends(reg, lender, digest)
      && ByDigest(reg, lender.client.repo, digest) == Success(image);
    var a, b := lender.client.repo, op.client.repo;
    if ByDigest(reg, b, digest).Success? {
      SameImage(reg, a, b, digest);
    } else {
      var y := MissingDigest(reg, a, b, digest);
      OpClosed(reg, lender, digest);
      OpClosed(reg, op, digest);
      assert Lends(reg, lender, y) && Lacks(reg, op, y);
    }
  }

  lemma {:induction false} DigestIsFaithful(
    reg: Registry, pool: seq<Operation>, op: Operation, digest: string, st: Store)
    requires reg.Valid() && Shareable(reg, pool) && op in pool && !op.Evict?
    requires AllRight(reg, pool, st.log) && IsDigest(digest) && digest in OpAsks(reg, op)
    ensures
      var (image, end) := CachedByDigest(reg, op.client, digest, st);
      Faithful(reg, pool, end.log, image, ByDigest(reg, op.client.repo, digest))
    decreases reg.Height(digest), 2, 0
  {
    var (found, read) := Read(st, digest);
    if found.Some? {
      if RightUse(reg, pool, Got(digest, found)) {
        HitIsRight(reg, pool, op, digest, found.value);
      } else {
        MisledNow(reg, pool, st.log, Got(digest, found));
      }
    } else {
      OpClosed(reg, op, digest);
      FetchIsFaithful(reg, pool, op, digest, read);
      var (image, fetched) := Fetched(reg, op.client, digest, read);
      if image.Success? && !op.client.cacheByTag {
        WriteIsFaithful(reg, pool, op, digest, image.value, fetched);
      }
    }
  }

  lemma {:induction false} WriteIsFaithful(
    reg: Registry, pool: seq<Operation>, op: Operation, digest: string, image: Image, st: Store)
    requires reg.Valid() && op in pool && !op.Evict? && !op.client.cacheByTag
    requires IsDigest(digest) && digest in OpAsks(reg, op)
    requires Misled(reg, pool, st.log)
      || (AllRight(reg, pool, st.log) && ByDigest(reg, op.client.repo, digest) == Success(image))
    ensures Misled(reg, pool, Write(st, digest, image).log)
      || (AllRight(reg, pool, Write(st, digest, image).log) && ByDigest(reg, op.client.repo, digest) == Success(image))
  {
    var use := Write(st, digest, image).log[|st.log|];
    if Misled(reg, pool, st.log) {
      StaysMisled(reg, pool, st.log, [use]);
    } else {
      assert Lends(reg, op, digest);
      assert DigestEntry(reg, pool, digest, image);
    }
  }

  lemma {:induction false} FetchIsFaithful(
    reg: Registry, pool: seq<Operation>, op: Operation, digest: string, st: Store)
    requires reg.Valid() && Shareable(reg, pool) && op in pool && !op.Evict?
    requires AllRight(reg, pool, st.log) && Below(reg, op.client.repo, digest) <= OpAsks(reg, op)
    ensures
      var (image, end) := Fetched(reg, op.client, digest, st);
      Faithful(reg, pool, end.log, image, ByDigest(reg, op.client.repo, digest))
    decreases reg.Height(digest), 1, 0
  {
    if (op.client.repo, digest) in reg.held && reg.manifests[digest].Index? {
      WalkIsFaithful(reg, pool, op, digest, reg.manifests[digest].refs, st);
    }
  }

  lemma {:induction false} WalkIsFaithful(
    reg: Registry, pool: seq<Operation>, op: Operation, digest: string, refs: seq<Ref>, st: Store)
    requires reg.Valid() && Shareable(reg, pool) && op in pool && !op.Evict?
    requires forall r <- refs :: IsDigest(r.digest) && reg.Height(r.digest) < reg.Height(digest)
    requires AllRight(reg, pool, st.log) && AskedRefs(reg, op.client.repo, digest, refs) <= OpAsks(reg, op)
    ensures
      var (ps, end) := CachedPlatforms(reg, op.client, digest, refs, st);
      Faithful(reg, pool, end.log, ps, Platforms(reg, op.client.repo, digest, refs))
    decreases reg.Height(digest), 0, |refs|
  {
    if refs != [] {
      var init, last := refs[..|refs| - 1], refs[|refs| - 1];
      WalkIsFaithful(reg, pool, op, digest, init, st);
      var (ps, walked) := CachedPlatforms(reg, op.client, digest, init, st);
      if ps.Success? && NamesImage(last) {
        if Misled(reg, pool, walked.log) {
          var uses := DigestContinues(reg, op.client, last.digest, walked);
          StaysMisled(reg, pool, walked.log, uses);
        } else {
          assert last.digest in Asked(reg, op.client.repo, last.digest);
          DigestIsFaithful(reg, pool, op, last.digest, walked);
        }
      }
    }
  }

  lemma {:induction false} TagHitIsRight(reg: Registry, repo: string, tag: string, image: Image)
    requires reg.Valid() && ':' !in tag && TagEntry(reg, TagKey(repo, tag), image)
    ensures ByTag(reg, repo, tag) == Success(image)
  {
    var repo', tag' :|
      ':' !in tag' && TagKey(repo, tag) == TagKey(repo', tag') && ByTag(reg, repo', tag') == Success(image);
    TagKeyInjective(repo, tag, repo', tag');
  }

  lemma {:induction false} TagWriteIsFaithful(
    reg: Registry, pool: seq<Operation>, repo: string, tag: string, image: Image, st: Store)
    requires reg.Valid() && ':' !in tag && !IsDigest(TagKey(repo, tag))
    requires Misled(reg, pool, st.log) || (AllRight(reg, pool, st.log) && ByTag(reg, repo, tag) == Success(image))
    ensures
      var end := Write(st, TagKey(repo, tag), image);
      Misled(reg, pool, end.log) || (AllRight(reg, pool, end.log) && ByTag(reg, repo, tag) == Success(image))
  {
    var use := Write(st, TagKey(repo, tag), image).log[|st.log|];
    if Misled(reg, pool, st.log) {
      StaysMisled(reg, pool, st.log, [use]);
    } else {
      assert TagEntry(reg, TagKey(repo, tag), image);
    }
  }

  lemma {:induction false} TagIsFaithful(reg: Registry, pool: seq<Operation>, op: Operation, st: Store)
    requires reg.Valid() && Shareable(reg, pool) && op in pool && op.LookUpTag? && ValidOperation(op)
    requires AllRight(reg, pool, st.log)
    ensures
      var (image, end) := CachedByTag(reg, op.client, op.tag, st);
      Faithful(reg, pool, end.log, image, ByTag(reg, op.client.repo, op.tag))
  {
    var repo, key := op.client.repo, TagKey(op.client.repo, op.tag);
    var (found, read) := if op.client.cacheByTag then Read(st, key) else (None, st);
    if found.Some? {
      if RightUse(reg, pool, Got(key, found)) {
        TagHitIsRight(reg, repo, op.tag, found.value);
      } else {
        MisledNow(reg, pool, st.log, Got(key, found));
      }
    } else if (repo, op.tag) in reg.tags {
      FetchIsFaithful(reg, pool, op, reg.tags[(repo, op.tag)], read);
      var (image, fetched) := Fetched(reg, op.client, reg.tags[(repo, op.tag)], read);
      if image.Success? && op.client.cacheByTag {
        TagWriteIsFaithful(reg, pool, repo, op.tag, image.value.(tag := op.tag), fetched);
      }
    }
  }

  lemma {:induction false} OperationIsFaithful(reg: Registry, pool: seq<Operation>, op: Operation, st: Store)
    requires reg.Valid() && Shareable(reg, pool) && op in pool && !op.Evict? && ValidOperation(op)
    requires AllRight(reg, pool, st.log)
    ensures Faithful(reg, pool, Cached(reg, op, st).1.log, Cached(reg, op, st).0, Uncached(reg, op))
  {
    match op
    case LookUpTag(_, _, _) => TagIsFaithful(reg, pool, op, st);
    case LookUpDigest(_, digest) => DigestIsFaithful(reg, pool, op, digest, st);
  }

  // ----- One after the other

  /** What the cache holds was found by one of the operations. */
  ghost predicate Right(reg: Registry, pool: seq<Operation>, entries: Entries)
    requires reg.Valid()
  {
    forall key <- entries :: RightEntry(reg, pool, key, entries[key])
  }

  lemma {:induction false} EffectsAreRight(reg: Registry, pool: seq<Operation>, entries: Entries, uses: seq<Use>)
    requires reg.Valid() && Right(reg, pool, entries) && AllRight(reg, pool, uses)
    ensures Right(reg, pool, Effects(entries, uses))
  {
    if uses != [] {
      var init, use := uses[..|uses| - 1], uses[|uses| - 1];
      assert use in uses && forall u <- init :: u in uses;
      EffectsAreRight(reg, pool, entries, init);
    }
  }

  lemma {:induction false} ReadIsRight(
    reg: Registry, pool: seq<Operation>, log: seq<Use>, entries: Entries, uses: seq<Use>, m: nat)
    requires reg.Valid() && Right(reg, pool, entries) && AllRight(reg, pool, log) && Truthful(entries, uses)
    requires m < |log + uses| && AllRight(reg, pool, (log + uses)[..m]) && (log + uses)[m].Got?
    ensures RightUse(reg, pool, (log + uses)[m])
  {
    if m < |log| {
      assert log[m] in log;
    } else {
      var k := m - |log|;
      assert (log + uses)[..m] == log + uses[..k];
      assert forall u <- uses[..k] :: u in log + uses[..k];
      EffectsAreRight(reg, pool, entries, uses[..k]);
      assert Reads(Effects(entries, uses[..k]), uses[k]);
    }
  }

  /** A lookup alone with a cache that is right is never misled. */
  lemma {:induction false} NotMisled(
    reg: Registry, pool: seq<Operation>, log: seq<Use>, entries: Entries, uses: seq<Use>)
    requires reg.Valid() && Right(reg, pool, entries) && AllRight(reg, pool, log) && Truthful(entries, uses)
    ensures !Misled(reg, pool, log + uses)
  {
    forall m: nat | m < |log + uses| && AllRight(reg, pool, (log + uses)[..m]) && (log + uses)[m].Got?
      ensures RightUse(reg, pool, (log + uses)[m])
    {
      ReadIsRight(reg, pool, log, entries, uses, m);
    }
  }

  ghost predicate DrawnFrom(ops: seq<Operation>, pool: seq<Operation>)
  {
    forall op <- ops :: op.Evict? || op in pool
  }

  ghost predicate Sound(reg: Registry, pool: seq<Operation>, st: Store)
    requires reg.Valid()
  {
    st.others == Alone && Right(reg, pool, st.entries) && AllRight(reg, pool, st.log)
  }

  lemma {:induction false} StepIsTransparent(reg: Registry, pool: seq<Operation>, op: Operation, st: Store)
    requires reg.Valid() && Shareable(reg, pool) && (op.Evict? || op in pool) && ValidOperation(op)
    requires Sound(reg, pool, st)
    ensures Cached(reg, op, st).0 == Uncached(reg, op) && Sound(reg, pool, Cached(reg, op, st).1)
  {
    if !op.Evict? {
      var uses := OperationContinues(reg, op, st);
      OperationIsFaithful(reg, pool, op, st);
      NotMisled(reg, pool, st.log, st.entries, uses);
      assert forall u <- uses :: u in st.log + uses;
      EffectsAreRight(reg, pool, st.entries, uses);
    }
  }

  lemma {:induction false} RunIsSound(reg: Registry, pool: seq<Operation>, ops: seq<Operation>, fails: nat -> bool)
    requires reg.Valid() && Shareable(reg, pool) && DrawnFrom(ops, pool)
    requires forall op <- pool :: ValidOperation(op)
    ensures Sound(reg, pool, After(reg, ops, fails))
  {
    if ops != [] {
      var n := |ops| - 1;
      assert forall op <- ops[..n] :: op in ops;
      RunIsSound(reg, pool, ops[..n], fails);
      assert ops[n] in ops;
      StepIsTransparent(reg, pool, ops[n], After(reg, ops[..n], fails));
    }
  }

  lemma {:induction false} AnswersAreUncached(
    reg: Registry, pool: seq<Operation>, ops: seq<Operation>, fails: nat -> bool, k: nat)
    requires reg.Valid() && Shareable(reg, pool) && DrawnFrom(ops, pool) && k < |ops|
    requires forall op <- pool :: ValidOperation(op)
    ensures Answer(reg, ops, fails, k) == Uncached(reg, ops[k])
  {
    assert forall op <- ops[..k] :: op in ops;
    RunIsSound(reg, pool, ops[..k], fails);
    assert ops[k] in ops;
    StepIsTransparent(reg, pool, ops[k], After(reg, ops[..k], fails));
  }

  // ----- Others are not

  /** All that an entry's lookup asks for is there too. */
  ghost predicate Full(reg: Registry, repo: string, st: Store)
    requires reg.Valid()
  {
    forall d <- st.entries :: Asked(reg, repo, d) <= st.entries.Keys && ByDigest(reg, repo, d) == Success(st.entries[d])
  }

  ghost predicate NeverFails(st: Store)
  {
    st.others == Alone && forall n :: !st.fails(n)
  }

  lemma {:induction false} AskedSucceed(reg: Registry, repo: string, digest: string, d: string)
    requires reg.Valid() && ByDigest(reg, repo, digest).Success? && d in Asked(reg, repo, digest)
    ensures ByDigest(reg, repo, d).Success?
    decreases reg.Height(digest), 1, 0
  {
    if d != digest {
      RefsSucceed(reg, repo, digest, reg.manifests[digest].refs, d);
    }
  }

  lemma {:induction false} RefsSucceed(reg: Registry, repo: string, digest: string, refs: seq<Ref>, d: string)
    requires reg.Valid()
    requires forall r <- refs :: reg.Height(r.digest) < reg.Height(digest)
    requires Platforms(reg, repo, digest, refs).Success? && d in AskedRefs(reg, repo, digest, refs)
    ensures ByDigest(reg, repo, d).Success?
    decreases reg.Height(digest), 0, |refs|
  {
    var init, last := refs[..|refs| - 1], refs[|refs| - 1];
    if d in AskedRefs(reg, repo, digest, init) {
      RefsSucceed(reg, repo, digest, init, d);
    } else {
      AskedSucceed(reg, repo, last.digest, d);
    }
  }

  /** The outcome of a lookup: everything it found is now there. */
  ghost predicate Fills(reg: Registry, repo: string, asked: set<string>, before: Store, after: Store)
    requires reg.Valid()
  {
    && Full(reg, repo, after) && after.fails == before.fails && after.others == before.others
    && before.entries.Keys <= after.entries.Keys
    && forall d <- asked :: ByDigest(reg, repo, d).Success? ==> d in after.entries
  }

  lemma {:induction false} DigestFills(reg: Registry, client: Client, digest: string, st: Store)
    requires reg.Valid() && !client.cacheByTag && Full(reg, client.repo, st) && NeverFails(st)
    ensures CachedByDigest(reg, client, digest, st).0 == ByDigest(reg, client.repo, digest)
    ensures
      Fills(reg, client.repo, Asked(reg, client.repo, digest), st, CachedByDigest(reg, client, digest, st).1)
    decreases reg.Height(digest), 2, 0
  {
    var (found, read) := Read(st, digest);
    if found.None? {
      FetchFills(reg, client, digest, read);
      var (image, fetched) := Fetched(reg, client, digest, read);
      if image.Success? {
        forall d <- Asked(reg, client.repo, digest)
          ensures ByDigest(reg, client.repo, d).Success?
        {
          AskedSucceed(reg, client.repo, digest, d);
        }
      }
    }
  }

  lemma {:induction false} FetchFills(reg: Registry, client: Client, digest: string, st: Store)
    requires reg.Valid() && !client.cacheByTag && Full(reg, client.repo, st) && NeverFails(st)
    ensures Fetched(reg, client, digest, st).0 == ByDigest(reg, client.repo, digest)
    ensures Fills(reg, client.repo, Below(reg, client.repo, digest), st, Fetched(reg, client, digest, st).1)
    decreases reg.Height(digest), 1, 0
  {
    if (client.repo, digest) in reg.held && reg.manifests[digest].Index? {
      WalkFills(reg, client, digest, reg.manifests[digest].refs, st);
    }
  }

  lemma {:induction false} WalkFills(reg: Registry, client: Client, digest: string, refs: seq<Ref>, st: Store)
    requires reg.Valid() && !client.cacheByTag && Full(reg, client.repo, st) && NeverFails(st)
    requires forall r <- refs :: reg.Height(r.digest) < reg.Height(digest)
    ensures CachedPlatforms(reg, client, digest, refs, st).0 == Platforms(reg, client.repo, digest, refs)
    ensures
      Fills(reg, client.repo, AskedRefs(reg, client.repo, digest, refs), st,
        CachedPlatforms(reg, client, digest, refs, st).1)
    decreases reg.Height(digest), 0, |refs|
  {
    if refs != [] {
      var init, last := refs[..|refs| - 1], refs[|refs| - 1];
      WalkFills(reg, client, digest, init, st);
      var (ps, walked) := CachedPlatforms(reg, client, digest, init, st);
      if ps.Success? && NamesImage(last) {
        DigestFills(reg, client, last.digest, walked);
      }
    }
  }

  /** A lookup that asks for a digest its repository lacks says so. */
  lemma {:induction false} LackFails(reg: Registry, repo: string, digest: string, y: string)
    requires reg.Valid() && y in Asked(reg, repo, digest) && (repo, y) !in reg.held
    ensures ByDigest(reg, repo, digest) == Failure(DigestNotFound(y))
    decreases reg.Height(digest), 1, 0
  {
    if y != digest {
      RefLackFails(reg, repo, digest, reg.manifests[digest].refs, y);
    }
  }

  lemma {:induction false} RefLackFails(reg: Registry, repo: string, digest: string, refs: seq<Ref>, y: string)
    requires reg.Valid()
    requires forall r <- refs :: reg.Height(r.digest) < reg.Height(digest)
    requires y in AskedRefs(reg, repo, digest, refs) && (repo, y) !in reg.held
    ensures Platforms(reg, repo, digest, refs) == Failure(DigestNotFound(y))
    decreases reg.Height(digest), 0, |refs|
  {
    var init, last := refs[..|refs| - 1], refs[|refs| - 1];
    if y in AskedRefs(reg, repo, digest, init) {
      RefLackFails(reg, repo, digest, init, y);
    } else {
      LackFails(reg, repo, last.digest, y);
    }
  }

  /** A lookup never says so of a digest that is in the cache. */
  lemma {:induction false} PresentNotMissed(reg: Registry, client: Client, digest: string, st: Store, y: string)
    requires reg.Valid() && NeverFails(st) && y in st.entries
    ensures CachedByDigest(reg, client, digest, st).0 != Failure(DigestNotFound(y))
    ensures
      var end := CachedByDigest(reg, client, digest, st).1;
      end.fails == st.fails && end.others == st.others && y in end.entries
    decreases reg.Height(digest), 2, 0
  {
    var (found, read) := Read(st, digest);
    if found.None? {
      FetchNotMissed(reg, client, digest, read, y);
    }
  }

  lemma {:induction false} FetchNotMissed(reg: Registry, client: Client, digest: string, st: Store, y: string)
    requires reg.Valid() && NeverFails(st) && y in st.entries
    ensures Fetched(reg, client, digest, st).0 == Failure(DigestNotFound(y)) ==>
      y == digest && (client.repo, y) !in reg.held
    ensures
      var end := Fetched(reg, client, digest, st).1;
      end.fails == st.fails && end.others == st.others && y in end.entries
    decreases reg.Height(digest), 1, 0
  {
    if (client.repo, digest) in reg.held && reg.manifests[digest].Index? {
      WalkNotMissed(reg, client, digest, reg.manifests[digest].refs, st, y);
    }
  }

  lemma {:induction false} WalkNotMissed(
    reg: Registry, client: Client, digest: string, refs: seq<Ref>, st: Store, y: string)
    requires reg.Valid() && NeverFails(st) && y in st.entries
    requires forall r <- refs :: reg.Height(r.digest) < reg.Height(digest)
    ensures CachedPlatforms(reg, client, digest, refs, st).0 != Failure(DigestNotFound(y))
    ensures
      var end := CachedPlatforms(reg, client, digest, refs, st).1;
      end.fails == st.fails && end.others == st.others && y in end.entries
    decreases reg.Height(digest), 0, |refs|
  {
    if refs != [] {
      var init, last := refs[..|refs| - 1], refs[|refs| - 1];
      WalkNotMissed(reg, client, digest, init, st, y);
      var (ps, walked) := CachedPlatforms(reg, client, digest, init, st);
      if ps.Success? && NamesImage(last) {
        PresentNotMissed(reg, client, last.digest, walked, y);
      }
    }
  }

  /** What a lookup lends is in the cache after it. */
  lemma {:induction false} LentIsThere(reg: Registry, a: Operation, y: string, st: Store)
    requires reg.Valid() && Lends(reg, a, y) && st.entries == map[] && NeverFails(st)
    ensures
      var end := Cached(reg, a, st).1;
      NeverFails(end) && y in end.entries
  {
    match a
    case LookUpTag(client, tag, _) => FetchFills(reg, client, reg.tags[(client.repo, tag)], st);
    case LookUpDigest(client, digest) => DigestFills(reg, client, digest, st);
  }

  /** After a lookup that lends a digest, one that lacks it answers wrongly. */
  lemma {:induction false} LentAnswersWrongly(reg: Registry, a: Operation, b: Operation, y: string)
    requires reg.Valid() && Lends(reg, a, y) && Lacks(reg, b, y)
    ensures Answer(reg, [a, b], n => false, 1) != Uncached(reg, b)
  {
    var st := Unused(n => false);
    assert [a, b][..1] == [a] && [a][..0] == [];
    assert After(reg, [a], n => false) == Cached(reg, a, st).1;
    LentIsThere(reg, a, y, st);
    LackingAnswersWrongly(reg, b, Cached(reg, a, st).1, y);
  }

  lemma {:induction false} LackingAnswersWrongly(reg: Registry, b: Operation, st: Store, y: string)
    requires reg.Valid() && NeverFails(st) && y in st.entries && Lacks(reg, b, y)
    ensures Cached(reg, b, st).0 != Uncached(reg, b)
  {
    match b
    case LookUpTag(client, tag, pc) =>
      var digest := reg.tags[(client.repo, tag)];
      LackFails(reg, client.repo, digest, y);
      var (found, read) := if client.cacheByTag then Read(st, TagKey(client.repo, tag)) else (None, st);
      if found.None? {
        FetchNotMissed(reg, client, digest, read, y);
      }
    case LookUpDigest(client, digest) =>
      LackFails(reg, client.repo, digest, y);
      PresentNotMissed(reg, client, digest, st, y);
  }

  // ----- The main result

  /** Every run of operations from the pool, with any evictions in between and any
      uses of the cache failing, answers as without a cache. */
  ghost predicate Transparent(reg: Registry, pool: seq<Operation>)
    requires reg.Valid()
  {
    forall ops, fails, k: nat | DrawnFrom(ops, pool) && k < |ops| ::
      Answer(reg, ops, fails, k) == Uncached(reg, ops[k])
  }

  /** The cache is transparent exactly if no lookup asks its repository in vain for
      a digest that a lookup by a client that does not cache by tag finds. */
  lemma {:induction false} TransparentExactly(reg: Registry, pool: seq<Operation>)
    requires reg.Valid() && forall op <- pool :: ValidOperation(op)
    ensures Transparent(reg, pool) <==> Shareable(reg, pool)
  {
    if Shareable(reg, pool) {
      forall ops, fails, k: nat | DrawnFrom(ops, pool) && k < |ops|
        ensures Answer(reg, ops, fails, k) == Uncached(reg, ops[k])
      {
        AnswersAreUncached(reg, pool, ops, fails, k);
      }
    } else {
      var a, b, y :| a in pool && b in pool && Lends(reg, a, y) && Lacks(reg, b, y);
      LentAnswersWrongly(reg, a, b, y);
      assert DrawnFrom([a, b], pool);
    }
  }

  /** Through a cache that lookups may share, every answer to a lookup by tag is the
      tag's image exactly if one of its platforms is the one asked for, if any. */
  lemma {:induction false} SharedAnswersExactly(
    reg: Registry, pool: seq<Operation>, ops: seq<Operation>, fails: nat -> bool, k: nat, image: Image)
    requires reg.Valid() && Shareable(reg, pool) && DrawnFrom(ops, pool) && forall op <- pool :: ValidOperation(op)
    requires k < |ops| && ops[k].LookUpTag?
    ensures
      var answer, pc := Answer(reg, ops, fails, k), ops[k].pc;
      var found := ByTag(reg, ops[k].client.repo, ops[k].tag);
      && (answer == Success(Some(image)) <==>
            && found == Success(image)
            && (pc.None? || exists p <- image.platforms ::
                  p.os == pc.value.os && p.arch == pc.value.arch && p.variant == pc.value.variant))
      && (answer == Success(None) <==>
            && found.Success? && pc.Some?
            && forall p <- found.value.platforms ::
                 p.os != pc.value.os || p.arch != pc.value.arch || p.variant != pc.value.variant)
  {
    AnswersAreUncached(reg, pool, ops, fails, k);
    PlatformFilterExactly(reg, ops[k].client, ops[k].tag, ops[k].pc, image);
  }

  /** The repository holds every image that its indexes name. */
  ghost predicate Complete(reg: Registry, repo: string)
    requires reg.Valid()
  {
    forall d <- reg.manifests :: (repo, d) in reg.held && reg.manifests[d].Index? ==>
      forall r <- reg.manifests[d].refs :: NamesImage(r) ==> (repo, r.digest) in reg.held
  }

  lemma {:induction false} CompleteAsksHeld(reg: Registry, repo: string, digest: string)
    requires reg.Valid() && Complete(reg, repo) && (repo, digest) in reg.held
    ensures forall d <- Asked(reg, repo, digest) :: (repo, d) in reg.held
    decreases reg.Height(digest), 1, 0
  {
    if reg.manifests[digest].Index? {
      CompleteRefsHeld(reg, repo, digest, reg.manifests[digest].refs);
    }
  }

  lemma {:induction false} CompleteRefsHeld(reg: Registry, repo: string, digest: string, refs: seq<Ref>)
    requires reg.Valid() && Complete(reg, repo)
    requires forall r <- refs :: reg.Height(r.digest) < reg.Height(digest)
    requires forall r <- refs :: NamesImage(r) ==> (repo, r.digest) in reg.held
    ensures forall d <- AskedRefs(reg, repo, digest, refs) :: (repo, d) in reg.held
    decreases reg.Height(digest), 0, |refs|
  {
    if refs != [] {
      var init, last := refs[..|refs| - 1], refs[|refs| - 1];
      CompleteRefsHeld(reg, repo, digest, init);
      if NamesImage(last) {
        CompleteAsksHeld(reg, repo, last.digest);
      }
    }
  }

  /** In particular it is transparent among clients of complete repositories that
      are asked for no digest they do not hold. */
  lemma {:induction false} CompleteRepositoriesShare(reg: Registry, pool: seq<Operation>)
    requires reg.Valid() && forall op <- pool :: ValidOperation(op)
    requires forall op <- pool :: !op.Evict? ==> Complete(reg, op.client.repo)
    requires forall op <- pool :: op.LookUpDigest? ==> (op.client.repo, op.digest) in reg.held
    ensures Transparent(reg, pool)
  {
    forall op, d | op in pool && !op.Evict? && d in OpAsks(reg, op)
      ensures (op.client.repo, d) in reg.held
    {
      match op
      case LookUpTag(client, tag, _) => CompleteAsksHeld(reg, client.repo, reg.tags[(client.repo, tag)]);
      case LookUpDigest(client, digest) => CompleteAsksHeld(reg, client.repo, digest);
    }
    TransparentExactly(reg, pool);
  }

  /** Not so for a sparse index: one repository tags an index without holding the
      image it names, which a client of another repository has looked up. */
  lemma {:induction false} SparseIndexDisagrees(
    child: string, index: string, lender: string, sparse: string, tag: string, at: Time)
    requires IsDigest(child) && IsDigest(index) && child != index && lender != sparse
    requires ':' !in tag && !IsDigest(TagKey(sparse, tag))
    ensures
      var reg := Registry(
        map[child := Single(None, None, at), index := Index([Ref(child, "linux", "amd64", "", None)], None)],
        map[child := 0, index := 1], {(lender, child), (sparse, index)}, map[(sparse, tag) := index]);
      var pool := [LookUpDigest(Client(lender, false), child), LookUpTag(Client(sparse, false), tag, None)];
      reg.Valid() && (forall op <- pool :: ValidOperation(op)) && !Transparent(reg, pool)
  {
    var refs := [Ref(child, "linux", "amd64", "", None)];
    var reg := Registry(
      map[child := Single(None, None, at), index := Index(refs, None)],
      map[child := 0, index := 1], {(lender, child), (sparse, index)}, map[(sparse, tag) := index]);
    var lends, lacks := LookUpDigest(Client(lender, false), child), LookUpTag(Client(sparse, false), tag, None);
    var pool := [lends, lacks];
    assert refs[..0] == [] && NamesImage(refs[0]);
    assert child in AskedRefs(reg, sparse, index, refs);
    assert lends in pool && lacks in pool && Lends(reg, lends, child) && Lacks(reg, lacks, child);
    TransparentExactly(reg, pool);
  }
}
