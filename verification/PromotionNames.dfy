/** Generated Promotion names (pkg/api/promotion.go, pkg/api/promotion_request.go):
    <prefix>.<ulid>.<short-hash>, lower-cased. A ULID is a 128-bit number, larger
    for a later creation, written as 26 digits in Crockford's base 32. */
module PromotionNames {
  import opened Strings

  const SEPARATOR := "."
  const SHORT_HASH_LENGTH := 7
  const ULID_LENGTH := 26
  const MAX_PREFIX := 253 - 1 - ULID_LENGTH - 1 - SHORT_HASH_LENGTH
  const ALPHABET := "0123456789ABCDEFGHJKMNPQRSTVWXYZ"

  type Ulid = n: nat | n < 0x1_0000_0000_0000_0000_0000_0000_0000_0000

  /** The k least significant base-32 digits of n, most significant first. */
  function Digits(n: nat, k: nat): (r: string)
    ensures |r| == k
    ensures forall c <- r :: c in ALPHABET
  {
    if k == 0 then "" else Digits(n / 32, k - 1) + [ALPHABET[n % 32]]
  }

  function Lower(c: char): char
  {
    if 'A' <= c <= 'Z' then (c as int + 32) as char else c
  }

  function ToLower(s: string): (r: string)
    ensures |r| == |s|
    ensures forall i :: 0 <= i < |s| ==> r[i] == Lower(s[i])
  {
    seq(|s|, i requires 0 <= i < |s| => Lower(s[i]))
  }

  lemma {:induction false} ToLowerConcat(a: string, b: string)
    ensures ToLower(a + b) == ToLower(a) + ToLower(b)
  {
  }

  function EncodeUlid(u: Ulid): (r: string)
    ensures |r| == ULID_LENGTH
    ensures forall i :: 0 <= i < |r| ==> r[i] in ALPHABET
  {
    Digits(u, ULID_LENGTH)
  }

  /** strings.TrimRight with the cutset ".-". */
  function TrimRight(s: string): (r: string)
    ensures r <= s
    ensures r != "" ==> r[|r| - 1] != '.' && r[|r| - 1] != '-'
    ensures forall i :: |r| <= i < |s| ==> s[i] == '.' || s[i] == '-'
  {
    if s == "" || (s[|s| - 1] != '.' && s[|s| - 1] != '-') then s else TrimRight(s[..|s| - 1])
  }

  function Shorten(prefix: string): string
  {
    if |prefix| > MAX_PREFIX then TrimRight(prefix[..MAX_PREFIX]) else prefix
  }

  function ShortHash(freight: string): string
  {
    if |freight| > SHORT_HASH_LENGTH then freight[..SHORT_HASH_LENGTH] else freight
  }

  /** generatePromotionStyleName; the ULID is what ulid.Make returned. */
  function StyleName(prefix: string, u: Ulid, freight: string): string
  {
    if prefix == "" || freight == "" then ""
    else ToLower(Join([Shorten(prefix), EncodeUlid(u), ShortHash(freight)], SEPARATOR))
  }

  /** GenerateChildPromotionName. */
  function ChildName(stage: string, target: string, u: Ulid, freight: string): string
  {
    if stage == "" || target == "" then "" else StyleName(stage + SEPARATOR + target, u, freight)
  }

  // ----- The order of digits

  function Power(k: nat): nat
  {
    if k == 0 then 1 else 32 * Power(k - 1)
  }

  lemma {:induction false} AlphabetAscends(a: nat, b: nat)
    requires a < b < 32
    ensures Lower(ALPHABET[a]) < Lower(ALPHABET[b])
    decreases b - a
  {
    AlphabetStep(a);
    if a + 1 < b {
      AlphabetAscends(a + 1, b);
    }
  }

  lemma {:induction false} AlphabetStep(a: nat)
    requires a < 31
    ensures Lower(ALPHABET[a]) < Lower(ALPHABET[a + 1])
  {
  }

  /** Numeric order is the lexical order of the digits. */
  lemma {:induction false} DigitsAscend(m: nat, n: nat, k: nat)
    requires m < n < Power(k)
    ensures Compare(ToLower(Digits(m, k)), ToLower(Digits(n, k))) < 0
  {
    if k > 0 {
      var dm, dn := ToLower(Digits(m / 32, k - 1)), ToLower(Digits(n / 32, k - 1));
      var lm, ln := [Lower(ALPHABET[m % 32])], [Lower(ALPHABET[n % 32])];
      assert ToLower(Digits(m, k)) == dm + lm && ToLower(Digits(n, k)) == dn + ln;
      if m / 32 == n / 32 {
        CompareCommonPrefix(dm, lm, ln);
        AlphabetAscends(m % 32, n % 32);
      } else {
        DigitsAscend(m / 32, n / 32, k - 1);
        CompareIgnoresTail(dm, dn, lm, ln);
      }
    }
  }

  lemma {:induction false} UlidsFit(u: Ulid)
    ensures u < Power(ULID_LENGTH)
  {
    assert Power(5) == 0x200_0000;
    assert Power(10) == 0x4_0000_0000_0000;
    assert Power(15) == 0x800_0000_0000_0000_0000;
    assert Power(20) == 0x10_0000_0000_0000_0000_0000_0000;
    assert Power(25) == 0x2000_0000_0000_0000_0000_0000_0000_0000;
  }

  // ----- The order of names

  function Normal(prefix: string): string
  {
    ToLower(Shorten(prefix))
  }

  /** The digits of a ULID as they appear in a name. */
  function UlidText(u: Ulid): (r: string)
    ensures |r| == ULID_LENGTH
    ensures forall i :: 0 <= i < |r| ==> r[i] != '.'
  {
    assert '.' !in ALPHABET;
    ToLower(EncodeUlid(u))
  }

  lemma {:induction false} NameParts(prefix: string, u: Ulid, freight: string)
    requires prefix != "" && freight != ""
    ensures StyleName(prefix, u, freight) ==
      (Normal(prefix) + ".") + (UlidText(u) + ("." + ToLower(ShortHash(freight))))
  {
    var p, e, h := Shorten(prefix), EncodeUlid(u), ShortHash(freight);
    assert Join([p, e, h], SEPARATOR) == p + SEPARATOR + (e + SEPARATOR + h) by {
      assert [p, e, h][1..] == [e, h] && [e, h][1..] == [h];
      assert Join([e, h], SEPARATOR) == e + SEPARATOR + h;
    }
    ToLowerConcat(p + SEPARATOR, e + SEPARATOR + h);
    ToLowerConcat(p, SEPARATOR);
    ToLowerConcat(e + SEPARATOR, h);
    ToLowerConcat(e, SEPARATOR);
    assert ToLower(SEPARATOR) == ".";
    assert UlidText(u) + "." + ToLower(h) == UlidText(u) + ("." + ToLower(h));
  }

  /** A generated name fits Kubernetes' limit. */
  lemma {:induction false} NamesFit(prefix: string, u: Ulid, freight: string)
    ensures |StyleName(prefix, u, freight)| <= 253
  {
    if prefix != "" && freight != "" {
      NameParts(prefix, u, freight);
    }
  }

  lemma {:induction false} LowerCase(s: string)
    ensures forall c <- ToLower(s) :: !('A' <= c <= 'Z')
  {
    var r := ToLower(s);
    forall c <- r
      ensures !('A' <= c <= 'Z')
    {
      var i :| 0 <= i < |r| && r[i] == c;
      assert r[i] == Lower(s[i]);
    }
  }

  lemma {:induction false} PartsStand(p: string, e: string, h: string)
    requires |e| == 26
    ensures
      var name := (p + ".") + (e + ("." + h));
      var n := |name| - |h|;
      28 <= n && name[n..] == h && name[n - 1] == '.' == name[n - 28] && name[..n - 28] == p
  {
    var name := (p + ".") + (e + ("." + h));
    assert name == p + "." + e + "." + h;
    assert name[..|p|] == p && name[|p|] == '.' && name[|p| + 27] == '.' && name[|p| + 28..] == h;
  }

  /** There is a name exactly if prefix and Freight are given. It is lower-case:
      the prefix, whole if it has at most 218 characters, a dot, 26 characters, a
      dot, and at most the first seven of the Freight's name. */
  lemma {:induction false} NameShape(prefix: string, u: Ulid, freight: string)
    ensures StyleName(prefix, u, freight) == "" <==> prefix == "" || freight == ""
    ensures forall c <- StyleName(prefix, u, freight) :: !('A' <= c <= 'Z')
    ensures prefix != "" && freight != "" ==>
      var name, k := StyleName(prefix, u, freight), if |freight| < 7 then |freight| else 7;
      var n := |name| - k;
      && 28 <= n && name[n..] == ToLower(freight[..k]) && name[n - 1] == '.' == name[n - 28]
      && (if |prefix| <= 218 then name[..n - 28] == ToLower(prefix) else name[..n - 28] <= ToLower(prefix))
  {
    if prefix != "" && freight != "" {
      LowerCase(Join([Shorten(prefix), EncodeUlid(u), ShortHash(freight)], SEPARATOR));
      NameParts(prefix, u, freight);
      PartsStand(Normal(prefix), UlidText(u), ToLower(ShortHash(freight)));
      LowerPrefix(Shorten(prefix), prefix);
    }
  }

  lemma {:induction false} LowerPrefix(a: string, b: string)
    requires a <= b
    ensures ToLower(a) <= ToLower(b)
  {
  }

  /** A child's name starts with those of Stage and Target; there is one exactly if
      Stage, Target and Freight are given. */
  lemma {:induction false} ChildNameShape(stage: string, target: string, u: Ulid, freight: string)
    ensures ChildName(stage, target, u, freight) == "" <==> stage == "" || target == "" || freight == ""
    ensures stage != "" && target != "" && freight != "" && |stage| + 1 + |target| <= 218 ==>
      ToLower(stage + "." + target) + "." <= ChildName(stage, target, u, freight)
  {
    NameShape(stage + SEPARATOR + target, u, freight);
    if stage != "" && target != "" && freight != "" && |stage| + 1 + |target| <= 218 {
      NameParts(stage + SEPARATOR + target, u, freight);
    }
  }

  lemma {:induction false} UlidTextAscends(m: Ulid, n: Ulid)
    requires m < n
    ensures Compare(UlidText(m), UlidText(n)) < 0
  {
    UlidsFit(n);
    DigitsAscend(m, n, ULID_LENGTH);
  }

  ghost predicate EarlierFirst(p: string, m: Ulid, f: string, q: string, n: Ulid, g: string)
  {
    Compare(StyleName(p, m, f), StyleName(q, n, g)) < 0
  }

  /** Every name of either prefix made from an earlier ULID sorts before every
      name of the other made from a later one. */
  ghost predicate OrderedByCreation(p: string, q: string)
  {
    forall m: Ulid, n: Ulid, f, g :: m < n && f != "" && g != "" ==>
      EarlierFirst(p, m, f, q, n, g) && EarlierFirst(q, m, f, p, n, g)
  }

  /** Name order is creation order for any two prefixes that shorten to the same
      text, whatever the Freight. */
  lemma {:induction false} SamePrefixOrdersByCreation(p: string, q: string)
    requires p != "" && q != "" && Normal(p) == Normal(q)
    ensures OrderedByCreation(p, q)
  {
    forall m: Ulid, n: Ulid, f, g | m < n && f != "" && g != ""
      ensures EarlierFirst(p, m, f, q, n, g) && EarlierFirst(q, m, f, p, n, g)
    {
      NameParts(p, m, f);
      NameParts(q, m, f);
      NameParts(p, n, g);
      NameParts(q, n, g);
      var a, b := "." + ToLower(ShortHash(f)), "." + ToLower(ShortHash(g));
      UlidTextAscends(m, n);
      CompareIgnoresTail(UlidText(m), UlidText(n), a, b);
      CompareCommonPrefix(Normal(p) + ".", UlidText(m) + a, UlidText(n) + b);
    }
  }

  /** If a + x sorts no later than b + y, and a and b are equally long, then a
      sorts no later than b. */
  lemma {:induction false} HeadsDecide(s: string, t: string, k: nat)
    requires k <= |s| && k <= |t| && Compare(s, t) <= 0
    ensures Compare(s[..k], t[..k]) <= 0
  {
    assert s == s[..k] + s[k..] && t == t[..k] + t[k..];
    if s[..k] != t[..k] {
      CompareIgnoresTail(s[..k], t[..k], s[k..], t[k..]);
    }
  }

  lemma {:induction false} HeadsAgree(s: string, t: string, k: nat)
    requires k <= |s| && k <= |t|
    requires Compare(s[..k], t[..k]) <= 0 && Compare(t[..k], s[..k]) <= 0
    ensures s[..k] == t[..k]
  {
    CompareFlips(s[..k], t[..k]);
  }

  ghost predicate SeparatorFree(s: string)
  {
    forall i :: 0 <= i < |s| ==> s[i] != '.'
  }

  /** A text that ends in a separator and sorts after the digits t differs from
      any earlier digits s within their common length. */
  lemma {:induction false} HeadsDiffer(rest: string, k: nat, s: string, t: string)
    requires rest != "" && rest[|rest| - 1] == '.'
    requires |s| == |t| && Compare(s, t) < 0 && SeparatorFree(s)
    requires k == if |rest| < |s| then |rest| else |s|
    requires Compare(t[..k], rest[..k]) <= 0
    ensures s[..k] != rest[..k] && Compare(s[..k], rest[..k]) < 0
  {
    HeadsDecide(s, t, k);
    CompareTransitive(s[..k], t[..k], rest[..k]);
    if k == |s| {
      assert s[..k] == s && t[..k] == t;
      CompareChain(s, t, rest[..k]);
    } else {
      assert s[..k][k - 1] != rest[..k][k - 1];
    }
  }

  /** So no such text lies between two ULIDs, taken the wrong way round. */
  lemma {:induction false} NothingBetween(
    rest: string, s: string, t: string, w: string, x: string, y: string, z: string)
    requires rest != "" && rest[|rest| - 1] == '.'
    requires |s| == |t| && Compare(s, t) < 0 && SeparatorFree(s)
    requires Compare(t + w, rest + x) <= 0
    ensures Compare(rest + y, s + z) > 0
  {
    var k := if |rest| < |s| then |rest| else |s|;
    HeadsDecide(t + w, rest + x, k);
    assert (t + w)[..k] == t[..k] && (rest + x)[..k] == rest[..k];
    HeadsDiffer(rest, k, s, t);
    assert (s + z)[..k] == s[..k] && (rest + y)[..k] == rest[..k];
    HeadOrder(s + z, rest + y, k);
  }

  lemma {:induction false} HeadOrder(s: string, t: string, k: nat)
    requires k <= |s| && k <= |t| && s[..k] != t[..k] && Compare(s[..k], t[..k]) < 0
    ensures Compare(t, s) > 0
  {
    assert s == s[..k] + s[k..] && t == t[..k] + t[k..];
    CompareIgnoresTail(s[..k], t[..k], s[k..], t[k..]);
    CompareFlips(s, t);
  }

  lemma {:induction false} CompareExtended(p: string, q: string, rest: string, m: Ulid, n: Ulid, f: string)
    requires p != "" && q != "" && f != "" && Normal(q) + "." == (Normal(p) + ".") + rest
    ensures Compare(StyleName(p, m, f), StyleName(q, n, f)) ==
      Compare(UlidText(m) + ("." + ToLower(ShortHash(f))), rest + (UlidText(n) + ("." + ToLower(ShortHash(f)))))
  {
    NameParts(p, m, f);
    NameParts(q, n, f);
    var tail := "." + ToLower(ShortHash(f));
    CompareShifted(Normal(p) + ".", rest, UlidText(m) + tail, UlidText(n) + tail);
  }

  lemma {:induction false} CompareShifted(p: string, rest: string, a: string, b: string)
    ensures Compare(p + a, (p + rest) + b) == Compare(a, rest + b)
  {
    assert (p + rest) + b == p + (rest + b);
    CompareCommonPrefix(p, a, rest + b);
  }

  /** A prefix that properly extends another breaks the order: the text it adds
      would have to sit between consecutive ULIDs. */
  lemma {:induction false} ExtensionBreaksOrder(p: string, q: string, rest: string, u: Ulid, f: string)
    requires p != "" && q != "" && rest != "" && rest[|rest| - 1] == '.'
    requires Normal(q) + "." == (Normal(p) + ".") + rest
    requires 1 <= u <= 0xFFFF && f != ""
    ensures !OrderedByCreation(p, q)
  {
    var before: Ulid, later: Ulid, last: Ulid := u - 1, u + 1, u + 2;
    var tail := "." + ToLower(ShortHash(f));
    CompareExtended(p, q, rest, later, last, f);
    CompareExtended(p, q, rest, u, before, f);
    UlidTextAscends(u, later);
    var b, l := rest + (UlidText(before) + tail), rest + (UlidText(last) + tail);
    if Compare(UlidText(later) + tail, l) <= 0 {
      NothingBetween(rest, UlidText(u), UlidText(later), tail, UlidText(last) + tail, UlidText(before) + tail, tail);
      CompareFlips(b, UlidText(u) + tail);
      CompareFlips(StyleName(p, u, f), StyleName(q, before, f));
      OutOfOrder(q, p, before, u, f);
    } else {
      OutOfOrder(p, q, later, last, f);
    }
  }

  lemma {:induction false} OutOfOrder(p: string, q: string, m: Ulid, n: Ulid, f: string)
    requires m < n && f != "" && Compare(StyleName(p, m, f), StyleName(q, n, f)) >= 0
    ensures !OrderedByCreation(p, q) && !OrderedByCreation(q, p)
  {
    assert !EarlierFirst(p, m, f, q, n, f);
  }

  lemma {:induction false} NameHead(p: string, u: Ulid, f: string, k: nat)
    requires p != "" && f != "" && k <= |Normal(p) + "."|
    ensures k <= |StyleName(p, u, f)| && StyleName(p, u, f)[..k] == (Normal(p) + ".")[..k]
  {
    NameParts(p, u, f);
  }

  /** Two prefixes neither of which extends the other are ordered by themselves,
      whatever the ULIDs. */
  lemma {:induction false} DivergenceBreaksOrder(p: string, q: string, k: nat, u: Ulid, v: Ulid, f: string)
    requires p != "" && q != "" && k <= |Normal(p) + "."| && k <= |Normal(q) + "."|
    requires (Normal(p) + ".")[..k] != (Normal(q) + ".")[..k]
    requires u < v && f != ""
    ensures !OrderedByCreation(p, q)
  {
    if EarlierFirst(p, u, f, q, v, f) && EarlierFirst(q, u, f, p, v, f) {
      NameHead(p, u, f, k);
      NameHead(p, v, f, k);
      NameHead(q, u, f, k);
      NameHead(q, v, f, k);
      HeadsDecide(StyleName(p, u, f), StyleName(q, v, f), k);
      HeadsDecide(StyleName(q, u, f), StyleName(p, v, f), k);
      HeadsAgree(StyleName(p, u, f), StyleName(q, u, f), k);
    }
  }

  lemma {:induction false} ExtensionEnds(a: string, b: string)
    requires a != b && a + "." <= b + "."
    ensures
      var rest := (b + ".")[|a| + 1..];
      b + "." == a + "." + rest && rest != "" && rest[|rest| - 1] == '.'
  {
    assert a == (b + ".")[..|a|];
    assert b == (b + ".")[..|b|];
  }

  lemma {:induction false} PrefixesDiverge(a: string, b: string)
    requires !(a + "." <= b + ".") && !(b + "." <= a + ".")
    ensures
      var k := if |a| <= |b| then |a| + 1 else |b| + 1;
      (a + ".")[..k] != (b + ".")[..k]
  {
  }

  lemma {:induction false} SymmetricOrder(p: string, q: string)
    ensures OrderedByCreation(p, q) <==> OrderedByCreation(q, p)
  {
  }

  lemma {:induction false} DifferentPrefixesBreakOrder(p: string, q: string, u: Ulid, v: Ulid, f: string)
    requires p != "" && q != "" && Normal(p) != Normal(q) && 1 <= u < v <= 0xFFFF && f != ""
    ensures !OrderedByCreation(p, q)
  {
    var a, b := Normal(p), Normal(q);
    if a + "." <= b + "." {
      ExtensionEnds(a, b);
      ExtensionBreaksOrder(p, q, (b + ".")[|a| + 1..], u, f);
    } else if b + "." <= a + "." {
      ExtensionEnds(b, a);
      ExtensionBreaksOrder(q, p, (a + ".")[|b| + 1..], u, f);
      SymmetricOrder(p, q);
    } else {
      PrefixesDiverge(a, b);
      DivergenceBreaksOrder(p, q, if |a| <= |b| then |a| + 1 else |b| + 1, u, v, f);
    }
  }

  /** Name order is creation order across two prefixes exactly when they shorten
      to the same text. */
  lemma {:induction false} OrderedByCreationExactly(p: string, q: string)
    requires p != "" && q != ""
    ensures OrderedByCreation(p, q) <==> Normal(p) == Normal(q)
  {
    if Normal(p) == Normal(q) {
      SamePrefixOrdersByCreation(p, q);
    } else {
      DifferentPrefixesBreakOrder(p, q, 1, 2, "f");
    }
  }

  ghost predicate EarlierChildFirst(stage: string, t: string, m: Ulid, f: string, u: string, n: Ulid, g: string)
  {
    Compare(ChildName(stage, t, m, f), ChildName(stage, u, n, g)) < 0
  }

  /** Every child for either Target created earlier sorts before every child for
      the other created later. */
  ghost predicate ChildrenOrdered(stage: string, t: string, u: string)
  {
    forall m: Ulid, n: Ulid, f, g :: m < n && f != "" && g != "" ==>
      EarlierChildFirst(stage, t, m, f, u, n, g) && EarlierChildFirst(stage, u, m, f, t, n, g)
  }

  lemma {:induction false} ChildrenOrderedMeans(stage: string, t: string, u: string)
    requires stage != "" && t != "" && u != ""
    ensures ChildrenOrdered(stage, t, u) <==> OrderedByCreation(stage + SEPARATOR + t, stage + SEPARATOR + u)
  {
    var p, q := stage + SEPARATOR + t, stage + SEPARATOR + u;
    forall m: Ulid, n: Ulid, f, g
      ensures EarlierChildFirst(stage, t, m, f, u, n, g) <==> EarlierFirst(p, m, f, q, n, g)
      ensures EarlierChildFirst(stage, u, m, f, t, n, g) <==> EarlierFirst(q, m, f, p, n, g)
    {
    }
  }

  /** Consequently the children of one Stage sort in creation order per Target,
      and not across Targets: for Stage and Target names in lower case that fit
      without shortening, exactly when the Target is the same. */
  lemma {:induction false} ChildrenOrderedPerTargetOnly(stage: string, t: string, u: string)
    requires stage != "" && t != "" && u != ""
    requires forall i :: 0 <= i < |stage| ==> Lower(stage[i]) == stage[i]
    requires forall i :: 0 <= i < |t| ==> Lower(t[i]) == t[i]
    requires forall i :: 0 <= i < |u| ==> Lower(u[i]) == u[i]
    requires |stage| + 1 + |t| <= MAX_PREFIX && |stage| + 1 + |u| <= MAX_PREFIX
    ensures ChildrenOrdered(stage, t, u) <==> t == u
  {
    ChildrenOrderedMeans(stage, t, u);
    var p, q := stage + SEPARATOR + t, stage + SEPARATOR + u;
    OrderedByCreationExactly(p, q);
    LowerCaseStays(p);
    LowerCaseStays(q);
    assert p[|stage| + 1..] == t && q[|stage| + 1..] == u;
  }

  lemma {:induction false} LowerCaseStays(s: string)
    requires forall i :: 0 <= i < |s| ==> Lower(s[i]) == s[i]
    ensures ToLower(s) == s
  {
  }
}
