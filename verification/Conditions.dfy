/** Lists of status conditions (pkg/conditions/conditions.go). */
module Conditions {
  import opened Results
  import opened Times
  import opened Utf8

  const MAX_MESSAGE := 32768

  /** " ... (truncated)" */
  const SUFFIX: seq<Byte> := [32, 46, 46, 46, 32, 40, 116, 114, 117, 110, 99, 97, 116, 101, 100, 41]

  datatype Condition = Condition(
    kind: string,
    status: string,
    reason: string,
    message: seq<Byte>,
    observedGeneration: int,
    lastTransition: Option<Time>)

  // ----- Messages

  /** The last position at or before end where a rune starts, or 0. */
  function CutPoint(msg: seq<Byte>, end: nat): (r: nat)
    requires end < |msg|
    ensures r <= end && (r == 0 || RuneStart(msg[r]))
    ensures forall i :: r < i <= end ==> IsTail(msg[i])
  {
    if end > 0 && !RuneStart(msg[end]) then CutPoint(msg, end - 1) else end
  }

  function Truncated(msg: seq<Byte>): seq<Byte>
  {
    if |msg| <= MAX_MESSAGE then msg else msg[..CutPoint(msg, MAX_MESSAGE - |SUFFIX|)] + SUFFIX
  }

  /** truncateMessage. */
  method TruncateMessage(msg: seq<Byte>) returns (r: seq<Byte>)
    ensures r == Truncated(msg)
  {
    if |msg| <= MAX_MESSAGE {
      return msg;
    }
    var end := MAX_MESSAGE - |SUFFIX|;
    // Walk back to a valid UTF-8 rune boundary.
    while end > 0 && !RuneStart(msg[end])
      invariant 0 <= end < |msg|
      invariant CutPoint(msg, end) == CutPoint(msg, MAX_MESSAGE - |SUFFIX|)
    {
      end := end - 1;
    }
    return msg[..end] + SUFFIX;
  }

  lemma {:induction false} SuffixIsValid()
    ensures Valid(SUFFIX)
  {
    AsciiIsValid(SUFFIX);
  }

  lemma {:induction false} AsciiIsValid(s: seq<Byte>)
    requires forall i :: 0 <= i < |s| ==> s[i] <= 0x7F
    ensures Valid(s)
  {
    if s != [] {
      AsciiIsValid(s[1..]);
    }
  }

  predicate Spells(s: seq<Byte>, text: string)
  {
    |s| == |text| && forall i :: 0 <= i < |s| ==> s[i] == text[i] as int
  }

  /** What a truncated message ends in. */
  lemma {:induction false} SuffixSpells()
    ensures Spells(SUFFIX, " ... (truncated)")
  {
  }

  /** A truncated message fits; it is its original or a prefix of it with the
      suffix; if the original is valid UTF-8 so is the result, and at most three
      bytes more than necessary are dropped. */
  lemma {:induction false} TruncationIsSafe(msg: seq<Byte>)
    ensures |Truncated(msg)| <= 32768
    ensures |msg| <= 32768 ==> Truncated(msg) == msg
    ensures |msg| > 32768 ==>
      var kept := |Truncated(msg)| - |SUFFIX|;
      0 <= kept && Truncated(msg) == msg[..kept] + SUFFIX
    ensures Valid(msg) ==> Valid(Truncated(msg))
    ensures Valid(msg) && |msg| > 32768 ==> |Truncated(msg)| >= 32765
  {
    if |msg| > MAX_MESSAGE {
      var end := MAX_MESSAGE - |SUFFIX|;
      var cut := CutPoint(msg, end);
      if Valid(msg) {
        var e := StartIsNear(msg, end);
        assert cut >= e;
        assert RuneStart(msg[cut]);
        CutIsValid(msg, cut);
        SuffixIsValid();
        ValidConcat(msg[..cut], SUFFIX);
      }
    }
  }

  // ----- Lists

  predicate Equal(a: Condition, b: Condition)
  {
    a.kind == b.kind && a.status == b.status && a.reason == b.reason && a.message == b.message
  }

  /** The position of the first condition of a kind, or the length. */
  function Find(list: seq<Condition>, kind: string): (i: nat)
    ensures i <= |list|
    ensures i < |list| ==> list[i].kind == kind
    ensures forall k :: 0 <= k < i ==> list[k].kind != kind
  {
    if list == [] then 0
    else if list[0].kind == kind then 0
    else 1 + Find(list[1..], kind)
  }

  function Get(list: seq<Condition>, kind: string): Option<Condition>
  {
    if Find(list, kind) < |list| then Some(list[Find(list, kind)]) else None
  }

  /** A condition as it is about to be stored. */
  function Prepared(c: Condition, generation: int): Condition
  {
    c.(message := Truncated(c.message),
       observedGeneration :=
         if generation != 0 && c.observedGeneration == 0 then generation else c.observedGeneration)
  }

  function Stamped(c: Condition, existing: Option<Time>, now: Time): Condition
  {
    if c.lastTransition.Some? then c
    else c.(lastTransition := if existing.Some? then existing else Some(now))
  }

  function SetOne(list: seq<Condition>, c: Condition, generation: int, now: Time): seq<Condition>
  {
    var p, i := Prepared(c, generation), Find(list, c.kind);
    if i == |list| then list + [Stamped(p, None, now)]
    else if Equal(list[i], p) && list[i].observedGeneration >= p.observedGeneration then list
    else list[i := Stamped(p, list[i].lastTransition, now)]
  }

  /** nil conditions are skipped. */
  function SetAll(list: seq<Condition>, cs: seq<Option<Condition>>, generation: int, now: Time): seq<Condition>
  {
    if cs == [] then list
    else
      var before := SetAll(list, cs[..|cs| - 1], generation, now);
      match cs[|cs| - 1]
      case None => before
      case Some(c) => SetOne(before, c, generation, now)
  }

  class Resource {
    var conditions: seq<Condition>
    const generation: int // 0 if it is not an object

    constructor (generation: int)
      ensures this.generation == generation && conditions == []
    {
      this.generation, conditions := generation, [];
    }

    /** Set. */
    method Set(cs: seq<Option<Condition>>, now: Time)
      modifies this
      ensures conditions == SetAll(old(conditions), cs, generation, now)
    {
      var list := conditions;
      for n := 0 to |cs|
        invariant list == SetAll(old(conditions), cs[..n], generation, now)
      {
        assert cs[..n + 1][..n] == cs[..n];
        if cs[n].None? {
          continue;
        }
        var c := cs[n].value;
        var message := TruncateMessage(c.message);
        c := c.(message := message);
        if generation != 0 && c.observedGeneration == 0 {
          c := c.(observedGeneration := generation);
        }
        list := StoreIn(list, cs[n].value, c, generation, now);
      }
      assert cs[..|cs|] == cs;
      conditions := list;
    }

    /** Delete. */
    method Delete(kind: string)
      modifies this
      ensures
        var i := Find(old(conditions), kind);
        conditions ==
          if kind != "" && i < |old(conditions)| then Without(old(conditions), i)
          else old(conditions)
    {
      if kind == "" {
        return;
      }
      for i := 0 to |conditions|
        invariant conditions == old(conditions)
        invariant forall k :: 0 <= k < i ==> conditions[k].kind != kind
      {
        if conditions[i].kind == kind {
          conditions := conditions[..i] + conditions[i + 1..];
          return;
        }
      }
    }
  }

  /** The search for an existing condition of the same type, and what follows. */
  method StoreIn(list: seq<Condition>, ghost given: Condition, c: Condition, ghost generation: int, now: Time)
    returns (r: seq<Condition>)
    requires c == Prepared(given, generation)
    ensures r == SetOne(list, given, generation, now)
  {
    for i := 0 to |list|
      invariant forall k :: 0 <= k < i ==> list[k].kind != c.kind
    {
      var existing := list[i];
      if existing.kind == c.kind {
        if Equal(existing, c) && existing.observedGeneration >= c.observedGeneration {
          return list;
        }
        var stored := c;
        if c.lastTransition.None? {
          stored := c.(lastTransition :=
            if existing.lastTransition.Some? then existing.lastTransition else Some(now));
        }
        return list[i := stored];
      }
    }
    var stored := if c.lastTransition.None? then c.(lastTransition := Some(now)) else c;
    return list + [stored];
  }

  // ----- What setting guarantees

  predicate UniqueKinds(list: seq<Condition>)
  {
    forall i, j :: 0 <= i < j < |list| ==> list[i].kind != list[j].kind
  }

  /** Same status, reason and truncated message. */
  predicate Shows(stored: Condition, given: Condition)
  {
    && stored.kind == given.kind && stored.status == given.status && stored.reason == given.reason
    && stored.message == Truncated(given.message)
  }

  lemma {:induction false} FindIs(list: seq<Condition>, i: nat)
    requires UniqueKinds(list) && i < |list|
    ensures Find(list, list[i].kind) == i
  {
    assert list[Find(list, list[i].kind)].kind == list[i].kind;
  }

  /** One condition set: its own type shows it, every other stays where it is. */
  lemma {:induction false} SetOneEffect(list: seq<Condition>, c: Condition, generation: int, now: Time)
    requires UniqueKinds(list)
    ensures
      var r := SetOne(list, c, generation, now);
      && UniqueKinds(r)
      && |list| <= |r| <= |list| + 1
      && (forall k :: 0 <= k < |list| ==> r[k].kind == list[k].kind)
      && (forall k :: 0 <= k < |list| && list[k].kind != c.kind ==> r[k] == list[k])
      && Find(r, c.kind) == Find(list, c.kind) < |r| && Shows(r[Find(r, c.kind)], c)
  {
    var r, i := SetOne(list, c, generation, now), Find(list, c.kind);
    assert r[i].kind == c.kind;
    assert UniqueKinds(r);
    FindIs(r, i);
  }

  /** The last condition given of a type, if any. */
  function LastGiven(cs: seq<Option<Condition>>, kind: string): Option<Condition>
  {
    if cs == [] then None
    else if cs[|cs| - 1].Some? && cs[|cs| - 1].value.kind == kind then cs[|cs| - 1]
    else LastGiven(cs[..|cs| - 1], kind)
  }

  /** Types stay unique and in place, new ones come last; of each type given, the
      last condition given shows; other types keep what they had. */
  lemma {:induction false} SetAllEffect(
    list: seq<Condition>, cs: seq<Option<Condition>>, generation: int, now: Time, kind: string)
    requires UniqueKinds(list)
    ensures
      var r := SetAll(list, cs, generation, now);
      && UniqueKinds(r)
      && |list| <= |r| && (forall k :: 0 <= k < |list| ==> r[k].kind == list[k].kind)
      && (match LastGiven(cs, kind)
          case Some(c) => Get(r, kind).Some? && Shows(Get(r, kind).value, c)
          case None => Get(r, kind) == Get(list, kind))
  {
    if cs != [] {
      var init := cs[..|cs| - 1];
      SetAllEffect(list, init, generation, now, kind);
      if cs[|cs| - 1].Some? {
        SetOneKeeps(SetAll(list, init, generation, now), cs[|cs| - 1].value, generation, now, kind);
      }
    }
  }

  lemma {:induction false} SetOneKeeps(list: seq<Condition>, c: Condition, generation: int, now: Time, kind: string)
    requires UniqueKinds(list)
    ensures
      var r := SetOne(list, c, generation, now);
      && UniqueKinds(r)
      && |list| <= |r| && (forall k :: 0 <= k < |list| ==> r[k].kind == list[k].kind)
      && (if c.kind == kind then Get(r, kind).Some? && Shows(Get(r, kind).value, c)
          else Get(r, kind) == Get(list, kind))
  {
    SetOneEffect(list, c, generation, now);
    var r := SetOne(list, c, generation, now);
    if c.kind != kind {
      if Find(list, kind) < |list| {
        FindIs(r, Find(list, kind));
      } else if Find(r, kind) < |r| {
        assert r[Find(r, kind)].kind == kind;
        FindIs(r, Find(list, c.kind));
      }
    }
  }

  /** When a condition set is stored, and with what time and generation: not at all
      if it shows already for a generation no older; otherwise with the object's
      generation if it names none, and with its own time, or else that of the
      condition it replaces, or else the time of the call. */
  lemma {:induction false} SetOneExactly(list: seq<Condition>, c: Condition, generation: int, now: Time)
    requires UniqueKinds(list)
    ensures
      var r, before := SetOne(list, c, generation, now), Get(list, c.kind);
      var observed := if c.observedGeneration == 0 && generation != 0 then generation else c.observedGeneration;
      if before.Some? && Shows(before.value, c) && before.value.observedGeneration >= observed then r == list
      else
        && Get(r, c.kind).Some? && Get(r, c.kind).value.observedGeneration == observed
        && Get(r, c.kind).value.lastTransition ==
           if c.lastTransition.Some? then c.lastTransition
           else if before.Some? && before.value.lastTransition.Some? then before.value.lastTransition
           else Some(now)
  {
    SetOneEffect(list, c, generation, now);
  }

  /** A condition keeps its transition time through any number of settings that
      give none, even if its status changes. */
  lemma {:induction false} TransitionTimeStays(
    list: seq<Condition>, cs: seq<Option<Condition>>, generation: int, now: Time, kind: string)
    requires UniqueKinds(list) && Get(list, kind).Some? && Get(list, kind).value.lastTransition.Some?
    requires forall c <- cs :: c.Some? && c.value.kind == kind ==> c.value.lastTransition.None?
    ensures
      var r := SetAll(list, cs, generation, now);
      Get(r, kind).Some? && Get(r, kind).value.lastTransition == Get(list, kind).value.lastTransition
  {
    if cs != [] {
      var init, last := cs[..|cs| - 1], cs[|cs| - 1];
      assert last in cs && forall c <- init :: c in cs;
      TransitionTimeStays(list, init, generation, now, kind);
      SetAllEffect(list, init, generation, now, kind);
      if last.Some? {
        var before := SetAll(list, init, generation, now);
        SetOneKeeps(before, last.value, generation, now, kind);
        SetOneExactly(before, last.value, generation, now);
      }
    }
  }

  function Without(list: seq<Condition>, i: nat): (r: seq<Condition>)
    requires i < |list|
    ensures |r| == |list| - 1
    ensures forall k :: 0 <= k < |r| ==> r[k] == if k < i then list[k] else list[k + 1]
  {
    list[..i] + list[i + 1..]
  }

  lemma {:induction false} DeletionKeepsOthers(list: seq<Condition>, i: nat, other: string)
    requires i < |list| && other != list[i].kind
    requires UniqueKinds(list) && UniqueKinds(Without(list, i))
    ensures Get(Without(list, i), other) == Get(list, other)
  {
    var r, k := Without(list, i), Find(list, other);
    if k < |list| {
      FindIs(r, if k < i then k else k - 1);
    }
  }

  /** Deleting a type removes it and nothing else, and keeps the order. */
  lemma {:induction false} DeletionEffect(list: seq<Condition>, kind: string)
    requires UniqueKinds(list) && Find(list, kind) < |list|
    ensures
      var r := Without(list, Find(list, kind));
      && UniqueKinds(r) && Get(r, kind) == None
      && forall other :: other != kind ==> Get(r, other) == Get(list, other)
  {
    var i := Find(list, kind);
    assert UniqueKinds(Without(list, i));
    forall other | other != kind
      ensures Get(Without(list, i), other) == Get(list, other)
    {
      DeletionKeepsOthers(list, i, other);
    }
  }
}
