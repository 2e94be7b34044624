/** The Warehouse subscription codec (api/v1alpha1/warehouse_types.go). A
    subscription is a JSON object with one field that names its type and holds
    its settings, and optionally a name beside it. Fields are kept as raw JSON;
    how single values are encoded is given by functions. */
module SubscriptionCodec {
  import opened Results

  type Raw = string
  type Object = map<string, Raw>

  /** The settings of a Git, image or chart subscription. */
  type Settings = string

  /** A subscription to anything else. */
  datatype Generic = Generic(subscriptionType: string, config: string)

  datatype RepoSubscription = RepoSubscription(
    name: string,
    git: Option<Settings>,
    image: Option<Settings>,
    chart: Option<Settings>,
    generic: Option<Generic>)
  {
    function TypesSet(): nat
    {
      (if git.Some? then 1 else 0) + (if image.Some? then 1 else 0)
      + (if chart.Some? then 1 else 0) + (if generic.Some? then 1 else 0)
    }
  }

  const NAME := "name"
  const NOTHING := RepoSubscription("", None, None, None, None)

  predicate Legacy(key: string)
  {
    key == "chart" || key == "git" || key == "image"
  }

  datatype CodecError =
    | TypeFields(index: nat, count: nat)
    | TypesSetError(index: nat, count: nat)
    | EmptyType(index: nat)
    | BadValue(index: nat)

  /** The JSON encoder and decoder for single values. A null decodes to no settings. */
  datatype Values = Values(
    encodeSettings: (string, Settings) -> Raw,
    decodeSettings: (string, Raw) -> Option<Option<Settings>>,
    encodeGeneric: Generic -> Raw,
    decodeGeneric: Raw -> Option<Generic>,
    encodeName: string -> Raw,
    decodeName: Raw -> Option<string>)
  {
    /** Decoding a value undoes encoding it. */
    ghost predicate Lawful()
    {
      && (forall k, s :: decodeSettings(k, encodeSettings(k, s)) == Some(Some(s)))
      && (forall g :: decodeGeneric(encodeGeneric(g)) == Some(g))
      && (forall n :: decodeName(encodeName(n)) == Some(n))
    }
  }

  // ----- One subscription

  function NameField(v: Values, name: string): Object
  {
    if name != "" then map[NAME := v.encodeName(name)] else map[]
  }

  /** One iteration of MarshalJSON's loop. */
  function Encode(v: Values, index: nat, sub: RepoSubscription): Result<Object, CodecError>
  {
    if sub.TypesSet() != 1 then Failure(TypesSetError(index, sub.TypesSet()))
    else if sub.generic.Some? then
      var kind := sub.generic.value.subscriptionType;
      if kind == "" then Failure(EmptyType(index))
      else
        // A name is set after, and over, a field of that name.
        Success(map[kind := v.encodeGeneric(sub.generic.value)] + NameField(v, sub.name))
    else
      Success(
        NameField(v, sub.name)
        + (match sub.git case Some(s) => map["git" := v.encodeSettings("git", s)] case None => map[])
        + (match sub.image case Some(s) => map["image" := v.encodeSettings("image", s)] case None => map[])
        + (match sub.chart case Some(s) => map["chart" := v.encodeSettings("chart", s)] case None => map[]))
  }

  function TypeKeys(o: Object): set<string>
  {
    o.Keys - {NAME}
  }

  function DecodedName(v: Values, o: Object): Option<string>
  {
    if NAME in o then v.decodeName(o[NAME]) else Some("")
  }

  /** What an object with this one type field unpacks to, if it does. */
  function Unpack(v: Values, o: Object, key: string): Option<RepoSubscription>
    requires key in o
  {
    match DecodedName(v, o)
    case None => None
    case Some(name) =>
      if Legacy(key) then
        match v.decodeSettings(key, o[key])
        case None => None
        case Some(settings) =>
          if key == "git" then Some(NOTHING.(name := name, git := settings))
          else if key == "image" then Some(NOTHING.(name := name, image := settings))
          else Some(NOTHING.(name := name, chart := settings))
      else
        match v.decodeGeneric(o[key])
        case None => None
        case Some(g) => Some(NOTHING.(name := name, generic := Some(g.(subscriptionType := key))))
  }

  /** The object unpacks to the subscription: it has exactly one type field. */
  ghost predicate Decodes(v: Values, o: Object, sub: RepoSubscription)
  {
    exists key :: TypeKeys(o) == {key} && key in o && Unpack(v, o, key) == Some(sub)
  }

  ghost predicate Decodable(v: Values, o: Object)
  {
    exists sub :: Decodes(v, o, sub)
  }

  // ----- The specification of a Warehouse

  /** What an error at some index of the field leaves in the specification. */
  ghost predicate LeftBehind(
    v: Values, field: seq<Object>, subscriptions: seq<Object>, internal: seq<RepoSubscription>, index: nat)
  {
    && index < |field| && !Decodable(v, field[index])
    && subscriptions == field && |internal| == |field|
    && (forall k :: 0 <= k < index ==> Decodes(v, field[k], internal[k]))
    && (forall k :: index < k < |field| ==> internal[k] == NOTHING)
  }

  class WarehouseSpec {
    var subscriptions: seq<Object>
    var internalSubscriptions: seq<RepoSubscription>

    constructor (internal: seq<RepoSubscription>)
      ensures internalSubscriptions == internal && subscriptions == []
    {
      subscriptions, internalSubscriptions := [], internal;
    }

    /** UnmarshalJSON, given the subscriptions field of the document. An error leaves
        behind the field, and the subscriptions decoded before the one at fault. */
    method UnmarshalJSON(v: Values, field: seq<Object>) returns (err: Option<CodecError>)
      modifies this
      ensures err == None <==> forall i :: 0 <= i < |field| ==> Decodable(v, field[i])
      ensures err == None && field != [] ==>
        && subscriptions == [] && |internalSubscriptions| == |field|
        && forall i :: 0 <= i < |field| ==> Decodes(v, field[i], internalSubscriptions[i])
      ensures field == [] ==> subscriptions == [] && internalSubscriptions == old(internalSubscriptions)
      ensures err.Some? ==>
        && (err.value.TypeFields? || err.value.BadValue?) && err.value.index < |field|
        && (err.value.TypeFields? <==> |TypeKeys(field[err.value.index])| != 1)
        && (err.value.TypeFields? ==> err.value.count == |TypeKeys(field[err.value.index])|)
        && LeftBehind(v, field, subscriptions, internalSubscriptions, err.value.index)
    {
      subscriptions := field;
      if |field| > 0 {
        internalSubscriptions := seq(|field|, i => NOTHING);
        for i := 0 to |field|
          invariant |internalSubscriptions| == |field| && subscriptions == field
          invariant forall k :: 0 <= k < i ==> Decodes(v, field[k], internalSubscriptions[k])
          invariant forall k :: i <= k < |field| ==> internalSubscriptions[k] == NOTHING
        {
          var typeKeys := TypeKeys(field[i]);
          if |typeKeys| != 1 {
            assert !Decodable(v, field[i]);
            return Some(TypeFields(i, |typeKeys|));
          }
          var key :| key in typeKeys;
          OnlyOne(typeKeys, key);
          var sub := Unpack(v, field[i], key);
          if sub.None? {
            DecodesWith(v, field[i], key);
            assert !Decodable(v, field[i]);
            return Some(BadValue(i));
          }
          assert Decodes(v, field[i], sub.value);
          internalSubscriptions := internalSubscriptions[i := sub.value];
        }
        subscriptions := []; // Clear to avoid confusion
      }
      return None;
    }

    /** MarshalJSON: the subscriptions field of the document, empty if it is null. */
    method MarshalJSON(v: Values) returns (r: Result<seq<Object>, CodecError>)
      ensures internalSubscriptions == [] ==> r == Success([])
      ensures internalSubscriptions != [] && r.Success? ==>
        && |r.value| == |internalSubscriptions|
        && forall i :: 0 <= i < |r.value| ==> Success(r.value[i]) == Encode(v, i, internalSubscriptions[i])
      ensures internalSubscriptions != [] && r.Failure? ==>
        exists i :: 0 <= i < |internalSubscriptions| && Encode(v, i, internalSubscriptions[i]) == Failure(r.error)
    {
      if |internalSubscriptions| == 0 {
        return Success([]);
      }
      var field: seq<Object> := [];
      for i := 0 to |internalSubscriptions|
        invariant |field| == i
        invariant forall k :: 0 <= k < i ==> Success(field[k]) == Encode(v, k, internalSubscriptions[k])
      {
        var encoded := Encode(v, i, internalSubscriptions[i]);
        if encoded.Failure? {
          return Failure(encoded.error);
        }
        field := field + [encoded.value];
      }
      return Success(field);
    }
  }

  lemma {:induction false} OnlyOne(keys: set<string>, key: string)
    requires |keys| == 1 && key in keys
    ensures keys == {key}
  {
    assert |keys - {key}| == 0;
  }

  // ----- Round trips

  /** The codec is faithful to a subscription. */
  predicate Encodable(sub: RepoSubscription)
  {
    && sub.TypesSet() == 1
    && (sub.generic.Some? ==>
          && sub.generic.value.subscriptionType != ""
          && sub.generic.value.subscriptionType != NAME
          && !Legacy(sub.generic.value.subscriptionType))
  }

  lemma {:induction false} DecodesWith(v: Values, o: Object, key: string)
    requires key in o && TypeKeys(o) == {key}
    ensures forall sub :: Decodes(v, o, sub) <==> Unpack(v, o, key) == Some(sub)
  {
    forall sub | Decodes(v, o, sub)
      ensures Unpack(v, o, key) == Some(sub)
    {
      var k :| TypeKeys(o) == {k} && k in o && Unpack(v, o, k) == Some(sub);
      assert k in {key};
    }
  }

  /** An encoded subscription decodes to itself, and to nothing else, exactly if
      it has one type set and, when generic, a type that is not reserved. */
  lemma {:induction false} RoundTripsExactly(v: Values, index: nat, sub: RepoSubscription)
    requires v.Lawful()
    ensures
      Encodable(sub) <==>
      Encode(v, index, sub).Success? && forall s :: Decodes(v, Encode(v, index, sub).value, s) <==> s == sub
  {
    var encoded := Encode(v, index, sub);
    if encoded.Success? {
      var o := encoded.value;
      if sub.generic.Some? {
        GenericRoundTrip(v, index, sub, o);
      } else {
        var key := if sub.git.Some? then "git" else if sub.image.Some? then "image" else "chart";
        assert o.Keys == {key} + NameField(v, sub.name).Keys;
        assert TypeKeys(o) == {key};
        assert DecodedName(v, o) == Some(sub.name);
        assert Unpack(v, o, key) == Some(sub);
        DecodesWith(v, o, key);
      }
    }
  }

  lemma {:induction false} GenericRoundTrip(v: Values, index: nat, sub: RepoSubscription, o: Object)
    requires v.Lawful() && sub.generic.Some? && Encode(v, index, sub) == Success(o)
    ensures Encodable(sub) <==> forall s :: Decodes(v, o, s) <==> s == sub
  {
    var kind := sub.generic.value.subscriptionType;
    if kind == NAME {
      assert TypeKeys(o) == {};
      assert !Decodes(v, o, sub);
    } else {
      assert TypeKeys(o) == {kind};
      assert DecodedName(v, o) == Some(sub.name);
      DecodesWith(v, o, kind);
      if Legacy(kind) {
        assert !Decodes(v, o, sub);
      } else {
        assert Unpack(v, o, kind) == Some(sub);
      }
    }
  }

  /** Neither an empty type nor an explicit null for the settings of a Git, image
      or chart subscription. */
  predicate Remarshalable(v: Values, o: Object)
  {
    && "" !in TypeKeys(o)
    && forall key <- TypeKeys(o) :: Legacy(key) ==> v.decodeSettings(key, o[key]) != Some(None)
  }

  lemma {:induction false} EncodesAgain(v: Values, index: nat, o: Object, sub: RepoSubscription)
    requires Decodes(v, o, sub)
    ensures Encode(v, index, sub).Success? <==> Remarshalable(v, o)
  {
    var key :| TypeKeys(o) == {key} && key in o && Unpack(v, o, key) == Some(sub);
    assert key in TypeKeys(o);
  }

  /** What was accepted can be marshalled again exactly if no object has an empty
      type or an explicit null. */
  lemma {:induction false} AcceptedMarshalsExactly(v: Values, field: seq<Object>, subs: seq<RepoSubscription>)
    requires |subs| == |field| && forall i :: 0 <= i < |field| ==> Decodes(v, field[i], subs[i])
    ensures
      (forall i :: 0 <= i < |subs| ==> Encode(v, i, subs[i]).Success?)
      <==> forall o <- field :: Remarshalable(v, o)
  {
    forall i | 0 <= i < |field|
      ensures Encode(v, i, subs[i]).Success? <==> Remarshalable(v, field[i])
    {
      EncodesAgain(v, i, field[i], subs[i]);
    }
    if o :| o in field && !Remarshalable(v, o) {
      var i :| 0 <= i < |field| && field[i] == o;
      assert !Encode(v, i, subs[i]).Success?;
    }
  }

  /** An object whose only field has the empty name is accepted, and what it
      decodes to cannot be marshalled. */
  lemma {:induction false} EmptyTypeIsAcceptedOnly(v: Values, raw: Raw, index: nat)
    requires v.decodeGeneric(raw).Some?
    ensures
      var sub := NOTHING.(generic := Some(v.decodeGeneric(raw).value.(subscriptionType := "")));
      Decodes(v, map["" := raw], sub) && Encode(v, index, sub) == Failure(EmptyType(index))
  {
    var o := map["" := raw];
    assert TypeKeys(o) == {""};
    assert Unpack(v, o, "") == Some(NOTHING.(generic := Some(v.decodeGeneric(raw).value.(subscriptionType := ""))));
  }

  /** Unmarshalling a marshalled specification gives back its subscriptions. */
  method SpecRoundTrips(v: Values, spec: WarehouseSpec, into: WarehouseSpec) returns (ok: bool)
    requires v.Lawful() && spec != into && spec.internalSubscriptions != []
    requires forall sub <- spec.internalSubscriptions :: Encodable(sub)
    modifies into
    ensures ok && into.internalSubscriptions == spec.internalSubscriptions
  {
    var field := spec.MarshalJSON(v);
    EncodedSubscriptions(v, spec.internalSubscriptions);
    assert field.Success?;
    forall i | 0 <= i < |field.value|
      ensures forall s :: Decodes(v, field.value[i], s) <==> s == spec.internalSubscriptions[i]
      ensures Decodable(v, field.value[i])
    {
      RoundTripsExactly(v, i, spec.internalSubscriptions[i]);
      assert Decodes(v, field.value[i], spec.internalSubscriptions[i]);
    }
    var err := into.UnmarshalJSON(v, field.value);
    ok := err == None;
  }

  lemma {:induction false} EncodedSubscriptions(v: Values, subs: seq<RepoSubscription>)
    requires v.Lawful() && forall sub <- subs :: Encodable(sub)
    ensures forall i :: 0 <= i < |subs| ==> Encode(v, i, subs[i]).Success?
  {
    forall i | 0 <= i < |subs|
      ensures Encode(v, i, subs[i]).Success?
    {
      RoundTripsExactly(v, i, subs[i]);
    }
  }

  /** What is written: one field for the type, and one for the name if there is one. */
  lemma {:induction false} WireFormat(v: Values, index: nat, name: string, s: Settings, g: Generic)
    ensures
      var named := if name != "" then map["name" := v.encodeName(name)] else map[];
      && Encode(v, index, RepoSubscription(name, Some(s), None, None, None)) ==
           Success(map["git" := v.encodeSettings("git", s)] + named)
      && Encode(v, index, RepoSubscription(name, None, Some(s), None, None)) ==
           Success(map["image" := v.encodeSettings("image", s)] + named)
      && Encode(v, index, RepoSubscription(name, None, None, Some(s), None)) ==
           Success(map["chart" := v.encodeSettings("chart", s)] + named)
      && (g.subscriptionType != "" ==>
            Encode(v, index, RepoSubscription(name, None, None, None, Some(g))) ==
              Success(map[g.subscriptionType := v.encodeGeneric(g)] + named))
  {
    var named := NameField(v, name);
    var git, image, chart := v.encodeSettings("git", s), v.encodeSettings("image", s), v.encodeSettings("chart", s);
    assert named + map["git" := git] + map[] + map[] == map["git" := git] + named;
    assert named + map[] + map["image" := image] + map[] == map["image" := image] + named;
    assert named + map[] + map[] + map["chart" := chart] == map["chart" := chart] + named;
  }
}
