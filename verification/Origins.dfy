/** Freight origins and their printed form, which Kargo uses as map keys and
    annotation values. */
module Origins {
  import opened Results

  const WAREHOUSE := "Warehouse"

  datatype Origin = Origin(kind: string, name: string)
  {
    function String(): string
    {
      kind + "/" + name
    }
  }

  datatype ParseError = InvalidFormat | InvalidKind | EmptyName

  /** strings.Cut at the first slash. */
  function Cut(s: string): (r: Option<(string, string)>)
    ensures r.Some? ==> s == r.value.0 + "/" + r.value.1 && '/' !in r.value.0
    ensures r.None? <==> '/' !in s
  {
    if s == "" then None
    else if s[0] == '/' then Some(("", s[1..]))
    else
      assert s == [s[0]] + s[1..];
      match Cut(s[1..])
      case None => None
      case Some((before, after)) => Some(([s[0]] + before, after))
  }

  lemma {:induction false} CutUnique(before: string, after: string)
    requires '/' !in before
    ensures Cut(before + "/" + after) == Some((before, after))
  {
    var s := before + "/" + after;
    if before == "" {
      assert s[1..] == after;
    } else {
      assert s[1..] == before[1..] + "/" + after;
      CutUnique(before[1..], after);
      assert before == [before[0]] + before[1..];
    }
  }

  function ParseOrigin(str: string): Result<Origin, ParseError>
  {
    match Cut(str)
    case None => Failure(InvalidFormat)
    case Some((kind, name)) =>
      if '/' in name then Failure(InvalidFormat)
      else if kind != WAREHOUSE then Failure(InvalidKind)
      else if name == "" then Failure(EmptyName)
      else Success(Origin(kind, name))
  }

  /** Parsing is the exact inverse of printing: it accepts the printed forms of
      Warehouse origins with a non-empty, slash-free name and nothing else. */
  lemma {:induction false} ParseInvertsPrint(str: string, o: Origin)
    ensures
      ParseOrigin(str) == Success(o) <==>
      str == "Warehouse/" + o.name && o.kind == "Warehouse" && o.name != "" && '/' !in o.name
    ensures o.kind == "Warehouse" ==> o.String() == "Warehouse/" + o.name
  {
    assert "Warehouse" + "/" + o.name == "Warehouse/" + o.name;
    if str == o.String() && o.kind == WAREHOUSE {
      CutUnique(o.kind, o.name);
    }
  }

  /** Printed origins are distinct keys: kinds contain no slash. */
  lemma {:induction false} StringInjective(a: Origin, b: Origin)
    requires '/' !in a.kind && '/' !in b.kind
    requires a.String() == b.String()
    ensures a == b
  {
    CutUnique(a.kind, a.name);
    CutUnique(b.kind, b.name);
  }
}
