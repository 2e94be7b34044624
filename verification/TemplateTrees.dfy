/** Evaluating the string leaves of a JSON document
    (pkg/expressions/json_templates.go). What expr-lang, strconv and the JSON
    parser do is given by functions. */
module TemplateTrees {
  import opened Results
  import opened Strings
  import opened Templates

  datatype Json =
    | Null
    | Bool(b: bool)
    | Number(text: string)
    | Str(s: string)
    | Arr(items: seq<Json>)
    | Obj(fields: map<string, Json>)

  /** The libraries a template is evaluated with. */
  datatype Engine<!E> = Engine(
    eval: string -> Result<string, EvalError<E>>,
    parseNumber: string -> Option<string>,
    parseBool: string -> Option<bool>,
    parseJson: string -> Option<Json>)

  predicate HasDelimiter(template: string)
  {
    Contains(template, Braces.Start()) || Contains(template, Percents.Start())
  }

  predicate Quoted(s: string)
  {
    |s| > 1 && s[0] == '"' && s[|s| - 1] == '"'
  }

  /** How the text that a template evaluated to is read. */
  function Read<E>(engine: Engine<E>, text: string): Json
  {
    var removedNewline := text != "" && text[|text| - 1] == '\n';
    var result := if removedNewline then text[..|text| - 1] else text;
    if Quoted(result) then Str(result[1..|result| - 1] + (if removedNewline then "\n" else ""))
    else
      match engine.parseNumber(result)
      case Some(n) => Number(n)
      case None =>
        match engine.parseBool(result)
        case Some(b) => Bool(b)
        case None =>
          match engine.parseJson(result)
          case Some(j) => j
          case None => Str(text)
  }

  /** What a string leaf becomes. */
  function Leaf<E>(engine: Engine<E>, template: string): Result<Json, EvalError<E>>
  {
    if !HasDelimiter(template) then Success(Str(template))
    else
      match Meaning(template, engine.eval)
      case Failure(e) => Failure(e)
      case Success(text) => Success(Read(engine, text))
  }

  /** EvaluateTemplate, the exported one, which logs the path it is called for. */
  method EvaluateLeaf<E>(engine: Engine<E>, template: string, ghost log: seq<Path>, ghost path: Path)
    returns (r: Result<Json, EvalError<E>>, ghost logged: seq<Path>)
    ensures r == Leaf(engine, template) && logged == log + [path]
  {
    logged := log + [path];
    if !HasDelimiter(template) {
      return Success(Str(template)), logged;
    }
    var evaluated := EvaluateTemplate(template, engine.eval);
    if evaluated.Failure? {
      return Failure(evaluated.error), logged;
    }
    return Success(Read(engine, evaluated.value)), logged;
  }

  // ----- The tree

  /** Every string leaf evaluates. */
  ghost predicate Evaluates<E>(engine: Engine<E>, j: Json)
  {
    match j
    case Str(s) => Leaf(engine, s).Success?
    case Arr(items) => forall x <- items :: Evaluates(engine, x)
    case Obj(fields) => forall k <- fields :: Evaluates(engine, fields[k])
    case _ => true
  }

  /** The document with each original string leaf replaced, and nothing else. */
  function Replaced<E>(engine: Engine<E>, j: Json): Json
    requires Evaluates(engine, j)
    decreases j
  {
    match j
    case Str(s) => Leaf(engine, s).value
    case Arr(items) => Arr(seq(|items|, i requires 0 <= i < |items| => Replaced(engine, items[i])))
    case Obj(fields) => Obj(map k <- fields :: Replaced(engine, fields[k]))
    case _ => j
  }

  // ----- Paths

  /** One step down a document. */
  datatype Step = Field(name: string) | Item(index: int)

  type Path = seq<Step>

  /** What stands at a path. */
  function At(j: Json, path: Path): Option<Json>
  {
    if path == [] then Some(j)
    else
      match (path[0], j)
      case (Field(k), Obj(fields)) => if k in fields then At(fields[k], path[1..]) else None
      case (Item(i), Arr(items)) => if 0 <= i < |items| then At(items[i], path[1..]) else None
      case _ => None
  }

  predicate IsLeaf(j: Json, path: Path)
  {
    At(j, path).Some? && At(j, path).value.Str?
  }

  function Under(step: Step, paths: seq<Path>): seq<Path>
  {
    seq(|paths|, i requires 0 <= i < |paths| => [step] + paths[i])
  }

  ghost predicate Once(paths: seq<Path>)
  {
    forall i, k :: 0 <= i < k < |paths| ==> paths[i] != paths[k]
  }

  lemma {:induction false} UnderPaths(step: Step, paths: seq<Path>, path: Path)
    ensures path in Under(step, paths) <==> path != [] && path[0] == step && path[1..] in paths
  {
    var under := Under(step, paths);
    if path in under {
      var i :| 0 <= i < |under| && under[i] == path;
      assert path[1..] == paths[i];
    }
    if path != [] && path[0] == step && path[1..] in paths {
      var i :| 0 <= i < |paths| && paths[i] == path[1..];
      assert under[i] == [step] + path[1..] == path;
    }
  }

  lemma {:induction false} AppendOnce(log: seq<Path>, step: Step, paths: seq<Path>)
    requires Once(log) && Once(paths) && forall path <- log :: path != [] && path[0] != step
    ensures Once(log + Under(step, paths))
  {
    var under, all := Under(step, paths), log + Under(step, paths);
    forall i, k | 0 <= i < k < |all|
      ensures all[i] != all[k]
    {
      if k >= |log| {
        assert all[k] == [step] + paths[k - |log|];
        if i >= |log| {
          assert all[i][1..] == paths[i - |log|] && all[k][1..] == paths[k - |log|];
        } else {
          assert all[i] in log;
        }
      }
    }
  }

  /** The log holds every string leaf, each once. */
  ghost predicate Complete(j: Json, log: seq<Path>)
  {
    Once(log) && forall path :: path in log <==> IsLeaf(j, path)
  }

  /** The same, below the steps taken so far. */
  ghost predicate Progress(j: Json, log: seq<Path>, taken: iset<Step>)
  {
    Once(log) && forall path :: path in log <==> IsLeaf(j, path) && path != [] && path[0] in taken
  }

  type Evaluator<!E> = string -> Result<Json, EvalError<E>>

  function LeafOf<E>(engine: Engine<E>): Evaluator<E>
  {
    s => Leaf(engine, s)
  }

  ghost predicate Succeeds<E>(leaf: Evaluator<E>, j: Json, path: Path)
  {
    IsLeaf(j, path) && leaf(At(j, path).value.s).Success?
  }

  ghost predicate Fails<E>(leaf: Evaluator<E>, j: Json, path: Path, e: EvalError<E>)
  {
    IsLeaf(j, path) && leaf(At(j, path).value.s) == Failure(e)
  }

  ghost predicate AllSucceed<E>(leaf: Evaluator<E>, j: Json, log: seq<Path>)
  {
    forall i :: 0 <= i < |log| ==> Succeeds(leaf, j, log[i])
  }

  /** The last leaf of the log is the first that does not evaluate, none being
      logged twice. */
  ghost predicate FailedAtLast<E>(leaf: Evaluator<E>, j: Json, log: seq<Path>, e: EvalError<E>)
  {
    && log != [] && Once(log)
    && AllSucceed(leaf, j, log[..|log| - 1])
    && Fails(leaf, j, log[|log| - 1], e)
  }

  lemma {:induction false} ChildPath(j: Json, step: Step, child: Json, path: Path)
    requires At(j, [step]) == Some(child) && path != [] && path[0] == step
    ensures At(j, path) == At(child, path[1..])
  {
    assert [step][1..] == [];
  }

  /** Which paths the log has once those below a child are added. */
  lemma {:induction false} ChildPaths(j: Json, step: Step, child: Json, below: seq<Path>, path: Path)
    requires At(j, [step]) == Some(child) && forall p <- below :: IsLeaf(child, p)
    ensures path in Under(step, below) <==> path != [] && path[0] == step && path[1..] in below
    ensures path in Under(step, below) ==> IsLeaf(j, path)
    ensures path != [] && path[0] == step ==> (IsLeaf(j, path) <==> IsLeaf(child, path[1..]))
  {
    UnderPaths(step, below, path);
    if path != [] && path[0] == step {
      ChildPath(j, step, child, path);
    }
  }

  lemma {:induction false} TakeChild(
    j: Json, log: seq<Path>, taken: iset<Step>, step: Step, child: Json, below: seq<Path>)
    requires Progress(j, log, taken) && step !in taken && At(j, [step]) == Some(child)
    requires Complete(child, below)
    ensures Progress(j, log + Under(step, below), taken + iset{step})
  {
    AppendOnce(log, step, below);
    var all := log + Under(step, below);
    forall path
      ensures path in all <==> IsLeaf(j, path) && path != [] && path[0] in taken + iset{step}
    {
      ChildPaths(j, step, child, below, path);
      assert path in all <==> path in log || path in Under(step, below);
    }
  }

  /** What the i-th leaf below a child does, seen from above. */
  lemma {:induction false} ChildLeaf<E>(
    leaf: Evaluator<E>, j: Json, step: Step, child: Json, below: seq<Path>, i: nat)
    requires At(j, [step]) == Some(child) && i < |below|
    ensures Succeeds(leaf, child, below[i]) ==> Succeeds(leaf, j, Under(step, below)[i])
    ensures forall e :: Fails(leaf, child, below[i], e) ==> Fails(leaf, j, Under(step, below)[i], e)
  {
    var path := Under(step, below)[i];
    ChildPath(j, step, child, path);
    assert path[1..] == below[i];
  }

  lemma {:induction false} SucceedTogether<E>(
    leaf: Evaluator<E>, j: Json, log: seq<Path>, step: Step, child: Json, below: seq<Path>)
    requires AllSucceed(leaf, j, log) && AllSucceed(leaf, child, below) && At(j, [step]) == Some(child)
    ensures AllSucceed(leaf, j, log + Under(step, below))
  {
    var all := log + Under(step, below);
    forall i | 0 <= i < |all|
      ensures Succeeds(leaf, j, all[i])
    {
      if i >= |log| {
        ChildLeaf(leaf, j, step, child, below, i - |log|);
      }
    }
  }

  lemma {:induction false} FailChild<E>(
    leaf: Evaluator<E>, j: Json, log: seq<Path>, taken: iset<Step>, step: Step, child: Json, below: seq<Path>,
    e: EvalError<E>)
    requires Progress(j, log, taken) && step !in taken && At(j, [step]) == Some(child)
    requires AllSucceed(leaf, j, log) && FailedAtLast(leaf, child, below, e)
    ensures FailedAtLast(leaf, j, log + Under(step, below), e)
  {
    var all, last := log + Under(step, below), |below| - 1;
    AppendOnce(log, step, below);
    SucceedTogether(leaf, j, log, step, child, below[..last]);
    assert all[..|all| - 1] == log + Under(step, below[..last]);
    ChildLeaf(leaf, j, step, child, below, last);
  }

  /** The leaves of a child that evaluates do. */
  lemma {:induction false} LeavesSucceed<E>(engine: Engine<E>, j: Json, log: seq<Path>)
    requires Evaluates(engine, j) && Complete(j, log)
    ensures AllSucceed(LeafOf(engine), j, log)
  {
    forall i | 0 <= i < |log|
      ensures Succeeds(LeafOf(engine), j, log[i])
    {
      assert log[i] in log;
      ReplacedAtEveryPath(engine, j, log[i]);
    }
  }

  lemma {:induction false} ItemStands(items: seq<Json>, i: nat)
    requires i < |items|
    ensures At(Arr(items), [Item(i)]) == Some(items[i])
  {
    assert [Item(i)][1..] == [];
  }

  lemma {:induction false} FieldStands(fields: map<string, Json>, key: string)
    requires key in fields
    ensures At(Obj(fields), [Field(key)]) == Some(fields[key])
  {
    assert [Field(key)][1..] == [];
  }

  /** What evaluating a value comes to: it succeeds exactly if every string leaf
      does, with each original leaf replaced and nothing else. */
  ghost predicate Outcome<E>(engine: Engine<E>, j: Json, r: Result<Json, EvalError<E>>)
  {
    && (r.Success? <==> Evaluates(engine, j))
    && (r.Success? ==> r.value == Replaced(engine, j))
  }

  /** It has evaluated every leaf exactly once, or ends at the first that fails. */
  ghost predicate Logged<E>(engine: Engine<E>, j: Json, r: Result<Json, EvalError<E>>, log: seq<Path>)
  {
    match r
    case Success(_) => Complete(j, log)
    case Failure(e) => FailedAtLast(LeafOf(engine), j, log, e)
  }

  lemma {:induction false} ScalarOutcome<E>(engine: Engine<E>, j: Json)
    requires !j.Arr? && !j.Obj? && !j.Str?
    ensures Outcome(engine, j, Success(j)) && Logged(engine, j, Success(j), [])
  {
    assert forall path :: !IsLeaf(j, path);
  }

  lemma {:induction false} LeafOutcome<E>(engine: Engine<E>, s: string, log: seq<Path>)
    requires log == [] + [[]]
    ensures Outcome(engine, Str(s), Leaf(engine, s)) && Logged(engine, Str(s), Leaf(engine, s), log)
  {
    assert forall path :: IsLeaf(Str(s), path) <==> path == [];
    assert log[0] == [] && log[..|log| - 1] == [];
  }

  ghost function FirstItems(i: int): iset<Step>
  {
    iset step: Step | step.Item? && 0 <= step.index < i
  }

  ghost function FieldsIn(keys: set<string>): iset<Step>
  {
    iset step: Step | step.Field? && step.name in keys
  }

  /** The first i items of a list are evaluated, the others stand. */
  ghost predicate ItemsDone<E>(engine: Engine<E>, items: seq<Json>, col: seq<Json>, i: nat)
  {
    && i <= |col| == |items|
    && (forall k :: i <= k < |items| ==> col[k] == items[k])
    && forall k :: 0 <= k < i ==> Evaluates(engine, items[k]) && col[k] == Replaced(engine, items[k])
  }

  lemma {:induction false} NextItemDone<E>(engine: Engine<E>, items: seq<Json>, col: seq<Json>, i: nat, v: Json)
    requires ItemsDone(engine, items, col, i) && i < |items|
    requires Evaluates(engine, items[i]) && v == Replaced(engine, items[i])
    ensures ItemsDone(engine, items, col[i := v], i + 1)
    ensures FirstItems(i) + iset{Item(i)} == FirstItems(i + 1)
  {
    var next := col[i := v];
    assert next[..i] == col[..i];
    forall k | 0 <= k < i
      ensures Evaluates(engine, items[k]) && next[k] == Replaced(engine, items[k])
    {
      assert next[k] == col[k];
    }
  }

  lemma {:induction false} ItemFails<E>(engine: Engine<E>, items: seq<Json>, i: nat)
    requires i < |items| && !Evaluates(engine, items[i])
    ensures !Evaluates(engine, Arr(items))
  {
    assert items[i] in items;
  }

  lemma {:induction false} AllItemsDone<E>(engine: Engine<E>, items: seq<Json>, col: seq<Json>, log: seq<Path>)
    requires ItemsDone(engine, items, col, |items|) && Progress(Arr(items), log, FirstItems(|items|))
    ensures Evaluates(engine, Arr(items)) && Arr(col) == Replaced(engine, Arr(items))
    ensures Complete(Arr(items), log)
  {
    assert col == Replaced(engine, Arr(items)).items;
  }

  /** All fields of an object but these are evaluated. */
  ghost predicate FieldsDone<E>(
    engine: Engine<E>, fields: map<string, Json>, col: map<string, Json>, keys: set<string>)
  {
    && keys <= fields.Keys == col.Keys
    && (forall k <- keys :: col[k] == fields[k])
    && forall k :: k in fields.Keys - keys ==> Evaluates(engine, fields[k]) && col[k] == Replaced(engine, fields[k])
  }

  lemma {:induction false} NextFieldDone<E>(
    engine: Engine<E>, fields: map<string, Json>, col: map<string, Json>, keys: set<string>, key: string, v: Json)
    requires FieldsDone(engine, fields, col, keys) && key in keys
    requires Evaluates(engine, fields[key]) && v == Replaced(engine, fields[key])
    ensures FieldsDone(engine, fields, col[key := v], keys - {key})
  {
    var next, left := col[key := v], keys - {key};
    forall k | k in fields.Keys - left
      ensures Evaluates(engine, fields[k]) && next[k] == Replaced(engine, fields[k])
    {
      if k != key {
        assert k in fields.Keys - keys && next[k] == col[k];
      }
    }
  }

  lemma {:induction false} NextFieldTaken(all: set<string>, keys: set<string>, key: string)
    requires key in keys && keys <= all
    ensures FieldsIn(all - keys) + iset{Field(key)} == FieldsIn(all - (keys - {key}))
  {
  }

  lemma {:induction false} AllFieldsDone<E>(
    engine: Engine<E>, fields: map<string, Json>, col: map<string, Json>, log: seq<Path>)
    requires FieldsDone(engine, fields, col, {}) && Progress(Obj(fields), log, FieldsIn(fields.Keys))
    ensures Evaluates(engine, Obj(fields)) && Obj(col) == Replaced(engine, Obj(fields))
    ensures Complete(Obj(fields), log)
  {
    assert col == Replaced(engine, Obj(fields)).fields;
  }

  // ----- The walk

  /** evaluateExpressions, together with the case split its loops make on each
      value. The log lists the leaves evaluated, by their paths. */
  method EvaluateExpressions<E>(engine: Engine<E>, j: Json)
    returns (r: Result<Json, EvalError<E>>, ghost log: seq<Path>)
    ensures Outcome(engine, j, r)
    ensures Logged(engine, j, r, log)
    decreases j, 1
  {
    match j
    case Str(s) =>
      r, log := EvaluateLeaf(engine, s, [], []);
      LeafOutcome(engine, s, log);
    case Arr(_) =>
      r, log := EvaluateItems(engine, j);
    case Obj(_) =>
      r, log := EvaluateFields(engine, j);
    case _ =>
      ScalarOutcome(engine, j);
      r, log := Success(j), [];
  }

  /** The value at one step of a collection, in the loops over both. */
  method EvaluateChild<E>(
    engine: Engine<E>, ghost j: Json, ghost step: Step, child: Json, ghost log: seq<Path>, ghost taken: iset<Step>)
    returns (r: Result<Json, EvalError<E>>, ghost more: seq<Path>)
    requires At(j, [step]) == Some(child) && step !in taken
    requires Progress(j, log, taken) && AllSucceed(LeafOf(engine), j, log)
    ensures r.Success? <==> Evaluates(engine, child)
    ensures r.Success? ==>
      && r.value == Replaced(engine, child)
      && Progress(j, more, taken + iset{step}) && AllSucceed(LeafOf(engine), j, more)
    ensures r.Failure? ==> FailedAtLast(LeafOf(engine), j, more, r.error)
    decreases child, 2
  {
    ghost var below;
    r, below := EvaluateExpressions(engine, child);
    more := log + Under(step, below);
    if r.Failure? {
      FailChild(LeafOf(engine), j, log, taken, step, child, below, r.error);
    } else {
      TakeChild(j, log, taken, step, child, below);
      LeavesSucceed(engine, child, below);
      SucceedTogether(LeafOf(engine), j, log, step, child, below);
    }
  }

  /** The case of a list. */
  method EvaluateItems<E>(engine: Engine<E>, j: Json)
    returns (r: Result<Json, EvalError<E>>, ghost log: seq<Path>)
    requires j.Arr?
    ensures Outcome(engine, j, r)
    ensures Logged(engine, j, r, log)
    decreases j, 0
  {
    var items := j.items;
    var col := items;
    log := [];
    for i := 0 to |items|
      invariant ItemsDone(engine, items, col, i)
      invariant Progress(j, log, FirstItems(i)) && AllSucceed(LeafOf(engine), j, log)
    {
      ItemStands(items, i);
      var v;
      v, log := EvaluateChild(engine, j, Item(i), items[i], log, FirstItems(i));
      if v.Failure? {
        ItemFails(engine, items, i);
        return v, log;
      }
      NextItemDone(engine, items, col, i, v.value);
      col := col[i := v.value];
    }
    AllItemsDone(engine, items, col, log);
    r := Success(Arr(col));
  }

  /** The case of an object, whose fields are visited in an arbitrary order. */
  method EvaluateFields<E>(engine: Engine<E>, j: Json)
    returns (r: Result<Json, EvalError<E>>, ghost log: seq<Path>)
    requires j.Obj?
    ensures Outcome(engine, j, r)
    ensures Logged(engine, j, r, log)
    decreases j, 0
  {
    var fields := j.fields;
    var col, keys := fields, fields.Keys;
    log := [];
    while keys != {}
      invariant FieldsDone(engine, fields, col, keys)
      invariant Progress(j, log, FieldsIn(fields.Keys - keys))
      invariant AllSucceed(LeafOf(engine), j, log)
      decreases keys
    {
      var key :| key in keys;
      FieldStands(fields, key);
      var v;
      v, log := EvaluateChild(engine, j, Field(key), fields[key], log, FieldsIn(fields.Keys - keys));
      if v.Failure? {
        return v, log;
      }
      NextFieldDone(engine, fields, col, keys, key, v.value);
      NextFieldTaken(fields.Keys, keys, key);
      keys := keys - {key};
      col := col[key := v.value];
    }
    assert fields.Keys - keys == fields.Keys;
    AllFieldsDone(engine, fields, col, log);
    r := Success(Obj(col));
  }

  /** At every path, however deep: a string of the original document is replaced
      by what it alone evaluates to, other leaves stand, arrays keep their length
      and objects their keys. */
  lemma {:induction false} ReplacedAtEveryPath<E>(engine: Engine<E>, j: Json, path: Path)
    requires Evaluates(engine, j) && At(j, path).Some?
    ensures Evaluates(engine, At(j, path).value)
    ensures
      var r := At(Replaced(engine, j), path);
      r.Some? &&
      match At(j, path).value
      case Str(s) => Leaf(engine, s) == Success(r.value) && (!HasDelimiter(s) ==> r.value == Str(s))
      case Arr(items) => r.value.Arr? && |r.value.items| == |items|
      case Obj(fields) => r.value.Obj? && r.value.fields.Keys == fields.Keys
      case x => r.value == x
  {
    if path != [] {
      match j
      case Arr(items) => ReplacedAtEveryPath(engine, items[path[0].index], path[1..]);
      case Obj(fields) => ReplacedAtEveryPath(engine, fields[path[0].name], path[1..]);
    }
  }

  /** And nothing new stands anywhere but inside the value of a replaced string. */
  lemma {:induction false} NothingElseAppears<E>(engine: Engine<E>, j: Json, path: Path)
    requires Evaluates(engine, j) && At(Replaced(engine, j), path).Some? && At(j, path).None?
    ensures exists n :: 0 <= n < |path| && IsLeaf(j, path[..n])
  {
    match j
    case Str(_) => assert IsLeaf(j, path[..0]);
    case Arr(items) =>
      NothingElseAppears(engine, items[path[0].index], path[1..]);
      DeeperLeaf(j, items[path[0].index], path);
    case Obj(fields) =>
      NothingElseAppears(engine, fields[path[0].name], path[1..]);
      DeeperLeaf(j, fields[path[0].name], path);
  }

  lemma {:induction false} DeeperLeaf(j: Json, child: Json, path: Path)
    requires path != [] && At(j, path[..1]) == Some(child)
    requires exists n :: 0 <= n < |path[1..]| && IsLeaf(child, path[1..][..n])
    ensures exists n :: 0 <= n < |path| && IsLeaf(j, path[..n])
  {
    var n :| 0 <= n < |path[1..]| && IsLeaf(child, path[1..][..n]);
    assert path[..n + 1][1..] == path[1..][..n] && path[..n + 1][0] == path[0] == path[..1][0];
    assert IsLeaf(j, path[..n + 1]);
  }

  /** No string leaf contains a start delimiter. */
  ghost predicate Plain(j: Json)
  {
    match j
    case Str(s) => !HasDelimiter(s)
    case Arr(items) => forall x <- items :: Plain(x)
    case Obj(fields) => forall k <- fields :: Plain(fields[k])
    case _ => true
  }

  /** A document without expressions evaluates to itself, whatever its strings
      could be parsed as. */
  lemma {:induction false} PlainDocumentsUnchanged<E>(engine: Engine<E>, j: Json)
    requires Plain(j)
    ensures Evaluates(engine, j) && Replaced(engine, j) == j
    decreases j
  {
    match j
    case Arr(items) =>
      forall x <- items
        ensures Evaluates(engine, x) && Replaced(engine, x) == x
      {
        PlainDocumentsUnchanged(engine, x);
      }
      assert Replaced(engine, j).items == items;
    case Obj(fields) =>
      forall k <- fields
        ensures Evaluates(engine, fields[k]) && Replaced(engine, fields[k]) == fields[k]
      {
        PlainDocumentsUnchanged(engine, fields[k]);
      }
      assert Replaced(engine, j).fields == fields;
    case _ =>
  }

  lemma {:induction false} QuotedTextsAreStrings<E>(engine: Engine<E>, inner: string)
    ensures Read(engine, "\"" + inner + "\"") == Str(inner)
    ensures Read(engine, "\"" + inner + "\"" + "\n") == Str(inner + "\n")
  {
    var q := "\"" + inner + "\"";
    assert q[|q| - 1] == '"' && q[1..|q| - 1] == inner;
    assert inner + "" == inner;
    var n := q + "\n";
    assert n[|n| - 1] == '\n' && n[..|n| - 1] == q;
  }

  /** What a leaf becomes that is one expression and a text after it. */
  lemma {:induction false} ExpressionLeaf<E>(
    engine: Engine<E>, d: Delimiters, expression: string, value: string, tail: string)
    requires expression != "" && Closes(d, expression) && NoStart(tail)
    requires engine.eval(expression) == Success(value)
    ensures Leaf(engine, Piece("", d, expression) + tail) == Success(Read(engine, value + tail))
  {
    MeaningOfOne(d, expression, value, tail, engine.eval);
    StartsWithDelimiter(d, expression, tail);
  }

  lemma {:induction false} StartsWithDelimiter(d: Delimiters, expression: string, tail: string)
    ensures HasDelimiter(Piece("", d, expression) + tail)
  {
    assert OccursAt(Piece("", d, expression) + tail, d.Start(), 0);
  }

  /** An expression whose value is enclosed in quotes makes the leaf the text
      between the quotes as it stands, escapes and all, never a number, a boolean
      or JSON, with or without a final newline after it. */
  lemma {:induction false} QuotedExpressionsAreStrings<E>(
    engine: Engine<E>, d: Delimiters, expression: string, inner: string)
    requires expression != "" && Closes(d, expression)
    requires engine.eval(expression) == Success("\"" + inner + "\"")
    ensures Leaf(engine, Piece("", d, expression)) == Success(Str(inner))
    ensures Leaf(engine, Piece("", d, expression) + "\n") == Success(Str(inner + "\n"))
  {
    var value := "\"" + inner + "\"";
    QuotedTextsAreStrings(engine, inner);
    ExpressionLeaf(engine, d, expression, value, "");
    assert value + "" == value && Piece("", d, expression) + "" == Piece("", d, expression);
    ExpressionLeaf(engine, d, expression, value, "\n");
  }

  /** No reading of the text, without its final newline, makes anything else of it. */
  predicate Verbatim<E>(engine: Engine<E>, text: string)
  {
    var bare := if text != "" && text[|text| - 1] == '\n' then text[..|text| - 1] else text;
    && !Quoted(bare) && engine.parseNumber(bare).None? && engine.parseBool(bare).None?
    && (engine.parseJson(bare).None? || engine.parseJson(bare) == Some(Str(text)))
  }

  lemma {:induction false} ReadVerbatimExactly<E>(engine: Engine<E>, text: string)
    ensures Read(engine, text) == Str(text) <==> Verbatim(engine, text)
  {
  }

  lemma {:induction false} PrintedHasDelimiter(segments: seq<Segment>, tail: string)
    requires segments != []
    ensures HasDelimiter(Print(segments, tail))
  {
    var s := segments[0];
    var rest := s.expression + s.delimiters.End() + Print(segments[1..], tail);
    assert Print(segments, tail) == s.before + s.delimiters.Start() + rest;
    assert OccursAt(Print(segments, tail), s.delimiters.Start(), |s.before|);
  }

  /** A leaf with expressions becomes its text with their values put in, as a
      string, exactly if no reading makes anything else of that text. */
  lemma {:induction false} SubstitutionIsVerbatimExactly<E>(
    engine: Engine<E>, segments: seq<Segment>, tail: string, text: string)
    requires segments != [] && (forall s <- segments :: s.Legal()) && NoStart(tail)
    requires Render(segments, Success(tail), engine.eval) == Success(text)
    ensures Leaf(engine, Print(segments, tail)) == Success(Str(text)) <==> Verbatim(engine, text)
  {
    LeafOfPrinted(engine, segments, tail, text);
    ReadVerbatimExactly(engine, text);
  }

  lemma {:induction false} ReadsExactly<E>(engine: Engine<E>, bare: string, newline: string)
    requires newline == "\n" || (newline == "" && (bare == "" || bare[|bare| - 1] != '\n'))
    ensures Read(engine, bare + newline) ==
      if |bare| > 1 && bare[0] == '"' == bare[|bare| - 1] then Str(bare[1..|bare| - 1] + newline)
      else if engine.parseNumber(bare).Some? then Number(engine.parseNumber(bare).value)
      else if engine.parseBool(bare).Some? then Bool(engine.parseBool(bare).value)
      else if engine.parseJson(bare).Some? then engine.parseJson(bare).value
      else Str(bare + newline)
  {
    var text := bare + newline;
    assert newline == "\n" ==> text[|text| - 1] == '\n' && text[..|text| - 1] == bare;
    assert newline == "" ==> text == bare;
  }

  /** How a leaf with expressions is read, from its text with their values put in,
      apart from a final newline: what stands between quotes if it is quoted, else
      the number if it is one, whatever else it is, else the boolean, else the JSON
      document, and else the whole text. */
  lemma {:induction false} LeafReadsExactly<E>(
    engine: Engine<E>, segments: seq<Segment>, tail: string, bare: string, newline: string)
    requires segments != [] && (forall s <- segments :: s.Legal()) && NoStart(tail)
    requires newline == "\n" || (newline == "" && (bare == "" || bare[|bare| - 1] != '\n'))
    requires Render(segments, Success(tail), engine.eval) == Success(bare + newline)
    ensures Leaf(engine, Print(segments, tail)) == Success(
      if |bare| > 1 && bare[0] == '"' == bare[|bare| - 1] then Str(bare[1..|bare| - 1] + newline)
      else if engine.parseNumber(bare).Some? then Number(engine.parseNumber(bare).value)
      else if engine.parseBool(bare).Some? then Bool(engine.parseBool(bare).value)
      else if engine.parseJson(bare).Some? then engine.parseJson(bare).value
      else Str(bare + newline))
  {
    LeafOfPrinted(engine, segments, tail, bare + newline);
    ReadsExactly(engine, bare, newline);
  }

  lemma {:induction false} LeafOfPrinted<E>(engine: Engine<E>, segments: seq<Segment>, tail: string, text: string)
    requires segments != [] && (forall s <- segments :: s.Legal()) && NoStart(tail)
    requires Render(segments, Success(tail), engine.eval) == Success(text)
    ensures Leaf(engine, Print(segments, tail)) == Success(Read(engine, text))
  {
    MeaningOfPrinted(segments, tail, engine.eval);
    PrintedHasDelimiter(segments, tail);
  }
}
