/** Templates with embedded expressions (pkg/expressions/json_templates.go): the
    scanner that finds the next expression, and the loop that replaces each by
    its value. A string is a sequence of bytes. */
module Templates {
  import opened Results
  import opened Strings

  datatype Delimiters = Braces | Percents
  {
    function Start(): string { if Braces? then "${{" else "${%" }
    function End(): string { if Braces? then "}}" else "%}" }
  }

  datatype ScanError = Unclosed(expected: string)
  datatype Scan = Scan(before: string, expression: string, after: string)

  /** The delimiters that start leftmost in the template, and where. */
  function Leftmost(template: string): (r: Option<(Delimiters, nat)>)
    ensures r.None? ==> NoStart(template)
    ensures r.Some? ==> OccursAt(template, r.value.0.Start(), r.value.1)
    ensures r.Some? ==> forall d: Delimiters, k :: 0 <= k < r.value.1 ==> !OccursAt(template, d.Start(), k)
  {
    var b, p := Index(template, Braces.Start()), Index(template, Percents.Start());
    if b >= 0 && (p < 0 || b <= p) then Some((Braces, b))
    else if p >= 0 then Some((Percents, p))
    else None
  }

  /** The expression between delimiters that start at i. */
  function ScanAt(template: string, d: Delimiters, i: nat): (r: Result<Scan, ScanError>)
    requires i + 3 <= |template|
    ensures r.Success? ==>
      r.value.before == template[..i] && template[i + 3..] == r.value.expression + d.End() + r.value.after
    ensures r.Success? ==> |r.value.expression| == Index(template[i + 3..], d.End())
  {
    var tail := template[i + 3..];
    var rel := Index(tail, d.End());
    if rel < 0 then Failure(Unclosed(d.End()))
    else
      assert tail == tail[..rel] + tail[rel..rel + 2] + tail[rel + 2..];
      Success(Scan(template[..i], tail[..rel], tail[rel + 2..]))
  }

  /** nextExpression. */
  function NextExpression(template: string): (r: Result<Scan, ScanError>)
    ensures r.Success? && r.value.expression != "" ==> |r.value.after| < |template|
  {
    match Leftmost(template)
    case None => Success(Scan("", "", template))
    case Some((d, i)) => ScanAt(template, d, i)
  }

  // ----- What scanning finds

  ghost predicate NoStart(s: string)
  {
    forall d: Delimiters, k :: 0 <= k ==> !OccursAt(s, d.Start(), k)
  }

  /** The expression ends exactly where its text ends. */
  ghost predicate Closes(d: Delimiters, expression: string)
  {
    forall k :: 0 <= k < |expression| ==> !OccursAt(expression + d.End(), d.End(), k)
  }

  /** An expression is closed properly exactly if it does not contain its end
      delimiter and, between braces, does not end in a brace. */
  lemma {:induction false} ClosesExactly(d: Delimiters, expression: string)
    ensures Closes(d, expression) <==>
      !Contains(expression, d.End())
      && (d.Braces? && expression != "" ==> expression[|expression| - 1] != '}')
  {
    var e := expression + d.End();
    forall k | 0 <= k <= |expression| - 2
      ensures OccursAt(e, d.End(), k) <==> OccursAt(expression, d.End(), k)
    {
      assert e[k..k + 2] == expression[k..k + 2];
    }
    if expression != "" {
      var k := |expression| - 1;
      assert e[k..k + 2] == [expression[k], d.End()[0]];
      assert d.Percents? ==> d.End()[0] == '%' && d.End()[1] == '}';
      assert OccursAt(e, d.End(), k) <==> d.Braces? && expression[k] == '}';
    }
    if Contains(expression, d.End()) {
      assert OccursAt(expression, d.End(), Index(expression, d.End()));
    }
  }

  function Piece(before: string, d: Delimiters, expression: string): string
  {
    before + d.Start() + expression + d.End()
  }

  /** A start delimiter cannot straddle the end of a text that has none and the
      delimiter that follows: its dollar sign comes first. */
  lemma {:induction false} NoStraddle(before: string, d: Delimiters, rest: string)
    requires NoStart(before)
    ensures forall e: Delimiters, k :: 0 <= k < |before| ==> !OccursAt(before + d.Start() + rest, e.Start(), k)
  {
    var t := before + d.Start() + rest;
    forall e: Delimiters, k | 0 <= k < |before|
      ensures !OccursAt(t, e.Start(), k)
    {
      if k + 3 <= |before| {
        assert before[k..k + 3] == t[k..k + 3];
        assert !OccursAt(before, e.Start(), k);
      } else if k + 3 <= |t| {
        assert t[|before|] == '$';
        assert t[k..k + 3][|before| - k] == '$';
      }
    }
  }

  lemma {:induction false} LeftmostIs(template: string, d: Delimiters, i: nat)
    requires OccursAt(template, d.Start(), i)
    requires forall e: Delimiters, k :: 0 <= k < i ==> !OccursAt(template, e.Start(), k)
    ensures Leftmost(template) == Some((d, i))
  {
    var found := Leftmost(template);
    assert found.Some?;
    var (e, j) := found.value;
    assert j == i;
    assert e.Start() == template[i..i + 3] == d.Start();
  }

  /** The end delimiter is found right after an expression exactly if it closes. */
  lemma {:induction false} EndFound(d: Delimiters, expression: string, rest: string)
    ensures 0 <= Index(expression + d.End() + rest, d.End()) <= |expression|
    ensures Index(expression + d.End() + rest, d.End()) == |expression| <==> Closes(d, expression)
  {
    var e, tail := expression + d.End(), expression + d.End() + rest;
    forall k | 0 <= k <= |expression|
      ensures OccursAt(tail, d.End(), k) <==> OccursAt(e, d.End(), k)
    {
      assert tail[k..k + 2] == e[k..k + 2];
    }
    assert e[|expression|..|expression| + 2] == d.End();
    assert OccursAt(tail, d.End(), |expression|);
    if Closes(d, expression) {
      IndexIs(tail, d.End(), |expression|);
    } else {
      var k :| 0 <= k < |expression| && OccursAt(e, d.End(), k);
      assert OccursAt(tail, d.End(), k);
    }
  }

  lemma {:induction false} LeftmostOfPiece(before: string, d: Delimiters, rest: string)
    requires NoStart(before)
    ensures Leftmost(before + d.Start() + rest) == Some((d, |before|))
  {
    var t := before + d.Start() + rest;
    NoStraddle(before, d, rest);
    assert t[|before|..|before| + 3] == d.Start();
    LeftmostIs(t, d, |before|);
  }

  lemma {:induction false} Slices(t: string, before: string, start: string, expression: string, end: string, rest: string)
    requires |start| == 3 && |end| == 2 && t == before + start + expression + end + rest
    ensures t == before + start + (expression + end + rest)
    ensures t[..|before|] == before
    ensures t[|before| + 3..] == expression + end + rest
    ensures t[|before| + 3..][..|expression|] == expression
    ensures t[|before| + 3..][|expression| + 2..] == rest
  {
  }

  /** Scanning undoes printing: a printed piece, preceded by a text without start
      delimiters, is found exactly if its expression closes properly. */
  lemma {:induction false} NextExpressionFinds(before: string, d: Delimiters, expression: string, rest: string)
    requires NoStart(before)
    ensures
      NextExpression(Piece(before, d, expression) + rest) == Success(Scan(before, expression, rest))
      <==> Closes(d, expression)
  {
    var t := Piece(before, d, expression) + rest;
    Slices(t, before, d.Start(), expression, d.End(), rest);
    LeftmostOfPiece(before, d, expression + d.End() + rest);
    assert NextExpression(t) == ScanAt(t, d, |before|);
    ScanAtFinds(t, before, d, expression, rest);
  }

  lemma {:induction false} ScanAtFinds(t: string, before: string, d: Delimiters, expression: string, rest: string)
    requires t == before + d.Start() + expression + d.End() + rest
    ensures ScanAt(t, d, |before|) == Success(Scan(before, expression, rest)) <==> Closes(d, expression)
  {
    Slices(t, before, d.Start(), expression, d.End(), rest);
    EndFound(d, expression, rest);
  }

  lemma {:induction false} NothingBeforeLeftmost(template: string, i: nat)
    requires i <= |template|
    requires forall d: Delimiters, k :: 0 <= k < i ==> !OccursAt(template, d.Start(), k)
    ensures NoStart(template[..i])
  {
    forall e: Delimiters, k | 0 <= k
      ensures !OccursAt(template[..i], e.Start(), k)
    {
      if k + 3 <= i {
        assert template[..i][k..k + 3] == template[k..k + 3];
        assert !OccursAt(template, e.Start(), k);
      }
    }
  }

  /** The scan is one piece of the template and what follows it. */
  ghost predicate Found(template: string, d: Delimiters, scan: Scan)
  {
    && template == Piece(scan.before, d, scan.expression) + scan.after
    && NoStart(scan.before)
    && Closes(d, scan.expression)
  }

  /** Conversely, whatever scanning finds rebuilds the template, leftmost first. */
  lemma {:induction false} NextExpressionRebuilds(template: string)
    ensures
      match NextExpression(template)
      case Success(scan) =>
        if NoStart(template) then scan == Scan("", "", template)
        else exists d: Delimiters :: Found(template, d, scan)
      case Failure(_) => !NoStart(template)
  {
    match Leftmost(template)
    case None =>
    case Some((d, i)) =>
      assert !NoStart(template);
      NothingBeforeLeftmost(template, i);
      if ScanAt(template, d, i).Success? {
        ScanAtRebuilds(template, d, i);
      }
  }

  lemma {:induction false} ScanAtRebuilds(template: string, d: Delimiters, i: nat)
    requires OccursAt(template, d.Start(), i) && NoStart(template[..i])
    requires ScanAt(template, d, i).Success?
    ensures Found(template, d, ScanAt(template, d, i).value)
  {
    var Scan(before, expression, after) := ScanAt(template, d, i).value;
    EndFound(d, expression, after);
    Reassemble(template, d, i, expression, after);
  }

  lemma {:induction false} Reassemble(template: string, d: Delimiters, i: nat, expression: string, after: string)
    requires i + 3 <= |template| && template[i..i + 3] == d.Start()
    requires template[i + 3..] == expression + d.End() + after
    ensures template == Piece(template[..i], d, expression) + after
  {
    assert template == template[..i] + template[i..i + 3] + template[i + 3..];
  }

  // ----- Whole templates

  datatype Segment = Segment(before: string, delimiters: Delimiters, expression: string)
  {
    ghost predicate Legal()
    {
      NoStart(before) && expression != "" && Closes(delimiters, expression)
    }
  }

  function Print(segments: seq<Segment>, tail: string): string
  {
    if segments == [] then tail
    else
      Piece(segments[0].before, segments[0].delimiters, segments[0].expression) + Print(segments[1..], tail)
  }

  /** What a template evaluates to, if its expressions evaluate: the text before
      each expression verbatim, the values in between, and the tail. The first
      expression that does not evaluate decides the error. */
  function Render<E>(
    segments: seq<Segment>, tail: Result<string, E>, eval: string -> Result<string, E>): Result<string, E>
  {
    if segments == [] then tail
    else
      match eval(segments[0].expression)
      case Failure(e) => Failure(e)
      case Success(v) => Prepend(segments[0].before + v, Render(segments[1..], tail, eval))
  }

  datatype EvalError<E> = UnclosedExpression(expected: string) | BadExpression(error: E)

  /** The meaning of a template, by repeated scanning. */
  function Meaning<E>(template: string, eval: string -> Result<string, EvalError<E>>): Result<string, EvalError<E>>
    decreases |template|
  {
    match NextExpression(template)
    case Failure(Unclosed(expected)) => Failure(UnclosedExpression(expected))
    case Success(Scan(before, expression, after)) =>
      if expression == "" then Success(before + after)
      else
        match eval(expression)
        case Failure(e) => Failure(e)
        case Success(v) => Prepend(before + v, Meaning(after, eval))
  }

  function Prepend<E>(prefix: string, r: Result<string, E>): Result<string, E>
  {
    match r
    case Success(s) => Success(prefix + s)
    case Failure(e) => Failure(e)
  }

  lemma {:induction false} PrependTwice<E>(a: string, b: string, r: Result<string, E>)
    ensures Prepend(a, Prepend(b, r)) == Prepend(a + b, r)
  {
    if r.Success? {
      assert a + (b + r.value) == (a + b) + r.value;
    }
  }

  lemma {:induction false} PrependNothing<E>(r: Result<string, E>)
    ensures Prepend("", r) == r
  {
    if r.Success? {
      assert "" + r.value == r.value;
    }
  }

  /** evaluateTemplate: the loop over a shrinking template. */
  method EvaluateTemplate<E>(template: string, eval: string -> Result<string, EvalError<E>>)
    returns (r: Result<string, EvalError<E>>)
    ensures r == Meaning(template, eval)
  {
    var result, rest := "", template;
    PrependNothing(Meaning(template, eval));
    while true
      invariant Prepend(result, Meaning(rest, eval)) == Meaning(template, eval)
      decreases |rest|
    {
      var next := NextExpression(rest);
      if next.Failure? {
        return Failure(UnclosedExpression(next.error.expected));
      }
      var Scan(before, expression, after) := next.value;
      if expression == "" {
        // No more expressions found
        assert result + (before + after) == (result + before) + after;
        result := result + before + after;
        break;
      }
      var evaluated := eval(expression);
      if evaluated.Failure? {
        return Failure(evaluated.error);
      }
      PrependTwice(result, before + evaluated.value, Meaning(after, eval));
      result := result + (before + evaluated.value);
      rest := after;
    }
    return Success(result);
  }

  /** The meaning of a printed template: literals verbatim, each expression
      replaced by its value, values never scanned again. The tail may be anything
      but more expressions. */
  lemma {:induction false} MeaningOfPrinted<E>(
    segments: seq<Segment>, tail: string, eval: string -> Result<string, EvalError<E>>)
    requires forall s <- segments :: s.Legal()
    ensures Meaning(Print(segments, tail), eval) == Render(segments, Meaning(tail, eval), eval)
    ensures NoStart(tail) ==> Meaning(tail, eval) == Success(tail)
  {
    if NoStart(tail) {
      NextExpressionRebuilds(tail);
      assert "" + tail == tail;
    }
    if segments != [] {
      var s := segments[0];
      assert s in segments;
      NextExpressionFinds(s.before, s.delimiters, s.expression, Print(segments[1..], tail));
      MeaningOfPrinted(segments[1..], tail, eval);
      assert Print(segments, tail) ==
        Piece(s.before, s.delimiters, s.expression) + Print(segments[1..], tail);
    }
  }

  /** In particular, of one expression and a text after it. */
  lemma {:induction false} MeaningOfOne<E>(
    d: Delimiters, expression: string, value: string, tail: string, eval: string -> Result<string, EvalError<E>>)
    requires expression != "" && Closes(d, expression) && NoStart(tail) && eval(expression) == Success(value)
    ensures Meaning(Piece("", d, expression) + tail, eval) == Success(value + tail)
  {
    MeaningOfPrinted([], tail, eval);
    NextExpressionFinds("", d, expression, tail);
    assert "" + value == value;
  }

  /** An empty expression silently ends the evaluation: its delimiters vanish and
      what follows, expressions included, is copied verbatim. */
  lemma {:induction false} EmptyExpressionStops<E>(
    before: string, d: Delimiters, after: string, eval: string -> Result<string, EvalError<E>>)
    requires NoStart(before)
    ensures Meaning(Piece(before, d, "") + after, eval) == Success(before + after)
  {
    NextExpressionFinds(before, d, "", after);
  }

  /** An evaluation that fails on the empty expression and on nothing else. */
  function OnlyEmptyFails<E>(): string -> Result<string, EvalError<E>>
  {
    expression => if expression == "" then Failure(UnclosedExpression("")) else Success("")
  }

  lemma {:induction false} EmptyGoesUnnoticed<E>(segments: seq<Segment>, tail: string)
    requires forall s <- segments :: NoStart(s.before) && Closes(s.delimiters, s.expression)
    requires NoStart(tail)
    ensures Meaning<E>(Print(segments, tail), OnlyEmptyFails()).Success?
    ensures Render<EvalError<E>>(segments, Success(tail), OnlyEmptyFails()).Success? <==>
      forall s <- segments :: s.expression != ""
  {
    if segments == [] {
      MeaningOfPrinted<E>([], tail, OnlyEmptyFails());
    } else {
      var s, rest := segments[0], segments[1..];
      assert s in segments && segments == [s] + rest;
      NextExpressionFinds(s.before, s.delimiters, s.expression, Print(rest, tail));
      EmptyGoesUnnoticed<E>(rest, tail);
    }
  }

  /** A printed template evaluates to its literals with every expression replaced,
      whatever the expressions evaluate to, exactly if none of them is empty. */
  lemma {:induction false} AllReplacedExactly<E>(segments: seq<Segment>, tail: string)
    requires forall s <- segments :: NoStart(s.before) && Closes(s.delimiters, s.expression)
    requires NoStart(tail)
    ensures
      (forall eval: string -> Result<string, EvalError<E>> ::
         Meaning(Print(segments, tail), eval) == Render(segments, Success(tail), eval))
      <==> forall s <- segments :: s.expression != ""
  {
    if forall s <- segments :: s.expression != "" {
      forall eval: string -> Result<string, EvalError<E>>
        ensures Meaning(Print(segments, tail), eval) == Render(segments, Success(tail), eval)
      {
        MeaningOfPrinted(segments, tail, eval);
      }
    } else {
      EmptyGoesUnnoticed<E>(segments, tail);
    }
  }

  /** Every template is a printed one: legal segments followed by a tail without
      start delimiters, or one that begins with an empty expression, which ends
      the evaluation there, or one that is unclosed. */
  lemma {:induction false} EveryTemplateIsPrinted(template: string) returns (segments: seq<Segment>, tail: string)
    ensures template == Print(segments, tail)
    ensures forall s <- segments :: s.Legal()
    ensures
      match NextExpression(tail)
      case Failure(_) => true
      case Success(scan) => scan.expression == ""
    decreases |template|
  {
    segments, tail := [], template;
    NextExpressionRebuilds(template);
    match NextExpression(template)
    case Failure(_) =>
    case Success(Scan(before, expression, after)) =>
      if expression != "" {
        var d: Delimiters :| Found(template, d, Scan(before, expression, after));
        var more;
        more, tail := EveryTemplateIsPrinted(after);
        segments := [Segment(before, d, expression)] + more;
        assert segments[1..] == more;
      }
  }
}
