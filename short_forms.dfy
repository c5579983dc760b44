/** The parameter and type-parameter records nested in the encoded element
    (`EncodedElement.Param`, `EncodedElement.TypeParam`), with their short
    text forms `name: Type` and `T: A & B`: how they are read from a line of
    text and how they print. */
module ShortForms {
  import opened Text
  import opened Collaborators

  /** Why reading a short form fails. In the source each is an exception:
      a missing `:` is an index out of bounds on the split parts, a parser
      failure propagates from the parser, and a bound that is not a
      `Type.Defined` fails its cast. */
  datatype Error =
    | MissingColon
    | TypeParseError(text: string)
    | NotDefinedType(text: string)

  datatype Result<T> = Ok(value: T) | Err(error: Error)

  /** A formal parameter: a name and a type. */
  datatype Param = Param(name: string, ty: Type)

  /** A generic parameter: a name and its bounds. The source types the bounds
      as `List<Type.Defined>`; here they are plain `Type`s, and that each
      one is a defined type is known only from the parser's `isDefined`
      flag at the point where it was read (`ParseBound`). */
  datatype TypeParam = TypeParam(name: string, bounds: seq<Type>)

  /** `Param.toString()`: the name, `": "`, and the type's own text. */
  function ParamToString(p: Param, show: Type -> string): (r: string)
    ensures ':' !in p.name ==> |Split(r, ':')| >= 2 && Split(r, ':')[0] == p.name
  {
    var rest := " " + show(p.ty);
    assert p.name + ": " + show(p.ty) == p.name + [':'] + rest;
    assert ':' !in p.name ==> Split(p.name + [':'] + rest, ':') == [p.name] + Split(rest, ':') by {
      if ':' !in p.name { SplitAfterFirst(p.name, ':', rest); }
    }
    p.name + [':'] + rest
  }

  /** `Param.from(input, parser)`: the trimmed text before the first `:` is
      the name, the trimmed text between the first and the second `:` is
      handed to the parser; later `:`-pieces are never looked at. */
  function ParamFrom(input: string, parser: Parser): (r: Result<Param>)
    ensures r.Ok? ==> IsTrimmed(r.value.name) && ':' !in r.value.name
  {
    var parts := SplitTrimmed(input, ':');
    if |parts| < 2 then Err(MissingColon)
    else
      assert ':' !in parts[0] by {
        if ':' in parts[0] { TrimKeeps(Split(input, ':')[0], ':'); }
      }
      match parser(parts[1])
      case Failed => Err(TypeParseError(parts[1]))
      case Parsed(t, _) => Ok(Param(parts[0], t))
  }

  /** The texts of the bounds, in order. */
  function BoundTexts(bounds: seq<Type>, show: Type -> string): (r: seq<string>)
    ensures |r| == |bounds|
    ensures forall i :: 0 <= i < |bounds| ==> r[i] == show(bounds[i])
  {
    seq(|bounds|, i requires 0 <= i < |bounds| => show(bounds[i]))
  }

  /** `TypeParam.toString()`: the name, `": "`, and the bounds joined with
      `" & "`. The `": "` is written even when there are no bounds. */
  function TypeParamToString(tp: TypeParam, show: Type -> string): (r: string)
    ensures ':' !in tp.name ==> |Split(r, ':')| >= 2 && Split(r, ':')[0] == tp.name
  {
    var rest := " " + Join(BoundTexts(tp.bounds, show), " & ");
    assert tp.name + ": " + Join(BoundTexts(tp.bounds, show), " & ") == tp.name + [':'] + rest;
    assert ':' !in tp.name ==> Split(tp.name + [':'] + rest, ':') == [tp.name] + Split(rest, ':') by {
      if ':' !in tp.name { SplitAfterFirst(tp.name, ':', rest); }
    }
    tp.name + [':'] + rest
  }

  /** The parser accepts `text` as a defined (nominal) type. */
  predicate DefinedAt(parser: Parser, text: string) {
    parser(text).Parsed? && parser(text).isDefined
  }

  /** `(Type.Defined) parser.parse(text)` for one bound. */
  function ParseBound(text: string, parser: Parser): (r: Result<Type>)
    ensures r.Ok? <==> DefinedAt(parser, text)
    ensures r.Ok? ==> r.value == parser(text).ty
  {
    match parser(text)
    case Failed => Err(TypeParseError(text))
    case Parsed(t, defined) => if defined then Ok(t) else Err(NotDefinedType(text))
  }

  /** The bounds read from the `&`-pieces left to right; the first piece
      that does not parse to a defined type decides the error. */
  function ParseBounds(pieces: seq<string>, parser: Parser): (r: Result<seq<Type>>)
    ensures r.Ok? ==> |r.value| == |pieces|
  {
    if pieces == [] then Ok([])
    else
      match ParseBounds(pieces[..|pieces| - 1], parser)
      case Err(e) => Err(e)
      case Ok(bounds) =>
        match ParseBound(pieces[|pieces| - 1], parser)
        case Err(e) => Err(e)
        case Ok(t) => Ok(bounds + [t])
  }

  /** `TypeParam.from` as a function of the input and the parser it builds. */
  function TypeParamOf(input: string, parser: Parser): (r: Result<TypeParam>)
    ensures r.Ok? ==> IsTrimmed(r.value.name) && ':' !in r.value.name
  {
    var parts := SplitTrimmed(input, ':');
    assert ':' !in parts[0] by {
      if ':' in parts[0] { TrimKeeps(Split(input, ':')[0], ':'); }
    }
    if |parts| == 1 then Ok(TypeParam(parts[0], []))
    else
      match ParseBounds(SplitTrimmed(parts[1], '&'), parser)
      case Err(e) => Err(e)
      case Ok(bounds) => Ok(TypeParam(parts[0], bounds))
  }

  /** `TypeParam.from(input, typeFactory, typeParameters)`: names the
      parameter after the first `:`-piece, returns at once when there is no
      `:`, and otherwise builds a parser and adds one bound per `&`-piece
      of the second `:`-piece, stopping at the first one that fails. */
  method TypeParamFrom(input: string, typeFactory: TypeFactory, typeParameters: TypeParameters,
                       newParser: ParserConstructor)
    returns (r: Result<TypeParam>)
    ensures r == TypeParamOf(input, newParser(typeFactory, typeParameters))
  {
    var parts := SplitTrimmed(input, ':');
    var name := parts[0];
    if |parts| == 1 {
      return Ok(TypeParam(name, []));
    }
    var parser := newParser(typeFactory, typeParameters);
    var pieces := SplitTrimmed(parts[1], '&');
    var bounds: seq<Type> := [];
    var i := 0;
    while i < |pieces|
      invariant 0 <= i <= |pieces|
      invariant ParseBounds(pieces[..i], parser) == Ok(bounds)
    {
      var bound := ParseBound(pieces[i], parser);
      ParseBoundsExtend(pieces, i, bounds, parser);
      if bound.Err? {
        ParseBoundsKeepsFirstError(pieces, i + 1, parser);
        return Err(bound.error);
      }
      bounds := bounds + [bound.value];
      i := i + 1;
    }
    assert pieces[..i] == pieces;
    return Ok(TypeParam(name, bounds));
  }

  /** One more piece after a prefix whose bounds parsed. */
  lemma ParseBoundsExtend(pieces: seq<string>, i: nat, bounds: seq<Type>, parser: Parser)
    requires i < |pieces| && ParseBounds(pieces[..i], parser) == Ok(bounds)
    ensures ParseBounds(pieces[..i + 1], parser) ==
      match ParseBound(pieces[i], parser)
      case Err(e) => Err(e)
      case Ok(t) => Ok(bounds + [t])
  {
    assert pieces[..i + 1][..i] == pieces[..i];
  }

  /** Once a prefix of the pieces fails, the whole list fails the same way. */
  lemma {:induction false} ParseBoundsKeepsFirstError(pieces: seq<string>, k: nat, parser: Parser)
    requires k <= |pieces| && ParseBounds(pieces[..k], parser).Err?
    ensures ParseBounds(pieces, parser) == ParseBounds(pieces[..k], parser)
    decreases |pieces|
  {
    if k < |pieces| {
      var init := pieces[..|pieces| - 1];
      assert init[..k] == pieces[..k];
      ParseBoundsKeepsFirstError(init, k, parser);
    } else {
      assert pieces[..k] == pieces;
    }
  }

  /** The bounds parse exactly when every piece parses to a defined type;
      then there is one bound per piece, in order; otherwise the error is
      that of the first piece that does not. */
  lemma {:induction false} ParseBoundsMeaning(pieces: seq<string>, parser: Parser)
    ensures ParseBounds(pieces, parser).Ok? <==> forall i :: 0 <= i < |pieces| ==> DefinedAt(parser, pieces[i])
    ensures ParseBounds(pieces, parser).Ok? ==>
      var bounds := ParseBounds(pieces, parser).value;
      |bounds| == |pieces| && forall i :: 0 <= i < |pieces| ==> bounds[i] == parser(pieces[i]).ty
    ensures ParseBounds(pieces, parser).Err? ==>
      exists k :: 0 <= k < |pieces| && !DefinedAt(parser, pieces[k])
        && (forall j :: 0 <= j < k ==> DefinedAt(parser, pieces[j]))
        && ParseBounds(pieces, parser).error == ParseBound(pieces[k], parser).error
  {
    if pieces != [] {
      var n := |pieces| - 1;
      var init := pieces[..n];
      ParseBoundsMeaning(init, parser);
      assert forall i :: 0 <= i < n ==> init[i] == pieces[i];
      var head := ParseBounds(init, parser);
      if head.Err? {
        assert ParseBounds(pieces, parser) == head;
        var k :| 0 <= k < n && !DefinedAt(parser, init[k])
          && (forall j :: 0 <= j < k ==> DefinedAt(parser, init[j]))
          && head.error == ParseBound(init[k], parser).error;
        assert !DefinedAt(parser, pieces[k]);
      } else {
        var last := ParseBound(pieces[n], parser);
        if last.Err? {
          assert ParseBounds(pieces, parser) == Err(last.error);
          assert forall j :: 0 <= j < n ==> DefinedAt(parser, pieces[j]);
        } else {
          assert ParseBounds(pieces, parser) == Ok(head.value + [last.value]);
        }
      }
    }
  }

  /** Parameter text without a `:` is refused. */
  lemma ParamFromNoColon(input: string, parser: Parser)
    requires ':' !in input
    ensures ParamFrom(input, parser) == Err(MissingColon)
  {
    SplitWithout(input, ':');
  }

  /** Splitting `a : b` with `tail` either empty or starting with another
      `:`: `a` and `b` are the first two pieces. */
  lemma FirstTwoPieces(a: string, b: string, tail: string)
    requires ':' !in a && ':' !in b && (tail == [] || tail[0] == ':')
    ensures |Split(a + [':'] + b + tail, ':')| >= 2
    ensures Split(a + [':'] + b + tail, ':')[0] == a
    ensures Split(a + [':'] + b + tail, ':')[1] == b
  {
    assert a + [':'] + b + tail == a + [':'] + (b + tail);
    SplitAfterFirst(a, ':', b + tail);
    if tail == [] {
      assert b + tail == b;
      SplitWithout(b, ':');
    } else {
      assert b + tail == b + [':'] + tail[1..];
      SplitAfterFirst(b, ':', tail[1..]);
    }
  }

  /** `Param.from` on `a : b` followed by nothing or by further `:`-pieces:
      the name is `a` trimmed, the type is what the parser makes of `b`
      trimmed, and whatever follows the second `:` is ignored. */
  lemma ParamFromPieces(a: string, b: string, tail: string, parser: Parser)
    requires ':' !in a && ':' !in b && (tail == [] || tail[0] == ':')
    ensures ParamFrom(a + [':'] + b + tail, parser) ==
      match parser(Trim(b))
      case Failed => Err(TypeParseError(Trim(b)))
      case Parsed(t, _) => Ok(Param(Trim(a), t))
  {
    FirstTwoPieces(a, b, tail);
  }

  /** A parameter printed by `toString` reads back as itself, when its
      name is trimmed and free of `:`, and the parser gives back its type
      from its trimmed, `:`-free text. */
  lemma ParamRoundTrip(p: Param, show: Type -> string, parser: Parser)
    requires IsTrimmed(p.name) && ':' !in p.name
    requires ':' !in show(p.ty)
    requires parser(Trim(show(p.ty))).Parsed? && parser(Trim(show(p.ty))).ty == p.ty
    ensures ParamFrom(ParamToString(p, show), parser) == Ok(p)
  {
    var text := show(p.ty);
    assert ParamToString(p, show) == p.name + [':'] + (" " + text) + [];
    ParamFromPieces(p.name, " " + text, [], parser);
    assert " " + text == " " + text + [];
    TrimIgnoresMargins(" ", text, []);
    TrimTrimmed(p.name);
  }

  /** Type-parameter text without a `:` has no bounds; its name is the trimmed text. */
  lemma TypeParamNoColon(input: string, parser: Parser)
    requires ':' !in input
    ensures TypeParamOf(input, parser) == Ok(TypeParam(Trim(input), []))
  {
    SplitWithout(input, ':');
  }

  /** `TypeParam.from` on `a : b` followed by nothing or by further
      `:`-pieces: the name is `a` trimmed; it succeeds exactly when every
      trimmed `&`-piece of `b` parses to a defined type, and then there is
      one bound per piece, in input order. */
  lemma TypeParamPieces(a: string, b: string, tail: string, parser: Parser)
    requires ':' !in a && ':' !in b && (tail == [] || tail[0] == ':')
    ensures var r := TypeParamOf(a + [':'] + b + tail, parser);
      var pieces := SplitTrimmed(b, '&');
      && (r.Ok? <==> forall i :: 0 <= i < |pieces| ==> DefinedAt(parser, pieces[i]))
      && (r.Ok? ==> r.value.name == Trim(a) && |r.value.bounds| == |pieces|
                    && forall i :: 0 <= i < |pieces| ==> r.value.bounds[i] == parser(pieces[i]).ty)
  {
    FirstTwoPieces(a, b, tail);
    SplitTrimmedIgnoresMargins(b, '&');
    ParseBoundsMeaning(SplitTrimmed(b, '&'), parser);
  }

  /** The `&`-pieces of `" " + Join(texts, " & ")`: each text with one space
      before it, and one after it unless it is the last. */
  ghost function Padded(texts: seq<string>): (r: seq<string>)
    ensures |r| == |texts|
    ensures forall i :: 0 <= i < |texts| ==> r[i] == " " + texts[i] + (if i < |texts| - 1 then " " else "")
  {
    if texts == [] then []
    else if |texts| == 1 then [" " + texts[0]]
    else [" " + texts[0] + " "] + Padded(texts[1..])
  }

  lemma {:induction false} JoinPadded(texts: seq<string>)
    requires texts != []
    ensures " " + Join(texts, " & ") == Join(Padded(texts), "&")
  {
    if |texts| > 1 {
      JoinPadded(texts[1..]);
      assert Padded(texts)[1..] == Padded(texts[1..]);
    }
  }

  lemma SplitPadded(texts: seq<string>)
    requires texts != []
    requires forall i :: 0 <= i < |texts| ==> '&' !in texts[i]
    ensures Split(" " + Join(texts, " & "), '&') == Padded(texts)
  {
    JoinPadded(texts);
    var padded := Padded(texts);
    forall i | 0 <= i < |padded|
      ensures '&' !in padded[i]
    {
      assert padded[i] == " " + texts[i] + (if i < |texts| - 1 then " " else "");
    }
    SplitJoin(padded, '&');
  }

  /** The `&`-pieces of joined bound texts, trimmed, are the texts trimmed. */
  lemma JoinedTextsSplitBack(texts: seq<string>)
    requires texts != []
    requires forall i :: 0 <= i < |texts| ==> '&' !in texts[i]
    ensures SplitTrimmed(" " + Join(texts, " & "), '&') == TrimAll(texts)
  {
    SplitPadded(texts);
    var pieces := SplitTrimmed(" " + Join(texts, " & "), '&');
    forall i | 0 <= i < |pieces|
      ensures pieces[i] == Trim(texts[i])
    {
      TrimPaddedAt(texts, i);
    }
  }

  lemma TrimPaddedAt(texts: seq<string>, i: nat)
    requires i < |texts|
    ensures Trim(Padded(texts)[i]) == Trim(texts[i])
  {
    var pad := if i < |texts| - 1 then " " else "";
    assert Padded(texts)[i] == " " + texts[i] + pad;
    TrimIgnoresMargins(" ", texts[i], pad);
  }

  /** A type parameter with at least one bound, printed by `toString`,
      reads back as itself, when its name is trimmed and free of `:`, no
      bound's text holds a `:` or a `&`, and the parser gives back each
      bound, as a defined type, from its trimmed text. */
  lemma TypeParamRoundTrip(tp: TypeParam, show: Type -> string, parser: Parser)
    requires tp.bounds != []
    requires IsTrimmed(tp.name) && ':' !in tp.name
    requires forall i :: 0 <= i < |tp.bounds| ==>
      var text := show(tp.bounds[i]);
      ':' !in text && '&' !in text && parser(Trim(text)) == Parsed(tp.bounds[i], true)
    ensures TypeParamOf(TypeParamToString(tp, show), parser) == Ok(tp)
  {
    var texts := BoundTexts(tp.bounds, show);
    var joined := Join(texts, " & ");
    assert TypeParamToString(tp, show) == tp.name + [':'] + (" " + joined) + [];
    TypeParamPieces(tp.name, " " + joined, [], parser);
    JoinedTextsSplitBack(texts);
    TrimTrimmed(tp.name);
    var r := TypeParamOf(TypeParamToString(tp, show), parser);
    assert r.Ok?;
    assert r.value.bounds == tp.bounds;
  }

  /** A type parameter without bounds does not read back as itself: its
      text still ends in `": "`, so reading it parses the empty text as a
      single bound. */
  lemma BoundlessTypeParamText(name: string, show: Type -> string, parser: Parser)
    requires IsTrimmed(name) && ':' !in name
    ensures TypeParamToString(TypeParam(name, []), show) == name + ": "
    ensures var r := TypeParamOf(TypeParamToString(TypeParam(name, []), show), parser);
      && (r.Ok? <==> DefinedAt(parser, ""))
      && (r.Ok? ==> r.value == TypeParam(name, [parser("").ty]))
      && r != Ok(TypeParam(name, []))
  {
    assert name + ": " == name + [':'] + " " + [];
    TypeParamPieces(name, " ", [], parser);
    SplitWithout(" ", '&');
    assert Trim(" ") == [] by { AllWhitespaceTrimStart(" "); }
    assert SplitTrimmed(" ", '&') == [[]];
    TrimTrimmed(name);
  }
}
