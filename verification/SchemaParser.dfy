/** The schema parser's tokenizer, the engine's twin, and where the two agree. */
module SchemaParser {
  import opened Wrappers
  import opened Bytes
  import opened Grok
  import opened Cutting
  import opened Tokens
  import Types

  datatype SchemaError = Unbalanced | UnknownType(name: string)

  datatype PatternPart =
    | LiteralPart(text: string)
    | CapturePart(name: string, ty: Types.TypeName, grok: bool, field: Option<string>)

  function ParseType(s: string): Option<Types.TypeName> {
    if s == "int" then Some(Types.Int)
    else if s == "uint" then Some(Types.Uint)
    else if s == "float" then Some(Types.Float)
    else if s == "bool" then Some(Types.Bool)
    else if s == "string" then Some(Types.String)
    else if s == "ipv4" then Some(Types.Ipv4)
    else if s == "ipv6" then Some(Types.Ipv6)
    else if s == "ip" then Some(Types.Ip)
    else if s == "mac" then Some(Types.Mac)
    else if s == "timestamp" then Some(Types.Timestamp)
    else None
  }

  /** How a type is written. */
  function TypeWord(ty: Types.TypeName): string {
    match ty
    case Int => "int"
    case Uint => "uint"
    case Float => "float"
    case Bool => "bool"
    case String => "string"
    case Ipv4 => "ipv4"
    case Ipv6 => "ipv6"
    case Ip => "ip"
    case Mac => "mac"
    case Timestamp => "timestamp"
  }

  lemma TypeWordBack(ty: Types.TypeName)
    ensures ParseType(TypeWord(ty)) == Some(ty) && ':' !in TypeWord(ty)
  {}

  /** The ten words are the types, and no other text is one. */
  lemma TypeWordIff(s: string, ty: Types.TypeName)
    ensures ParseType(s) == Some(ty) <==> s == TypeWord(ty)
  {}

  /** `parse_capture`. */
  function ParsePart(content: string): Result<PatternPart, SchemaError> {
    var parts := Split(content, ':');
    if |parts| == 1 then Ok(CapturePart(parts[0], Types.String, true, None))
    else if |parts| == 2 then
      match ParseType(parts[1])
      case Some(ty) => Ok(CapturePart(parts[0], ty, false, None))
      case None => Ok(CapturePart(parts[0], Types.String, true, Some(parts[1])))
    else
      match ParseType(parts[2])
      case Some(ty) => Ok(CapturePart(parts[0], ty, true, Some(parts[1])))
      case None => Err(UnknownType(parts[2]))
  }

  function PartOf(p: Piece): Result<PatternPart, SchemaError> {
    match p
    case Lit(text) => Ok(LiteralPart(text))
    case Ref(content) => ParsePart(content)
  }

  function TokenizeSchema(s: string): Result<seq<PatternPart>, SchemaError> {
    ClassifyCuts(Cut(s), PartOf, Unbalanced)
  }

  /** A reference with more parts than the engine allows is read by its first three. */
  lemma LongReference(parts: seq<string>)
    requires |parts| >= 3 && forall k :: 0 <= k < |parts| ==> ':' !in parts[k]
    ensures ParsePart(Join(parts, ':')) ==
            if ParseType(parts[2]).Some? then Ok(CapturePart(parts[0], ParseType(parts[2]).value, true, Some(parts[1])))
            else Err(UnknownType(parts[2]))
  {
    hide ParseType, Join, Split;
    SplitJoin(parts, ':');
  }

  // ---- The scan ----

  /** The inner loop of `tokenize_pattern`: where the brace opened before `from` is closed again. */
  method ClosingBrace(input: string, from: nat) returns (depth: nat, j: nat)
    requires from <= |input|
    ensures Close(input[from..], 1) == if depth == 0 then Some(j - from) else None
    ensures depth == 0 ==> from < j <= |input|
  {
    hide Close;
    depth, j := 1, from;
    while j < |input| && depth > 0
      invariant from <= j <= |input| && (j == from ==> depth == 1)
      invariant var ahead := Close(input[j..], depth);
                Close(input[from..], 1) == if ahead.Some? then Some(ahead.value + j - from) else None
    {
      CloseNext(input, j, depth);
      match input[j] {
        case '{' => depth := depth + 1;
        case '}' => depth := depth - 1;
        case _ =>
      }
      j := j + 1;
    }
    CloseDone(input, j, depth);
  }

  /** `tokenize_pattern`: one pass, which stops at the first reference at fault. */
  method TokenizePattern(input: string) returns (r: Result<seq<PatternPart>, SchemaError>)
    ensures r == TokenizeSchema(input)
  {
    hide Cut, Ahead, Close, LitIfAny, All, PartOf, ParsePart;
    var parts: seq<PatternPart> := [];
    ghost var pieces: seq<Piece> := [];
    var i, literalStart := 0, 0;
    AheadStart(input);
    NoParts();
    while i < |input|
      invariant 0 <= literalStart <= i <= |input| && NoneOpens(input, literalStart, i)
      invariant Cut(input) == Ahead(input, pieces, literalStart) && All(pieces, PartOf) == Ok(parts)
      decreases |input| - i
    {
      if input[i] == '%' && i + 1 < |input| && input[i + 1] == '{' {
        ghost var text := input[literalStart..i];
        TreatedText(pieces, text);
        if i > literalStart {
          parts := parts + [LiteralPart(input[literalStart..i])];
        }
        var depth, j := ClosingBrace(input, i + 2);
        if depth != 0 {
          AheadUnclosed(input, pieces, literalStart, i);
          return Err(Unbalanced);
        }
        AheadFound(input, pieces, literalStart, i, j - (i + 2));
        var content := input[i + 2..j - 1];
        ghost var before := pieces + LitIfAny(text);
        pieces := before + [Ref(content)];
        TreatedPart(before, content);
        var part := ParsePart(content);
        if part.Err? {
          FaultDecides(input, pieces, j, PartOf, Unbalanced);
          return Err(part.error);
        }
        parts := parts + [part.value];
        i, literalStart := j, j;
      } else {
        i := i + 1;
      }
    }
    AheadEnd(input, pieces, literalStart);
    TreatedText(pieces, input[literalStart..]);
    if literalStart < |input| {
      parts := parts + [LiteralPart(input[literalStart..])];
    }
    return Ok(parts);
  }

  lemma NoParts()
    ensures All([], PartOf) == Ok([])
  {}

  lemma TreatedText(pieces: seq<Piece>, text: string)
    requires All(pieces, PartOf).Ok?
    ensures All(pieces + LitIfAny(text), PartOf) ==
            Ok(if text == "" then All(pieces, PartOf).value else All(pieces, PartOf).value + [LiteralPart(text)])
  {
    TreatedLit(pieces, text, PartOf, LiteralPart(text));
  }

  lemma TreatedPart(pieces: seq<Piece>, content: string)
    requires All(pieces, PartOf).Ok?
    ensures var all, part := All(pieces + [Ref(content)], PartOf), ParsePart(content);
            all == if part.Ok? then Ok(All(pieces, PartOf).value + [part.value]) else Err(part.error)
  {
    TreatedRef(pieces, Ref(content), PartOf);
  }

  // ---- The twins ----

  /** What each tokenizer asks of one piece. */
  predicate EngineTakes(p: Piece) {
    p.Ref? ==> |Split(p.content, ':')| <= 3
  }

  predicate SchemaTakes(p: Piece) {
    p.Ref? && |Split(p.content, ':')| > 2 ==> ParseType(Split(p.content, ':')[2]).Some?
  }

  lemma PieceTaken(p: Piece)
    ensures TokenOf(p).Ok? <==> EngineTakes(p)
    ensures PartOf(p).Ok? <==> SchemaTakes(p)
  {
    hide ParseType, Split;
  }

  /** The twins accept the same patterns but for the parts of a reference: at most three for the
      engine, a known type in third place for the schema. */
  lemma TwinsAccept(s: string)
    ensures Tokenize(s).Ok? <==>
            Cut(s).balanced && forall k :: 0 <= k < |Cut(s).pieces| ==> EngineTakes(Cut(s).pieces[k])
    ensures TokenizeSchema(s).Ok? <==>
            Cut(s).balanced && forall k :: 0 <= k < |Cut(s).pieces| ==> SchemaTakes(Cut(s).pieces[k])
  {
    var pieces := Cut(s).pieces;
    AllMeaning(pieces, TokenOf);
    AllMeaning(pieces, PartOf);
    forall p ensures (TokenOf(p).Ok? <==> EngineTakes(p)) && (PartOf(p).Ok? <==> SchemaTakes(p)) {
      PieceTaken(p);
    }
    hide Cut, TokenOf, PartOf, EngineTakes, SchemaTakes, All;
  }

  /** One reference read by both: the same name and output field, and a type where the engine has one
      or, in the native form, where the engine has the field. */
  predicate SameRef(t: Token, q: PatternPart) {
    && t.Capture? && q.CapturePart? && q.name == t.name
    && (q.grok <==> t.ty.Some? || t.field.None? || ParseType(t.field.value).None?)
    && (if q.grok then
          q.field == t.field && if t.ty.Some? then ParseType(t.ty.value) == Some(q.ty) else q.ty == Types.String
        else
          q.field == None && t.ty == None && t.field.Some? && ParseType(t.field.value) == Some(q.ty))
  }

  /** Where both accept they cut at the same places: literal for literal, reference for reference. */
  lemma TwinsAgree(s: string)
    requires Tokenize(s).Ok? && TokenizeSchema(s).Ok?
    ensures var ts, ps := Tokenize(s).value, TokenizeSchema(s).value;
            && |ts| == |ps|
            && forall k :: 0 <= k < |ts| ==>
                 if ts[k].Literal? then ps[k] == LiteralPart(ts[k].text) else SameRef(ts[k], ps[k])
  {
    AllMeaning(Cut(s).pieces, TokenOf);
    AllMeaning(Cut(s).pieces, PartOf);
    hide Cut, Split, ParseType;
    forall p, t, q | TokenOf(p) == Ok(t) && PartOf(p) == Ok(q)
      ensures if t.Literal? then q == LiteralPart(t.text) else SameRef(t, q)
    {}
  }

  /** An unclosed reference is refused by both, as such unless an earlier reference is at fault. */
  lemma TwinsRejectUnbalanced(s: string)
    requires !Cut(s).balanced
    ensures Tokenize(s) == Err(UnbalancedBrace(s)) || (Tokenize(s).Err? && Tokenize(s).error.BadCapture?)
    ensures TokenizeSchema(s) == Err(Unbalanced) || (TokenizeSchema(s).Err? && TokenizeSchema(s).error.UnknownType?)
  {
    AllTokenError(Cut(s).pieces);
    AllPartError(Cut(s).pieces);
    hide Cut;
  }

  lemma {:induction false} AllTokenError(pieces: seq<Piece>)
    ensures All(pieces, TokenOf).Err? ==> All(pieces, TokenOf).error.BadCapture?
  {
    if pieces != [] {
      AllTokenError(pieces[..|pieces| - 1]);
    }
  }

  lemma {:induction false} AllPartError(pieces: seq<Piece>)
    ensures All(pieces, PartOf).Err? ==> All(pieces, PartOf).error.UnknownType?
  {
    if pieces != [] {
      AllPartError(pieces[..|pieces| - 1]);
      hide ParseType, Split;
    }
  }
}
