/** The Grok engine's tokenizer, and the printer it inverts. */
module Tokens {
  import opened Wrappers
  import opened Bytes
  import opened Grok
  import opened Cutting

  datatype GrokError =
    | UnbalancedBrace(pattern: string)
    | BadCapture(content: string)
    | UnknownPattern(name: string)
    | TooDeep(name: string)
    | Cycle(name: string)
    | InvalidGroupName(name: string)
    | InvalidRegex(source: string)

  datatype Token = Literal(text: string) | Capture(name: string, field: Option<string>, ty: Option<string>)

  function ParseCapture(content: string): Result<Token, GrokError> {
    var parts := Split(content, ':');
    if |parts| == 1 then Ok(Capture(parts[0], None, None))
    else if |parts| == 2 then Ok(Capture(parts[0], Some(parts[1]), None))
    else if |parts| == 3 then Ok(Capture(parts[0], Some(parts[1]), Some(parts[2])))
    else Err(BadCapture(content))
  }

  function TokenOf(p: Piece): Result<Token, GrokError> {
    match p
    case Lit(text) => Ok(Literal(text))
    case Ref(content) => ParseCapture(content)
  }

  function Tokenize(s: string): Result<seq<Token>, GrokError> {
    ClassifyCuts(Cut(s), TokenOf, UnbalancedBrace(s))
  }

  // ---- Tokens and patterns are each other's inverse ----

  /** The parts a capture was written with. */
  function Fields(t: Token): (parts: seq<string>)
    requires t.Capture?
    ensures parts != []
  {
    if t.field.None? then [t.name]
    else if t.ty.None? then [t.name, t.field.value]
    else [t.name, t.field.value, t.ty.value]
  }

  predicate Colonless(s: string) {
    ':' !in s
  }

  predicate WellNamed(t: Token) {
    t.Capture? ==>
      && Colonless(t.name)
      && (t.field.Some? ==> Colonless(t.field.value))
      && (t.ty.Some? ==> t.field.Some? && Colonless(t.ty.value))
  }

  function PieceOf(t: Token): Piece
    requires WellNamed(t)
  {
    if t.Literal? then Lit(t.text) else Ref(Join(Fields(t), ':'))
  }

  function PiecesOf(ts: seq<Token>): (ps: seq<Piece>)
    requires forall t :: t in ts ==> WellNamed(t)
    ensures |ps| == |ts|
  {
    seq(|ts|, k requires 0 <= k < |ts| => PieceOf(ts[k]))
  }

  ghost predicate WellFormed(ts: seq<Token>) {
    (forall t :: t in ts ==> WellNamed(t)) && WellCut(PiecesOf(ts))
  }

  function Print(ts: seq<Token>): string
    requires forall t :: t in ts ==> WellNamed(t)
  {
    Render(PiecesOf(ts))
  }

  lemma TokenPiece(t: Token)
    requires WellNamed(t)
    ensures TokenOf(PieceOf(t)) == Ok(t)
  {
    if t.Capture? {
      SplitJoin(Fields(t), ':');
    }
  }

  lemma PieceToken(p: Piece)
    requires TokenOf(p).Ok?
    ensures WellNamed(TokenOf(p).value) && PieceOf(TokenOf(p).value) == p
  {
    if p.Ref? {
      JoinSplit(p.content, ':');
      hide Split, Join;
      var parts, t := Split(p.content, ':'), TokenOf(p).value;
      assert parts == Fields(t);
    }
  }

  lemma AllPieces(ts: seq<Token>)
    requires forall t :: t in ts ==> WellNamed(t)
    ensures All(PiecesOf(ts), TokenOf) == Ok(ts)
  {
    var pieces := PiecesOf(ts);
    AllMeaning(pieces, TokenOf);
    forall k | 0 <= k < |ts| ensures TokenOf(pieces[k]) == Ok(ts[k]) {
      TokenPiece(ts[k]);
    }
    hide TokenOf, PieceOf, All, WellNamed;
    assert All(pieces, TokenOf).value == ts;
  }

  lemma PiecesAll(pieces: seq<Piece>)
    requires All(pieces, TokenOf).Ok?
    ensures var ts := All(pieces, TokenOf).value;
            (forall t :: t in ts ==> WellNamed(t)) && PiecesOf(ts) == pieces
  {
    var ts := All(pieces, TokenOf).value;
    AllMeaning(pieces, TokenOf);
    forall k | 0 <= k < |ts| ensures WellNamed(ts[k]) && PieceOf(ts[k]) == pieces[k] {
      PieceToken(pieces[k]);
    }
    hide TokenOf, PieceOf, All, WellNamed;
    assert PiecesOf(ts) == pieces;
  }

  /** Printing the tokens of an accepted pattern gives the pattern back. */
  lemma PrintTokenize(s: string)
    requires Tokenize(s).Ok?
    ensures WellFormed(Tokenize(s).value) && Print(Tokenize(s).value) == s
  {
    RenderCut(s);
    PiecesAll(Cut(s).pieces);
  }

  /** Tokenizing a printed list of well-formed tokens gives the tokens back. */
  lemma TokenizePrint(ts: seq<Token>)
    requires WellFormed(ts)
    ensures Tokenize(Print(ts)) == Ok(ts)
  {
    CutRender(PiecesOf(ts));
    AllPieces(ts);
  }

  // ---- The scan ----

  /** Find the brace that closes the reference whose content starts at `from`. */
  method MatchBrace(s: string, from: nat) returns (closed: bool, j: nat)
    requires from <= |s|
    ensures Close(s[from..], 1) == if closed then Some(j - from) else None
    ensures closed ==> from < j <= |s|
  {
    hide Close;
    var depth := 1;
    j := from;
    while j < |s| && depth > 0
      invariant from <= j <= |s| && depth >= 0
      invariant var ahead := Close(s[j..], depth);
                Close(s[from..], 1) == if ahead.Some? then Some(ahead.value + j - from) else None
    {
      CloseNext(s, j, depth);
      if s[j] == '{' {
        depth := depth + 1;
      } else if s[j] == '}' {
        depth := depth - 1;
      }
      j := j + 1;
    }
    CloseDone(s, j, depth);
    closed := depth == 0;
  }

  /** `tokenize`: one pass, which stops at the first reference at fault. */
  method TokenizeGrok(s: string) returns (r: Result<seq<Token>, GrokError>)
    ensures r == Tokenize(s)
  {
    hide Cut, Ahead, Close, LitIfAny, All, TokenOf, ParseCapture;
    var out: seq<Token> := [];
    ghost var pieces: seq<Piece> := [];
    var i, litStart := 0, 0;
    AheadStart(s);
    NothingYet();
    while i < |s|
      invariant 0 <= litStart <= i <= |s| && NoneOpens(s, litStart, i)
      invariant Cut(s) == Ahead(s, pieces, litStart) && All(pieces, TokenOf) == Ok(out)
      decreases |s| - i
    {
      if s[i] == '%' && i + 1 < |s| && s[i + 1] == '{' {
        ghost var text := s[litStart..i];
        TreatedLiteral(pieces, text);
        if i > litStart {
          out := out + [Literal(s[litStart..i])];
        }
        var closed, j := MatchBrace(s, i + 2);
        if !closed {
          AheadUnclosed(s, pieces, litStart, i);
          return Err(UnbalancedBrace(s));
        }
        AheadFound(s, pieces, litStart, i, j - (i + 2));
        var content := s[i + 2..j - 1];
        ghost var before := pieces + LitIfAny(text);
        pieces := before + [Ref(content)];
        TreatedCapture(before, content);
        match ParseCapture(content) {
          case Err(e) =>
            FaultDecides(s, pieces, j, TokenOf, UnbalancedBrace(s));
            return Err(e);
          case Ok(t) => out := out + [t];
        }
        i, litStart := j, j;
      } else {
        i := i + 1;
      }
    }
    AheadEnd(s, pieces, litStart);
    TreatedLiteral(pieces, s[litStart..]);
    if litStart < |s| {
      out := out + [Literal(s[litStart..])];
    }
    return Ok(out);
  }

  lemma NothingYet()
    ensures All([], TokenOf) == Ok([])
  {}

  lemma TreatedLiteral(pieces: seq<Piece>, text: string)
    requires All(pieces, TokenOf).Ok?
    ensures All(pieces + LitIfAny(text), TokenOf) ==
            Ok(if text == "" then All(pieces, TokenOf).value else All(pieces, TokenOf).value + [Literal(text)])
  {
    TreatedLit(pieces, text, TokenOf, Literal(text));
  }

  lemma TreatedCapture(pieces: seq<Piece>, content: string)
    requires All(pieces, TokenOf).Ok?
    ensures var all, t := All(pieces + [Ref(content)], TokenOf), ParseCapture(content);
            all == if t.Ok? then Ok(All(pieces, TokenOf).value + [t.value]) else Err(t.error)
  {
    TreatedRef(pieces, Ref(content), TokenOf);
  }

  /** A reference is its parts: one to three of them, and no more. */
  lemma CaptureParts(parts: seq<string>)
    requires parts != [] && forall k :: 0 <= k < |parts| ==> ':' !in parts[k]
    ensures ParseCapture(Join(parts, ':')) ==
            if |parts| == 1 then Ok(Capture(parts[0], None, None))
            else if |parts| == 2 then Ok(Capture(parts[0], Some(parts[1]), None))
            else if |parts| == 3 then Ok(Capture(parts[0], Some(parts[1]), Some(parts[2])))
            else Err(BadCapture(Join(parts, ':')))
  {
    hide Join, Split;
    SplitJoin(parts, ':');
  }

  /** A pattern is refused for its first malformed reference, else for the one that never closes. */
  lemma FirstFault(s: string) returns (k: nat)
    requires Tokenize(s).Err?
    ensures var pieces := Cut(s).pieces;
            && k <= |pieces| && (forall j :: 0 <= j < k ==> TokenOf(pieces[j]).Ok?)
            && (k < |pieces| ==> pieces[k].Ref? && Tokenize(s) == Err(BadCapture(pieces[k].content)))
            && (k == |pieces| ==> !Cut(s).balanced && Tokenize(s) == Err(UnbalancedBrace(s)))
  {
    hide Cut, Split;
    var pieces := Cut(s).pieces;
    AllMeaning(pieces, TokenOf);
    k := |pieces|;
    if All(pieces, TokenOf).Err? {
      k := AllFirst(pieces, TokenOf);
    }
  }
}
