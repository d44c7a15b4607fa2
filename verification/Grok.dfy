/** Grok pattern strings: cutting them into literals and `%{...}` references, and printing them back. */
module Grok {
  import opened Wrappers

  // ---- Brace depth ----

  function Delta(c: char): int {
    if c == '{' then 1 else if c == '}' then -1 else 0
  }

  /** Opening minus closing braces. */
  function Depth(s: string): int {
    if s == "" then 0 else Depth(s[..|s| - 1]) + Delta(s[|s| - 1])
  }

  /** The braces of `s` match up. */
  ghost predicate Balanced(s: string) {
    Depth(s) == 0 && forall k :: 0 <= k <= |s| ==> Depth(s[..k]) >= 0
  }

  /** How many characters of `s` it takes to close `depth` open braces. */
  function Close(s: string, depth: nat): (n: Option<nat>)
    ensures n.Some? ==> n.value <= |s| && (depth > 0 ==> n.value > 0)
  {
    if depth == 0 then Some(0)
    else if s == "" then None
    else match Close(s[1..], depth + Delta(s[0]))
      case Some(n) => Some(n + 1)
      case None => None
  }

  /** One character further on. */
  lemma CloseNext(s: string, j: nat, depth: nat)
    requires depth > 0 && j < |s|
    ensures depth + Delta(s[j]) >= 0
    ensures var ahead := Close(s[j + 1..], depth + Delta(s[j]));
            Close(s[j..], depth) == if ahead.Some? then Some(ahead.value + 1) else None
  {
    assert s[j..][1..] == s[j + 1..];
  }

  lemma CloseDone(s: string, j: nat, depth: nat)
    requires j <= |s|
    ensures depth == 0 ==> Close(s[j..], depth) == Some(0)
    ensures depth > 0 && j == |s| ==> Close(s[j..], depth) == None
  {}

  lemma {:induction false} DepthCons(c: char, s: string)
    ensures Depth([c] + s) == Delta(c) + Depth(s)
  {
    if s == "" {
      assert [c] + s == [c];
      assert [c][..0] == "";
    } else {
      DepthCons(c, s[..|s| - 1]);
      assert ([c] + s)[..|s|] == [c] + s[..|s| - 1];
    }
  }

  /** The scanner stops at the first place where the depth returns to zero. */
  ghost predicate ClosesAt(s: string, depth: nat, n: nat) {
    n <= |s| && Depth(s[..n]) + depth == 0 && forall k :: 0 <= k < n ==> Depth(s[..k]) + depth > 0
  }

  lemma {:induction false} CloseMeaning(s: string, depth: nat, n: nat)
    ensures Close(s, depth) == Some(n) <==> ClosesAt(s, depth, n)
  {
    assert s[..0] == "";
    if depth > 0 && s != "" {
      var next := depth + Delta(s[0]);
      forall k | 0 < k <= |s|
        ensures Depth(s[..k]) == Delta(s[0]) + Depth(s[1..][..k - 1])
      {
        assert s[..k] == [s[0]] + s[1..][..k - 1];
        DepthCons(s[0], s[1..][..k - 1]);
      }
      if n > 0 {
        CloseMeaning(s[1..], next, n - 1);
        ShiftCloses(s, depth, n);
      }
    }
  }

  lemma ShiftCloses(s: string, depth: nat, n: nat)
    requires depth > 0 && s != "" && n > 0
    requires forall k :: 0 < k <= |s| ==> Depth(s[..k]) == Delta(s[0]) + Depth(s[1..][..k - 1])
    ensures ClosesAt(s, depth, n) <==> ClosesAt(s[1..], depth + Delta(s[0]), n - 1)
  {
    var t, next := s[1..], depth + Delta(s[0]);
    assert s[..0] == "";
    if ClosesAt(s, depth, n) {
      forall k | 0 <= k < n - 1 ensures Depth(t[..k]) + next > 0 {
        assert Depth(s[..k + 1]) + depth > 0;
      }
    }
    if ClosesAt(t, next, n - 1) {
      forall k | 0 <= k < n ensures Depth(s[..k]) + depth > 0 {
        if k > 0 {
          assert Depth(t[..k - 1]) + next > 0;
        }
      }
    }
  }

  /** A reference closes at its own brace exactly when what is inside is balanced. */
  lemma ClosesBalanced(content: string, tail: string)
    ensures Close(content + "}" + tail, 1) == Some(|content| + 1) <==> Balanced(content)
  {
    var s, n := content + "}" + tail, |content| + 1;
    CloseMeaning(s, 1, n);
    assert s[..n] == content + "}";
    assert (content + "}")[..|content|] == content;
    assert forall k :: 0 <= k <= |content| ==> s[..k] == content[..k];
    assert content[..|content|] == content;
  }

  lemma CloseIsBrace(s: string, n: nat)
    requires Close(s, 1) == Some(n)
    ensures 1 <= n <= |s| && s[n - 1] == '}' && Balanced(s[..n - 1])
  {
    CloseMeaning(s, 1, n);
    hide Close;
    var content := s[..n - 1];
    assert s[..n][..n - 1] == content;
    assert Depth(content) + 1 > 0 && Delta(s[n - 1]) == -1;
    forall k | 0 <= k <= |content| ensures Depth(content[..k]) >= 0 {
      assert content[..k] == s[..k];
    }
  }

  // ---- Cutting ----

  datatype Piece = Lit(text: string) | Ref(content: string)

  /** The pieces in order; `balanced` is false when the last reference never closes. */
  datatype Cuts = Cuts(pieces: seq<Piece>, balanced: bool)

  predicate OpensAt(s: string, i: nat) {
    i + 1 < |s| && s[i] == '%' && s[i + 1] == '{'
  }

  /** Where the first `%{` is, or the length when there is none. */
  function FirstOpen(s: string): (i: nat)
    ensures i <= |s|
    ensures i < |s| ==> OpensAt(s, i)
    ensures forall k :: 0 <= k < i ==> !OpensAt(s, k)
  {
    if s == "" || OpensAt(s, 0) then 0
    else
      var i := 1 + FirstOpen(s[1..]);
      assert forall k :: 0 < k < i ==> OpensAt(s, k) == OpensAt(s[1..], k - 1);
      i
  }

  function LitIfAny(text: string): seq<Piece> {
    if text == "" then [] else [Lit(text)]
  }

  /** The first reference of a pattern: what is before it, inside it and after it. */
  datatype Found = Nothing | Unclosed(text: string) | Found(text: string, content: string, tail: string)

  function Find(s: string): (f: Found)
    ensures f.Found? ==> |f.tail| < |s|
  {
    var i := FirstOpen(s);
    if i == |s| then Nothing
    else match Close(s[i + 2..], 1)
      case None => Unclosed(s[..i])
      case Some(n) => FoundAt(s, i, n)
  }

  /** The reference that opens at `i` and closes `n` characters into what follows. */
  function FoundAt(s: string, i: nat, n: nat): (f: Found)
    requires 1 <= n && i + 2 + n <= |s|
    ensures f.Found? && |f.tail| < |s|
  {
    Found(s[..i], s[i + 2..i + 1 + n], s[i + 2 + n..])
  }

  /** Literal runs and `%{...}` references, from left to right. */
  function Cut(s: string): Cuts
    decreases |s|
  {
    match Find(s)
    case Nothing => Cuts(LitIfAny(s), true)
    case Unclosed(text) => Cuts(LitIfAny(text), false)
    case Found(text, content, tail) =>
      var later := Cut(tail);
      Cuts(LitIfAny(text) + [Ref(content)] + later.pieces, later.balanced)
  }

  // ---- Printing, and the two inverses ----

  function RenderPiece(p: Piece): string {
    match p
    case Lit(text) => text
    case Ref(content) => "%{" + content + "}"
  }

  function Render(pieces: seq<Piece>): string {
    if pieces == [] then "" else RenderPiece(pieces[0]) + Render(pieces[1..])
  }

  predicate PlainText(s: string) {
    forall k :: 0 <= k < |s| ==> !OpensAt(s, k)
  }

  /** Literals are non-empty, hold no `%{` and never touch; the braces of every reference match up. */
  ghost predicate WellCut(pieces: seq<Piece>) {
    pieces != [] ==>
      && (match pieces[0]
          case Lit(text) => text != "" && PlainText(text) && (|pieces| > 1 ==> pieces[1].Ref?)
          case Ref(content) => Balanced(content))
      && WellCut(pieces[1..])
  }

  /** Some text, a reference, and the rest. */
  function Assemble(text: string, content: string, tail: string): string {
    text + (RenderPiece(Ref(content)) + tail)
  }

  lemma Behind(a: string, b: string, k: nat)
    requires k <= |b|
    ensures (a + b)[|a| + k..] == b[k..]
  {}

  lemma Within(s: string, a: nat, n: nat)
    requires a + n < |s|
    ensures s[a..][..n] == s[a..a + n] && s[a..][n] == s[a + n]
  {}

  lemma Before(a: string, b: string, c: string)
    ensures (a + b + c)[..|a|] == a
  {}

  lemma RefLength(content: string, tail: string)
    ensures var t := RenderPiece(Ref(content)) + tail;
            |t| == |content| + 3 + |tail| && t[0] == '%' && t[1] == '{'
  {}

  lemma RefSlices(content: string, tail: string)
    ensures var t := RenderPiece(Ref(content)) + tail;
            |t| == |content| + 3 + |tail| && t[2..] == content + "}" + tail && t[|content| + 3..] == tail
  {
    RefLength(content, tail);
    assert RenderPiece(Ref(content))[2..] == content + "}";
  }

  lemma Slices(text: string, content: string, tail: string)
    ensures var s, i, n := Assemble(text, content, tail), |text|, |content| + 1;
            && i + 2 + n <= |s| && s[..i] == text && OpensAt(s, i)
            && s[i + 2..] == content + "}" + tail && s[i + 2..i + 1 + n] == content && s[i + 2 + n..] == tail
  {
    hide RenderPiece;
    var inner, n := RenderPiece(Ref(content)) + tail, |content| + 1;
    RefLength(content, tail);
    RefSlices(content, tail);
    Behind(text, inner, 2);
    Behind(text, inner, 2 + n);
    Before(content, "}", tail);
    Within(text + inner, |text| + 2, n - 1);
  }

  lemma Disassemble(s: string, i: nat, n: nat)
    requires i + 2 + n <= |s| && n >= 1 && OpensAt(s, i) && s[i + 1 + n] == '}'
    ensures s == Assemble(s[..i], s[i + 2..i + 1 + n], s[i + 2 + n..])
  {
    var content, tail := s[i + 2..i + 1 + n], s[i + 2 + n..];
    assert s[i..] == "%{" + content + "}" + tail;
  }

  lemma FirstOpenAt(s: string, i: nat)
    requires OpensAt(s, i) && PlainText(s[..i])
    ensures FirstOpen(s) == i
  {
    forall k | 0 <= k < i ensures !OpensAt(s, k) {
      if k + 1 < i {
        assert OpensAt(s[..i], k) == OpensAt(s, k);
      }
    }
  }

  lemma FindAt(s: string, i: nat, n: nat)
    requires FirstOpen(s) == i < |s| && Close(s[i + 2..], 1) == Some(n)
    ensures Find(s) == FoundAt(s, i, n)
  {
    hide FirstOpen, Close, FoundAt;
  }

  /** Behind plain text the first reference is the next one. */
  lemma FindAssembled(text: string, content: string, tail: string)
    requires PlainText(text) && Balanced(content)
    ensures Find(Assemble(text, content, tail)) == Found(text, content, tail)
  {
    hide Close, FirstOpen, Balanced, PlainText, Assemble, Find;
    Slices(text, content, tail);
    FirstOpenAt(Assemble(text, content, tail), |text|);
    ClosesBalanced(content, tail);
    FindAt(Assemble(text, content, tail), |text|, |content| + 1);
  }

  lemma PlainBefore(s: string, i: nat)
    requires i <= FirstOpen(s)
    ensures PlainText(s[..i])
  {
    assert forall k :: 0 <= k < i ==> (OpensAt(s[..i], k) ==> OpensAt(s, k));
  }

  lemma FindMeaning(s: string)
    ensures Find(s).Nothing? ==> PlainText(s)
    ensures Find(s).Found? ==>
              var f := Find(s);
              PlainText(f.text) && Balanced(f.content) && s == Assemble(f.text, f.content, f.tail)
  {
    hide FirstOpen, Close, PlainText, Balanced, Assemble, FoundAt;
    var i := FirstOpen(s);
    PlainBefore(s, i);
    if i == |s| {
      assert s[..i] == s;
    } else if Close(s[i + 2..], 1).Some? {
      FoundMeaning(s, i, Close(s[i + 2..], 1).value);
    }
  }

  lemma FoundMeaning(s: string, i: nat, n: nat)
    requires OpensAt(s, i) && Close(s[i + 2..], 1) == Some(n)
    ensures 1 <= n && i + 2 + n <= |s|
    ensures var f := FoundAt(s, i, n);
            f.text == s[..i] && Balanced(f.content) && s == Assemble(f.text, f.content, f.tail)
  {
    hide Close, Balanced, Assemble;
    CloseIsBrace(s[i + 2..], n);
    Within(s, i + 2, n - 1);
    Disassemble(s, i, n);
  }

  lemma RenderStep(text: string, content: string, pieces: seq<Piece>)
    ensures Render(LitIfAny(text) + [Ref(content)] + pieces) == Assemble(text, content, Render(pieces))
  {
    var refs := [Ref(content)] + pieces;
    assert refs[1..] == pieces;
    assert LitIfAny(text) + [Ref(content)] + pieces == LitIfAny(text) + refs;
    hide RenderPiece;
    if text == "" {
      assert LitIfAny(text) + refs == refs;
    } else {
      assert ([Lit(text)] + refs)[1..] == refs && RenderPiece(Lit(text)) == text;
    }
  }

  lemma WellCutStep(text: string, content: string, pieces: seq<Piece>)
    requires PlainText(text) && Balanced(content) && WellCut(pieces)
    ensures WellCut(LitIfAny(text) + [Ref(content)] + pieces)
  {
    var refs := [Ref(content)] + pieces;
    assert refs[1..] == pieces;
    assert WellCut(refs);
    assert LitIfAny(text) + [Ref(content)] + pieces == LitIfAny(text) + refs;
    hide PlainText, Balanced;
    if text == "" {
      assert LitIfAny(text) + refs == refs;
    } else {
      assert ([Lit(text)] + refs)[1..] == refs;
    }
  }

  lemma {:induction false} CutRender(pieces: seq<Piece>)
    requires WellCut(pieces)
    ensures Cut(Render(pieces)) == Cuts(pieces, true)
    decreases |pieces|, 0
  {
    if pieces == [] {
    } else if pieces[0].Ref? {
      CutRenderRef("", pieces[0].content, pieces[1..], pieces);
    } else if |pieces| == 1 {
      var text := pieces[0].text;
      assert Render(pieces) == text + "" == text;
      assert pieces == [Lit(text)];
    } else {
      assert WellCut(pieces[1..]) && pieces[1..][0] == pieces[1] && pieces[1..][1..] == pieces[2..];
      CutRenderRef(pieces[0].text, pieces[1].content, pieces[2..], pieces);
    }
  }

  lemma {:induction false} CutRenderRef(text: string, content: string, rest: seq<Piece>, pieces: seq<Piece>)
    requires PlainText(text) && Balanced(content) && WellCut(rest)
    requires pieces == LitIfAny(text) + [Ref(content)] + rest
    ensures Cut(Render(pieces)) == Cuts(pieces, true)
    decreases |rest|, 1
  {
    CutRender(rest);
    hide Find, Render, Assemble;
    RenderStep(text, content, rest);
    FindAssembled(text, content, Render(rest));
  }

  lemma {:induction false} RenderCut(s: string)
    ensures Cut(s).balanced ==> Render(Cut(s).pieces) == s && WellCut(Cut(s).pieces)
    decreases |s|
  {
    FindMeaning(s);
    match Find(s)
    case Nothing =>
      assert s + "" == s;
    case Unclosed(_) =>
    case Found(text, content, tail) =>
      hide Find, Render, Assemble, PlainText, Balanced, WellCut;
      RenderCut(tail);
      RenderStep(text, content, Cut(tail).pieces);
      if Cut(tail).balanced {
        WellCutStep(text, content, Cut(tail).pieces);
      }
  }

  /** A pattern cuts cleanly exactly when it is the printing of well-cut pieces. */
  lemma CutsIff(s: string)
    ensures Cut(s).balanced <==> exists pieces :: WellCut(pieces) && Render(pieces) == s
  {
    RenderCut(s);
    if exists pieces :: WellCut(pieces) && Render(pieces) == s {
      var pieces :| WellCut(pieces) && Render(pieces) == s;
      CutRender(pieces);
    }
  }
}
