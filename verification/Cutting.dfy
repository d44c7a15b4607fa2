/** What a scanner of patterns knows half-way: the pieces behind it and the cut of what is ahead. */
module Cutting {
  import opened Wrappers
  import opened Grok

  /** Treat the pieces in order; the first at fault decides, then whether the last one closes. */
  function ClassifyCuts<T, E>(cuts: Cuts, classify: Piece -> Result<T, E>, unbalanced: E): Result<seq<T>, E> {
    match All(cuts.pieces, classify)
    case Err(e) => Err(e)
    case Ok(ts) => if cuts.balanced then Ok(ts) else Err(unbalanced)
  }

  /** The pieces so far, followed by what is left to cut from `start` on. */
  ghost function Ahead(s: string, pieces: seq<Piece>, start: nat): Cuts
    requires start <= |s|
  {
    var later := Cut(s[start..]);
    Cuts(pieces + later.pieces, later.balanced)
  }

  predicate NoneOpens(s: string, from: nat, to: nat) {
    forall k :: from <= k < to ==> !OpensAt(s, k)
  }

  lemma SubSlice(s: string, a: nat, b: nat, c: nat)
    requires a + b <= a + c <= |s|
    ensures s[a..][b..c] == s[a + b..a + c] && s[a..][b..] == s[a + b..]
  {}

  /** The scan position inside the pattern, seen from the literal that began at `start`. */
  lemma OpenFrom(s: string, start: nat, i: nat)
    requires start <= i <= |s| && (i < |s| ==> OpensAt(s, i))
    requires NoneOpens(s, start, i)
    ensures FirstOpen(s[start..]) == i - start
  {
    var t := s[start..];
    var m := FirstOpen(t);
    assert m < |t| ==> OpensAt(t, m) == OpensAt(s, start + m);
    assert OpensAt(t, i - start) == OpensAt(s, i);
  }

  lemma FoundFrom(s: string, start: nat, i: nat, n: nat)
    requires start <= i && OpensAt(s, i) && Close(s[i + 2..], 1) == Some(n)
    requires FirstOpen(s[start..]) == i - start
    ensures Find(s[start..]) == Found(s[start..i], s[i + 2..i + 1 + n], s[i + 2 + n..])
  {
    hide FirstOpen, Find;
    assert n >= 1 && i + 2 + n <= |s|;
    hide Close;
    SubSlice(s, start, i - start + 2, i - start + 1 + n);
    SubSlice(s, start, 0, i - start);
    SubSlice(s, start, i - start + 2 + n, |s| - start);
    FindAt(s[start..], i - start, n);
  }

  lemma UnclosedFrom(s: string, start: nat, i: nat)
    requires start <= i && OpensAt(s, i) && Close(s[i + 2..], 1) == None
    requires FirstOpen(s[start..]) == i - start
    ensures Find(s[start..]) == Unclosed(s[start..i])
  {
    hide FirstOpen, Close;
    SubSlice(s, start, 0, i - start);
    SubSlice(s, start, i - start + 2, |s| - start);
  }

  lemma CutFound(t: string, text: string, content: string, tail: string)
    requires Find(t) == Found(text, content, tail)
    ensures Cut(t) == Cuts(LitIfAny(text) + [Ref(content)] + Cut(tail).pieces, Cut(tail).balanced)
  {
    hide Find, LitIfAny;
  }

  lemma CutUnclosed(t: string, text: string)
    requires Find(t) == Unclosed(text)
    ensures Cut(t) == Cuts(LitIfAny(text), false)
  {}

  lemma CutEnd(s: string, start: nat)
    requires start <= |s|
    requires NoneOpens(s, start, |s|)
    ensures Cut(s[start..]) == Cuts(LitIfAny(s[start..]), true)
  {
    OpenFrom(s, start, |s|);
    hide FirstOpen, Close, LitIfAny;
  }

  lemma Regroup<T>(a: seq<T>, b: seq<T>, c: seq<T>, d: seq<T>)
    ensures a + (b + c + d) == a + b + c + d
  {}

  lemma AheadStart(s: string)
    ensures Cut(s) == Ahead(s, [], 0)
  {
    assert s[0..] == s && [] + Cut(s).pieces == Cut(s).pieces;
  }

  /** A reference opens at `i` and closes `n` characters into what follows. */
  lemma AheadFound(s: string, pieces: seq<Piece>, start: nat, i: nat, n: nat)
    requires start <= i && OpensAt(s, i) && NoneOpens(s, start, i) && Close(s[i + 2..], 1) == Some(n)
    ensures 1 <= n && i + 2 + n <= |s|
    ensures Ahead(s, pieces, start) ==
            Ahead(s, pieces + LitIfAny(s[start..i]) + [Ref(s[i + 2..i + 1 + n])], i + 2 + n)
  {
    hide Cut, Close, Find, FirstOpen, LitIfAny;
    OpenFrom(s, start, i);
    FoundFrom(s, start, i, n);
    var t, text, content, tail := s[start..], s[start..i], s[i + 2..i + 1 + n], s[i + 2 + n..];
    CutFound(t, text, content, tail);
    Regroup(pieces, LitIfAny(text), [Ref(content)], Cut(tail).pieces);
  }

  /** A reference opens at `i` and never closes. */
  lemma AheadUnclosed(s: string, pieces: seq<Piece>, start: nat, i: nat)
    requires start <= i && OpensAt(s, i) && NoneOpens(s, start, i) && Close(s[i + 2..], 1) == None
    ensures Ahead(s, pieces, start) == Cuts(pieces + LitIfAny(s[start..i]), false)
  {
    hide Cut, Close, Find, FirstOpen, LitIfAny;
    OpenFrom(s, start, i);
    UnclosedFrom(s, start, i);
    CutUnclosed(s[start..], s[start..i]);
  }

  /** No reference is left. */
  lemma AheadEnd(s: string, pieces: seq<Piece>, start: nat)
    requires start <= |s| && NoneOpens(s, start, |s|)
    ensures Ahead(s, pieces, start) == Cuts(pieces + LitIfAny(s[start..]), true)
  {
    CutEnd(s, start);
    hide Cut, LitIfAny;
  }

  // ---- Treating the pieces as they are found ----

  lemma TreatedLit<T, E>(pieces: seq<Piece>, text: string, classify: Piece -> Result<T, E>, lit: T)
    requires All(pieces, classify).Ok? && classify(Lit(text)) == Ok(lit)
    ensures var before := All(pieces, classify).value;
            All(pieces + LitIfAny(text), classify) == Ok(if text == "" then before else before + [lit])
  {
    assert (pieces + [Lit(text)])[..|pieces|] == pieces;
    assert pieces + [] == pieces;
  }

  lemma TreatedRef<T, E>(pieces: seq<Piece>, p: Piece, classify: Piece -> Result<T, E>)
    requires All(pieces, classify).Ok?
    ensures classify(p).Ok? ==> All(pieces + [p], classify) == Ok(All(pieces, classify).value + [classify(p).value])
    ensures classify(p).Err? ==> All(pieces + [p], classify) == Err(classify(p).error)
  {
    assert (pieces + [p])[..|pieces|] == pieces;
  }

  /** A piece at fault decides, whatever is ahead of it. */
  lemma FaultDecides<T, E>(s: string, pieces: seq<Piece>, start: nat, classify: Piece -> Result<T, E>, unbalanced: E)
    requires start <= |s| && All(pieces, classify).Err?
    ensures ClassifyCuts(Ahead(s, pieces, start), classify, unbalanced) == Err(All(pieces, classify).error)
  {
    var all := Ahead(s, pieces, start).pieces;
    assert all[..|pieces|] == pieces;
    ErrorStays(all, |pieces|, classify);
  }
}
