/** The greedy backtracking matcher of tpt-telemetry-compiler, and the dispatch over formats. */
module Matching {
  import opened Types

  datatype Seg = Literal(text: Text) | Capture(field: string, ty: TypeName)

  /** A captured range: which segment, from where, to where. */
  datatype Cap = Cap(seg: nat, from: nat, to: nat)

  // ---- Tilings: what a match is, without any search ----

  predicate StartsWith(line: Text, pos: nat, text: Text) {
    pos + |text| <= |line| && line[pos..pos + |text|] == text
  }

  /** The segments from `si` on tile the line from `pos` on, the captures ending at `ends`. */
  predicate Tiles(lib: Library, segs: seq<Seg>, line: Text, si: nat, pos: nat, ends: seq<nat>)
    requires si <= |segs|
    decreases |segs| - si
  {
    if si == |segs| then
      pos == |line| && ends == []
    else
      match segs[si]
      case Literal(text) => StartsWith(line, pos, text) && Tiles(lib, segs, line, si + 1, pos + |text|, ends)
      case Capture(_, ty) =>
        && ends != [] && pos <= ends[0] <= |line|
        && Accepts(lib, ty, line[pos..ends[0]])
        && Tiles(lib, segs, line, si + 1, ends[0], ends[1..])
  }

  /** Lexicographically at least as great. */
  predicate AtLeast(a: seq<nat>, b: seq<nat>) {
    a == [] || b == [] || a[0] > b[0] || (a[0] == b[0] && AtLeast(a[1..], b[1..]))
  }

  ghost predicate Greatest(lib: Library, segs: seq<Seg>, line: Text, si: nat, pos: nat, ends: seq<nat>)
    requires si <= |segs|
  {
    && Tiles(lib, segs, line, si, pos, ends)
    && forall other :: Tiles(lib, segs, line, si, pos, other) ==> AtLeast(ends, other)
  }

  /** Nothing tiles the line from here. */
  ghost predicate Stuck(lib: Library, segs: seq<Seg>, line: Text, si: nat, pos: nat)
    requires si <= |segs|
  {
    forall ends :: !Tiles(lib, segs, line, si, pos, ends)
  }

  ghost predicate Matches(lib: Library, segs: seq<Seg>, line: Text) {
    exists ends :: Tiles(lib, segs, line, 0, 0, ends)
  }

  /** The captured ranges of a tiling. */
  function CapsOf(segs: seq<Seg>, si: nat, pos: nat, ends: seq<nat>): seq<Cap>
    requires si <= |segs|
    decreases |segs| - si
  {
    if si == |segs| then []
    else match segs[si]
      case Literal(text) => CapsOf(segs, si + 1, pos + |text|, ends)
      case Capture(_, _) =>
        if ends == [] then []
        else [Cap(si, pos, ends[0])] + CapsOf(segs, si + 1, ends[0], ends[1..])
  }

  // ---- The search ----

  /** Scratch space reused from line to line. */
  class MatchCtx {
    var caps: seq<Cap>

    constructor ()
      ensures caps == []
    {
      caps := [];
    }

    method Reset()
      modifies this
      ensures caps == []
    {
      caps := [];
    }
  }

  /** Every tiling still possible ends its first capture before `end`, or is the empty capture. */
  ghost predicate Untried(lib: Library, segs: seq<Seg>, line: Text, si: nat, pos: nat, end: nat)
    requires si < |segs|
  {
    forall e :: Tiles(lib, segs, line, si, pos, e) ==> e != [] && (e[0] < end || (e[0] == end == pos))
  }

  lemma UntriedStart(lib: Library, segs: seq<Seg>, line: Text, si: nat, pos: nat)
    requires si < |segs| && segs[si].Capture?
    ensures Untried(lib, segs, line, si, pos, |line| + 1)
  {}

  /** A capture end that its type refuses, or after which nothing fits, is ruled out. */
  lemma UntriedLess(lib: Library, segs: seq<Seg>, line: Text, si: nat, pos: nat, end: nat)
    requires si < |segs| && segs[si].Capture? && pos <= end <= |line|
    requires Untried(lib, segs, line, si, pos, end + 1)
    requires end > pos ==> !Accepts(lib, segs[si].ty, line[pos..end]) || Stuck(lib, segs, line, si + 1, end)
    ensures Untried(lib, segs, line, si, pos, end)
  {
    forall e | Tiles(lib, segs, line, si, pos, e)
      ensures e != [] && (e[0] < end || (e[0] == end == pos))
    {
      assert Tiles(lib, segs, line, si + 1, e[0], e[1..]);
    }
  }

  /** Past a literal the tilings are the same. */
  lemma LiteralTiles(lib: Library, segs: seq<Seg>, line: Text, si: nat, pos: nat)
    requires si < |segs| && segs[si].Literal? && StartsWith(line, pos, segs[si].text)
    ensures var next := pos + |segs[si].text|;
            forall e :: Tiles(lib, segs, line, si, pos, e) == Tiles(lib, segs, line, si + 1, next, e)
    ensures forall e :: CapsOf(segs, si, pos, e) == CapsOf(segs, si + 1, pos + |segs[si].text|, e)
  {}

  lemma LiteralStuck(lib: Library, segs: seq<Seg>, line: Text, si: nat, pos: nat)
    requires si < |segs| && segs[si].Literal? && !StartsWith(line, pos, segs[si].text)
    ensures Stuck(lib, segs, line, si, pos)
  {}

  /** Behind the last segment. */
  lemma EndTiles(lib: Library, segs: seq<Seg>, line: Text, pos: nat)
    ensures if pos == |line| then Greatest(lib, segs, line, |segs|, pos, []) else Stuck(lib, segs, line, |segs|, pos)
    ensures CapsOf(segs, |segs|, pos, []) == []
  {}

  lemma CaptureTiles(lib: Library, segs: seq<Seg>, line: Text, si: nat, pos: nat)
    requires si < |segs| && segs[si].Capture?
    ensures forall e :: Tiles(lib, segs, line, si, pos, e) ==>
              e != [] && pos <= e[0] <= |line| && Accepts(lib, segs[si].ty, line[pos..e[0]])
                  && Tiles(lib, segs, line, si + 1, e[0], e[1..])
  {}

  lemma UntriedEnd(lib: Library, segs: seq<Seg>, line: Text, si: nat, pos: nat)
    requires si < |segs| && segs[si].Capture? && pos <= |line|
    requires Untried(lib, segs, line, si, pos, pos)
    requires segs[si].ty == String ==> Stuck(lib, segs, line, si + 1, pos)
    ensures Stuck(lib, segs, line, si, pos)
  {
    CaptureTiles(lib, segs, line, si, pos);
    assert line[pos..pos] == [];
    hide Tiles;
  }

  lemma GreatestCapture(lib: Library, segs: seq<Seg>, line: Text, si: nat, pos: nat, end: nat, rest: seq<nat>)
    requires si < |segs| && segs[si].Capture? && pos <= end <= |line|
    requires Untried(lib, segs, line, si, pos, end + 1) || (end == pos && Untried(lib, segs, line, si, pos, pos))
    requires Accepts(lib, segs[si].ty, line[pos..end]) && Greatest(lib, segs, line, si + 1, end, rest)
    ensures Greatest(lib, segs, line, si, pos, [end] + rest)
    ensures CapsOf(segs, si, pos, [end] + rest) == [Cap(si, pos, end)] + CapsOf(segs, si + 1, end, rest)
  {
    assert ([end] + rest)[1..] == rest;
    forall other | Tiles(lib, segs, line, si, pos, other)
      ensures AtLeast([end] + rest, other)
    {
      assert other[0] == end ==> Tiles(lib, segs, line, si + 1, end, other[1..]);
    }
  }

  /** Match the segments from `si` against the line from `pos`. True exactly when a tiling exists; then
      the greatest one has been pushed, and otherwise the stack is as it was. */
  method MatchSegments(lib: Library, segs: seq<Seg>, line: Text, si: nat, pos: nat, ctx: MatchCtx)
    returns (matched: bool, ghost ends: seq<nat>)
    requires si <= |segs| && pos <= |line|
    modifies ctx
    ensures matched ==> Greatest(lib, segs, line, si, pos, ends)
    ensures matched ==> ctx.caps == old(ctx.caps) + CapsOf(segs, si, pos, ends)
    ensures !matched ==> ctx.caps == old(ctx.caps) && Stuck(lib, segs, line, si, pos)
    decreases |segs| - si
  {
    hide Tiles, Untried, CapsOf, AtLeast;
    ends := [];
    if si == |segs| {
      EndTiles(lib, segs, line, pos);
      return pos == |line|, [];
    }
    match segs[si] {
      case Literal(text) =>
        if StartsWith(line, pos, text) {
          LiteralTiles(lib, segs, line, si, pos);
          matched, ends := MatchSegments(lib, segs, line, si + 1, pos + |text|, ctx);
          return;
        }
        LiteralStuck(lib, segs, line, si, pos);
        return false, [];
      case Capture(_, ty) =>
        var end := |line| + 1;
        UntriedStart(lib, segs, line, si, pos);
        while end > pos
          invariant pos <= end <= |line| + 1
          invariant ctx.caps == old(ctx.caps)
          invariant Untried(lib, segs, line, si, pos, end)
        {
          end := end - 1;
          if !TypeMatches(lib, ty, line[pos..end]) {
            UntriedLess(lib, segs, line, si, pos, end);
            continue;
          }
          ctx.caps := ctx.caps + [Cap(si, pos, end)];
          matched, ends := MatchSegments(lib, segs, line, si + 1, end, ctx);
          if matched {
            GreatestCapture(lib, segs, line, si, pos, end, ends);
            ends := [end] + ends;
            return;
          }
          ctx.caps := ctx.caps[..|ctx.caps| - 1];
          UntriedLess(lib, segs, line, si, pos, end);
        }
        if ty == String {
          ctx.caps := ctx.caps + [Cap(si, pos, pos)];
          matched, ends := MatchSegments(lib, segs, line, si + 1, pos, ctx);
          if matched {
            GreatestCapture(lib, segs, line, si, pos, pos, ends);
            ends := [pos] + ends;
            return;
          }
          ctx.caps := ctx.caps[..|ctx.caps| - 1];
        }
        UntriedEnd(lib, segs, line, si, pos);
        return false, [];
    }
  }

  // ---- Formats and dispatch ----

  datatype Target = ToType(ty: TypeName) | ToEnum(variants: seq<Text>)

  datatype RedactMode = Hash | Mask

  datatype Format = Format(name: string, segs: seq<Seg>, coercions: seq<(string, Target)>,
                           redactions: seq<(string, RedactMode)>)

  datatype Field = Field(name: string, value: Text)

  datatype RawMatch = RawMatch(format: string, fields: seq<Field>)

  predicate InRange(segs: seq<Seg>, line: Text, cap: Cap) {
    cap.seg < |segs| && segs[cap.seg].Capture? && cap.from <= cap.to <= |line|
  }

  function FieldOf(segs: seq<Seg>, line: Text, cap: Cap): Field
    requires InRange(segs, line, cap)
  {
    Field(segs[cap.seg].field, line[cap.from..cap.to])
  }

  /** The name and text of each captured range, in order. */
  function FieldsOf(segs: seq<Seg>, line: Text, caps: seq<Cap>): seq<Field>
    requires forall k :: 0 <= k < |caps| ==> InRange(segs, line, caps[k])
  {
    if caps == [] then [] else [FieldOf(segs, line, caps[0])] + FieldsOf(segs, line, caps[1..])
  }

  // ---- What a tiling says about the line, without positions ----

  function Captures(segs: seq<Seg>): (caps: seq<Seg>)
    ensures forall k :: 0 <= k < |caps| ==> caps[k].Capture?
  {
    if segs == [] then [] else (if segs[0].Capture? then [segs[0]] else []) + Captures(segs[1..])
  }

  function Values(fields: seq<Field>): seq<Text> {
    seq(|fields|, k requires 0 <= k < |fields| => fields[k].value)
  }

  /** The text a pattern stands for once its captures have values. */
  function Rebuild(segs: seq<Seg>, values: seq<Text>): Text
    requires |values| == |Captures(segs)|
  {
    if segs == [] then []
    else match segs[0]
      case Literal(text) => text + Rebuild(segs[1..], values)
      case Capture(_, _) => values[0] + Rebuild(segs[1..], values[1..])
  }

  /** The values fill the captures: one each, of its type, and the pattern then spells the line. */
  predicate Fits(lib: Library, segs: seq<Seg>, line: Text, values: seq<Text>) {
    && |values| == |Captures(segs)|
    && (forall k :: 0 <= k < |values| ==> Accepts(lib, Captures(segs)[k].ty, values[k]))
    && Rebuild(segs, values) == line
  }

  /** The fields carry the names of the captures they fill. */
  predicate Named(segs: seq<Seg>, fields: seq<Field>) {
    && |fields| == |Captures(segs)|
    && forall k :: 0 <= k < |fields| ==> fields[k].name == Captures(segs)[k].field
  }

  /** The fields of a match: they fit the pattern and carry its names. */
  predicate Filled(lib: Library, segs: seq<Seg>, line: Text, fields: seq<Field>) {
    Fits(lib, segs, line, Values(fields)) && Named(segs, fields)
  }

  lemma FilledLiteral(lib: Library, segs: seq<Seg>, line: Text, fields: seq<Field>)
    requires segs != [] && segs[0].Literal? && Filled(lib, segs[1..], line, fields)
    ensures Filled(lib, segs, segs[0].text + line, fields)
  {}

  lemma FilledCapture(lib: Library, segs: seq<Seg>, line: Text, fields: seq<Field>, value: Text)
    requires segs != [] && segs[0].Capture? && Filled(lib, segs[1..], line, fields)
    requires Accepts(lib, segs[0].ty, value)
    ensures Filled(lib, segs, value + line, [Field(segs[0].field, value)] + fields)
  {
    var all := [Field(segs[0].field, value)] + fields;
    assert Values(all) == [value] + Values(fields) && Values(all)[1..] == Values(fields);
    assert Captures(segs) == [segs[0]] + Captures(segs[1..]);
  }

  lemma TilingLiteral(lib: Library, segs: seq<Seg>, line: Text, si: nat, pos: nat, ends: seq<nat>)
    requires si < |segs| && segs[si].Literal? && Tiles(lib, segs, line, si, pos, ends)
    ensures var next := pos + |segs[si].text|;
            && next <= |line| && Tiles(lib, segs, line, si + 1, next, ends)
            && CapsOf(segs, si, pos, ends) == CapsOf(segs, si + 1, next, ends)
            && line[pos..] == segs[si].text + line[next..]
  {
    hide Accepts;
    assert pos + |segs[si].text| <= |line|;
    assert line[pos..] == line[pos..pos + |segs[si].text|] + line[pos + |segs[si].text|..];
  }

  lemma TilingCapture(lib: Library, segs: seq<Seg>, line: Text, si: nat, pos: nat, ends: seq<nat>)
    requires si < |segs| && segs[si].Capture? && Tiles(lib, segs, line, si, pos, ends)
    ensures ends != [] && pos <= ends[0] <= |line| && Tiles(lib, segs, line, si + 1, ends[0], ends[1..])
    ensures Accepts(lib, segs[si].ty, line[pos..ends[0]]) && line[pos..] == line[pos..ends[0]] + line[ends[0]..]
    ensures var rest := CapsOf(segs, si + 1, ends[0], ends[1..]);
            CapsOf(segs, si, pos, ends) == [Cap(si, pos, ends[0])] + rest && CapsOf(segs, si, pos, ends)[1..] == rest
  {
    hide Accepts;
  }

  lemma FieldsPush(segs: seq<Seg>, line: Text, cap: Cap, rest: seq<Cap>)
    requires InRange(segs, line, cap) && forall k :: 0 <= k < |rest| ==> InRange(segs, line, rest[k])
    ensures FieldsOf(segs, line, [cap] + rest) == [FieldOf(segs, line, cap)] + FieldsOf(segs, line, rest)
  {
    assert ([cap] + rest)[1..] == rest;
  }

  /** The captured ranges are ranges of the line, and their fields fill the rest of the pattern. */
  predicate Fills(lib: Library, segs: seq<Seg>, line: Text, si: nat, pos: nat, caps: seq<Cap>)
    requires si <= |segs| && pos <= |line|
  {
    && (forall k :: 0 <= k < |caps| ==> InRange(segs, line, caps[k]))
    && Filled(lib, segs[si..], line[pos..], FieldsOf(segs, line, caps))
  }

  lemma FillsLiteral(lib: Library, segs: seq<Seg>, line: Text, si: nat, pos: nat, caps: seq<Cap>)
    requires si < |segs| && segs[si].Literal? && pos + |segs[si].text| <= |line|
    requires line[pos..] == segs[si].text + line[pos + |segs[si].text|..]
    requires Fills(lib, segs, line, si + 1, pos + |segs[si].text|, caps)
    ensures Fills(lib, segs, line, si, pos, caps)
  {
    hide Filled, FieldsOf, InRange;
    assert segs[si..][1..] == segs[si + 1..];
    FilledLiteral(lib, segs[si..], line[pos + |segs[si].text|..], FieldsOf(segs, line, caps));
  }

  lemma FillsCapture(lib: Library, segs: seq<Seg>, line: Text, si: nat, pos: nat, end: nat, rest: seq<Cap>)
    requires si < |segs| && segs[si].Capture? && pos <= end <= |line| && Accepts(lib, segs[si].ty, line[pos..end])
    requires Fills(lib, segs, line, si + 1, end, rest)
    ensures Fills(lib, segs, line, si, pos, [Cap(si, pos, end)] + rest)
  {
    hide Filled, FieldsOf, Accepts;
    assert segs[si..][1..] == segs[si + 1..];
    assert line[pos..] == line[pos..end] + line[end..];
    FieldsPush(segs, line, Cap(si, pos, end), rest);
    FilledCapture(lib, segs[si..], line[end..], FieldsOf(segs, line, rest), line[pos..end]);
  }

  lemma {:induction false} TilingFits(lib: Library, segs: seq<Seg>, line: Text, si: nat, pos: nat, ends: seq<nat>)
    requires si <= |segs| && pos <= |line| && Tiles(lib, segs, line, si, pos, ends)
    ensures Fills(lib, segs, line, si, pos, CapsOf(segs, si, pos, ends))
    decreases |segs| - si
  {
    hide Fills, Tiles, CapsOf, Accepts;
    if si == |segs| {
      NothingFits(lib, segs, line, pos, ends);
    } else {
      match segs[si]
      case Literal(text) =>
        TilingLiteral(lib, segs, line, si, pos, ends);
        TilingFits(lib, segs, line, si + 1, pos + |text|, ends);
        FillsLiteral(lib, segs, line, si, pos, CapsOf(segs, si, pos, ends));
      case Capture(_, _) =>
        TilingCapture(lib, segs, line, si, pos, ends);
        TilingFits(lib, segs, line, si + 1, ends[0], ends[1..]);
        FillsCapture(lib, segs, line, si, pos, ends[0], CapsOf(segs, si + 1, ends[0], ends[1..]));
    }
  }

  lemma NothingFits(lib: Library, segs: seq<Seg>, line: Text, pos: nat, ends: seq<nat>)
    requires Tiles(lib, segs, line, |segs|, pos, ends)
    ensures pos <= |line| && Fills(lib, segs, line, |segs|, pos, CapsOf(segs, |segs|, pos, ends))
  {}

  /** Where the captures end when they take these values. */
  function EndsOf(segs: seq<Seg>, si: nat, pos: nat, values: seq<Text>): seq<nat>
    requires si <= |segs|
    decreases |segs| - si
  {
    if si == |segs| then []
    else match segs[si]
      case Literal(text) => EndsOf(segs, si + 1, pos + |text|, values)
      case Capture(_, _) =>
        if values == [] then []
        else [pos + |values[0]|] + EndsOf(segs, si + 1, pos + |values[0]|, values[1..])
  }

  lemma FitLiteral(lib: Library, segs: seq<Seg>, line: Text, values: seq<Text>)
    requires segs != [] && segs[0].Literal? && Fits(lib, segs, line, values)
    ensures |segs[0].text| <= |line| && line[..|segs[0].text|] == segs[0].text
    ensures Fits(lib, segs[1..], line[|segs[0].text|..], values)
  {
    hide Accepts;
    assert line == segs[0].text + Rebuild(segs[1..], values);
  }

  lemma FitCapture(lib: Library, segs: seq<Seg>, line: Text, values: seq<Text>)
    requires segs != [] && segs[0].Capture? && Fits(lib, segs, line, values)
    ensures values != [] && |values[0]| <= |line| && line[..|values[0]|] == values[0]
    ensures Accepts(lib, segs[0].ty, values[0]) && Fits(lib, segs[1..], line[|values[0]|..], values[1..])
  {
    hide Accepts;
    assert Captures(segs) == [segs[0]] + Captures(segs[1..]);
    assert line == values[0] + Rebuild(segs[1..], values[1..]);
    forall k | 0 <= k < |values| - 1 ensures Accepts(lib, Captures(segs[1..])[k].ty, values[1..][k]) {
      assert Captures(segs)[k + 1] == Captures(segs[1..])[k] && values[k + 1] == values[1..][k];
    }
  }

  lemma {:induction false} FitTiles(lib: Library, segs: seq<Seg>, line: Text, si: nat, pos: nat, values: seq<Text>)
    requires si <= |segs| && pos <= |line| && Fits(lib, segs[si..], line[pos..], values)
    ensures Tiles(lib, segs, line, si, pos, EndsOf(segs, si, pos, values))
    decreases |segs| - si
  {
    hide Rebuild, Captures, Accepts;
    if si < |segs| {
      assert segs[si..][1..] == segs[si + 1..];
      match segs[si]
      case Literal(text) =>
        FitLiteral(lib, segs[si..], line[pos..], values);
        assert line[pos..][|text|..] == line[pos + |text|..] && line[pos..][..|text|] == line[pos..pos + |text|];
        FitTiles(lib, segs, line, si + 1, pos + |text|, values);
      case Capture(_, _) =>
        FitCapture(lib, segs[si..], line[pos..], values);
        var n := |values[0]|;
        assert line[pos..][n..] == line[pos + n..] && line[pos..][..n] == line[pos..pos + n];
        FitTiles(lib, segs, line, si + 1, pos + n, values[1..]);
        var later := EndsOf(segs, si + 1, pos + n, values[1..]);
        assert ([pos + n] + later)[1..] == later;
    } else {
      NothingLeft(lib, segs[si..], line[pos..], values);
    }
  }

  lemma NothingLeft(lib: Library, segs: seq<Seg>, line: Text, values: seq<Text>)
    requires segs == [] && Fits(lib, segs, line, values)
    ensures line == [] && values == []
  {}

  /** Soundness and completeness against the plain meaning of a pattern: the matcher's tilings exist
      exactly when some values of the declared types make the pattern spell the line. */
  lemma MatchesIff(lib: Library, segs: seq<Seg>, line: Text)
    ensures Matches(lib, segs, line) <==> exists values :: Fits(lib, segs, line, values)
  {
    assert segs[0..] == segs && line[0..] == line;
    if Matches(lib, segs, line) {
      var ends :| Tiles(lib, segs, line, 0, 0, ends);
      TilingFits(lib, segs, line, 0, 0, ends);
    }
    if exists values :: Fits(lib, segs, line, values) {
      var values :| Fits(lib, segs, line, values);
      FitTiles(lib, segs, line, 0, 0, values);
    }
  }
}
