/** Laws of the matcher that a reader of patterns relies on: what a string capture may hold, and what
    greedy means. */
module MatchLaws {
  import opened Types
  import opened Matching
  import opened Spelling

  // ---- String captures ----

  /** A single string capture matches every line, the empty one included. */
  lemma StringMatchesAll(lib: Library, field: string, line: Text)
    ensures Matches(lib, [Capture(field, String)], line)
  {
    var segs := [Capture(field, String)];
    StringAccepts(lib, String, line);
    hide Accepts;
    var values: seq<Text> := [line];
    assert segs[1..] == [] && values[1..] == [];
    assert Captures(segs) == [segs[0]] + Captures(segs[1..]) == segs;
    assert Rebuild(segs, values) == line + Rebuild(segs[1..], values[1..]) == line;
    assert Fits(lib, segs, line, values);
    MatchesIff(lib, segs, line);
  }

  /** The text at a string capture may be replaced by any other, and the pattern matches the line so rebuilt. */
  lemma StringReplaceable(lib: Library, segs: seq<Seg>, line: Text, values: seq<Text>, k: nat, text: Text)
    requires Fits(lib, segs, line, values) && k < |values| && Captures(segs)[k].ty == String
    ensures Matches(lib, segs, Rebuild(segs, values[k := text]))
  {
    hide Accepts, Captures, Rebuild;
    StringAccepts(lib, String, text);
    assert Fits(lib, segs, Rebuild(segs, values[k := text]), values[k := text]);
    MatchesIff(lib, segs, Rebuild(segs, values[k := text]));
  }

  /** No capture of another type ever holds the empty text. */
  lemma EmptyIsString(lib: Library, segs: seq<Seg>, line: Text, values: seq<Text>, k: nat)
    requires Fits(lib, segs, line, values) && k < |values| && values[k] == []
    ensures Captures(segs)[k].ty == String
  {
    hide Accepts, Captures, Rebuild;
    StringAccepts(lib, Captures(segs)[k].ty, []);
  }

  /** A string capture between two texts matches exactly the lines that begin with the one and end with
      the other, with nothing or something between them. */
  lemma BetweenTexts(lib: Library, field: string, before: Text, after: Text, line: Text)
    ensures Matches(lib, [Literal(before), Capture(field, String), Literal(after)], line) <==>
            |line| >= |before| + |after| && before <= line && line[|line| - |after|..] == after
  {
    hide Accepts;
    var segs := [Literal(before), Capture(field, String), Literal(after)];
    MatchesIff(lib, segs, line);
    BetweenRebuilds(field, before, after);
    hide Rebuild, Captures;
    if |line| >= |before| + |after| && before <= line && line[|line| - |after|..] == after {
      var value := line[|before|..|line| - |after|];
      StringAccepts(lib, String, value);
      assert line == before + (value + after);
      assert Fits(lib, segs, line, [value]);
    }
    if exists values :: Fits(lib, segs, line, values) {
      var values :| Fits(lib, segs, line, values);
      assert values == [values[0]];
      assert line == before + (values[0] + after);
    }
  }

  lemma BetweenRebuilds(field: string, before: Text, after: Text)
    ensures var segs := [Literal(before), Capture(field, String), Literal(after)];
            && Captures(segs) == [Capture(field, String)]
            && forall value: Text :: Rebuild(segs, [value]) == before + (value + after)
  {
    var segs := [Literal(before), Capture(field, String), Literal(after)];
    var rest := [Capture(field, String), Literal(after)];
    assert segs[1..] == rest && rest[1..] == [Literal(after)] && [Literal(after)][1..] == [];
    assert Captures([Literal(after)]) == [];
    assert Captures(rest) == [Capture(field, String)];
    forall value: Text ensures Rebuild(segs, [value]) == before + (value + after) {
      var values: seq<Text> := [value];
      assert values[1..] == [];
      assert Rebuild([Literal(after)], []) == after + [];
      assert Rebuild(rest, [value]) == value + after;
    }
  }

  // ---- Greedy ----

  /** The greatest tiling differs from any other first at a capture that it ends later: each capture, from
      the left, is as long as the ones before it allow. */
  lemma GreedyFromTheLeft(lib: Library, segs: seq<Seg>, line: Text, ends: seq<nat>, other: seq<nat>)
    requires Greatest(lib, segs, line, 0, 0, ends) && Tiles(lib, segs, line, 0, 0, other) && other != ends
    ensures exists k: nat :: EndsLater(ends, other, k)
  {
    hide Tiles, AtLeast;
    TilesEnds(lib, segs, line, 0, 0, ends);
    TilesEnds(lib, segs, line, 0, 0, other);
    var k := LaterAt(ends, other);
  }

  predicate EndsLater(ends: seq<nat>, other: seq<nat>, k: nat) {
    k < |ends| && k < |other| && ends[..k] == other[..k] && ends[k] > other[k]
  }

  lemma {:induction false} TilesEnds(lib: Library, segs: seq<Seg>, line: Text, si: nat, pos: nat, ends: seq<nat>)
    requires si <= |segs| && Tiles(lib, segs, line, si, pos, ends)
    ensures |ends| == |Captures(segs[si..])|
    decreases |segs| - si
  {
    hide Accepts, StartsWith;
    if si < |segs| {
      assert segs[si..][1..] == segs[si + 1..] && segs[si..][0] == segs[si];
      match segs[si]
      case Literal(text) => TilesEnds(lib, segs, line, si + 1, pos + |text|, ends);
      case Capture(_, _) => TilesEnds(lib, segs, line, si + 1, ends[0], ends[1..]);
    }
  }

  lemma {:induction false} LaterAt(a: seq<nat>, b: seq<nat>) returns (k: nat)
    requires |a| == |b| && AtLeast(a, b) && a != b
    ensures EndsLater(a, b, k)
  {
    if a[0] == b[0] {
      assert a == [a[0]] + a[1..] && b == [b[0]] + b[1..];
      k := LaterAt(a[1..], b[1..]);
      k := k + 1;
      assert a[..k] == [a[0]] + a[1..][..k - 1] && b[..k] == [b[0]] + b[1..][..k - 1];
    } else {
      k := 0;
    }
  }
}
