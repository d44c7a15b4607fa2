/** The entry points of the compiled schema: match into reused scratch space, match to borrowed
    fields, parse to a typed record. All three pick the first format whose pattern fits. */
module Dispatch {
  import opened Wrappers
  import opened Bytes
  import opened Types
  import opened Matching
  import opened Records

  /** Format `k` is the first that matches the line. */
  ghost predicate FirstMatch(lib: Library, formats: seq<Format>, line: Text, k: nat) {
    && k < |formats| && Matches(lib, formats[k].segs, line)
    && forall j :: 0 <= j < k ==> !Matches(lib, formats[j].segs, line)
  }

  ghost predicate NoneMatches(lib: Library, formats: seq<Format>, line: Text) {
    forall k :: 0 <= k < |formats| ==> !Matches(lib, formats[k].segs, line)
  }

  /** `raw` is the greediest match of the format: its fields come from the greatest tiling, fill the
      pattern's captures, and spell the line. */
  ghost predicate GreediestMatch(lib: Library, fmt: Format, line: Text, ends: seq<nat>, raw: RawMatch) {
    && Greatest(lib, fmt.segs, line, 0, 0, ends)
    && Filled(lib, fmt.segs, line, raw.fields)
    && raw.format == fmt.name
    && var caps := CapsOf(fmt.segs, 0, 0, ends);
       && (forall k :: 0 <= k < |caps| ==> InRange(fmt.segs, line, caps[k]))
       && raw.fields == FieldsOf(fmt.segs, line, caps)
  }

  /** `match_into`: whatever the context held before is dropped. */
  method MatchInto(lib: Library, fmt: Format, line: Text, ctx: MatchCtx) returns (matched: bool, ghost ends: seq<nat>)
    modifies ctx
    ensures matched <==> Matches(lib, fmt.segs, line)
    ensures matched ==> Greatest(lib, fmt.segs, line, 0, 0, ends) && ctx.caps == CapsOf(fmt.segs, 0, 0, ends)
    ensures !matched ==> ctx.caps == []
  {
    ctx.Reset();
    matched, ends := MatchSegments(lib, fmt.segs, line, 0, 0, ctx);
    assert [] + CapsOf(fmt.segs, 0, 0, ends) == CapsOf(fmt.segs, 0, 0, ends);
  }

  /** `into_raw`: the fields of the captured ranges. */
  method IntoRaw(lib: Library, fmt: Format, line: Text, ctx: MatchCtx, ghost ends: seq<nat>) returns (raw: RawMatch)
    requires Greatest(lib, fmt.segs, line, 0, 0, ends) && ctx.caps == CapsOf(fmt.segs, 0, 0, ends)
    ensures GreediestMatch(lib, fmt, line, ends, raw)
  {
    hide Filled, Greatest, CapsOf, FieldsOf, Fits, InRange;
    WholeTiling(lib, fmt.segs, line, ends);
    ghost var caps := ctx.caps;
    NoFields(fmt.segs, line);
    assert caps[..0] == [];
    var fields: seq<Field> := [];
    for i := 0 to |ctx.caps|
      invariant ctx.caps == caps
      invariant fields == FieldsOf(fmt.segs, line, caps[..i])
    {
      FieldsSnoc(fmt.segs, line, caps[..i], caps[i]);
      assert caps[..i + 1] == caps[..i] + [caps[i]];
      fields := fields + [FieldOf(fmt.segs, line, ctx.caps[i])];
    }
    assert caps[..|caps|] == caps;
    raw := RawMatch(fmt.name, fields);
    assert Greatest(lib, fmt.segs, line, 0, 0, ends);
  }

  lemma NoFields(segs: seq<Seg>, line: Text)
    ensures FieldsOf(segs, line, []) == []
  {}

  lemma {:induction false} FieldsSnoc(segs: seq<Seg>, line: Text, caps: seq<Cap>, cap: Cap)
    requires InRange(segs, line, cap) && forall k :: 0 <= k < |caps| ==> InRange(segs, line, caps[k])
    ensures FieldsOf(segs, line, caps + [cap]) == FieldsOf(segs, line, caps) + [FieldOf(segs, line, cap)]
  {
    hide InRange;
    if caps == [] {
      assert [cap][1..] == [];
    } else {
      assert (caps + [cap])[1..] == caps[1..] + [cap];
      FieldsSnoc(segs, line, caps[1..], cap);
    }
  }

  lemma WholeTiling(lib: Library, segs: seq<Seg>, line: Text, ends: seq<nat>)
    requires Greatest(lib, segs, line, 0, 0, ends)
    ensures var caps := CapsOf(segs, 0, 0, ends);
            (forall k :: 0 <= k < |caps| ==> InRange(segs, line, caps[k]))
            && Filled(lib, segs, line, FieldsOf(segs, line, caps))
  {
    TilingFits(lib, segs, line, 0, 0, ends);
    hide Tiles, CapsOf, FieldsOf, InRange, Filled;
    assert segs[0..] == segs && line[0..] == line;
  }

  /** `matches`. */
  method MatchesAny(lib: Library, formats: seq<Format>, line: Text, ctx: MatchCtx) returns (any: bool)
    modifies ctx
    ensures any <==> !NoneMatches(lib, formats, line)
  {
    var k := 0;
    while k < |formats|
      invariant k <= |formats|
      invariant forall j :: 0 <= j < k ==> !Matches(lib, formats[j].segs, line)
    {
      ctx.Reset();
      var matched, _ := MatchInto(lib, formats[k], line, ctx);
      if matched {
        return true;
      }
      k := k + 1;
    }
    return false;
  }

  /** `match_line`. */
  method MatchLine(lib: Library, formats: seq<Format>, line: Text, ctx: MatchCtx)
    returns (r: Option<RawMatch>, ghost k: nat, ghost ends: seq<nat>)
    modifies ctx
    ensures r.None? <==> NoneMatches(lib, formats, line)
    ensures r.Some? ==> FirstMatch(lib, formats, line, k) && GreediestMatch(lib, formats[k], line, ends, r.value)
  {
    var i := 0;
    k, ends := 0, [];
    while i < |formats|
      invariant i <= |formats|
      invariant forall j :: 0 <= j < i ==> !Matches(lib, formats[j].segs, line)
    {
      ctx.Reset();
      var matched;
      matched, ends := MatchInto(lib, formats[i], line, ctx);
      if matched {
        var raw := IntoRaw(lib, formats[i], line, ctx, ends);
        return Some(raw), i, ends;
      }
      i := i + 1;
    }
    return None, 0, [];
  }

  /** `parse_line`: the same choice and the same fields, typed and redacted. */
  method ParseLine(lib: Library, formats: seq<Format>, line: Text)
    returns (r: Option<Record>, ghost k: nat, ghost ends: seq<nat>, ghost raw: RawMatch)
    ensures r.None? <==> NoneMatches(lib, formats, line)
    ensures r.Some? ==>
              && FirstMatch(lib, formats, line, k) && GreediestMatch(lib, formats[k], line, ends, raw)
              && r.value.format == formats[k].name && |r.value.fields| == |raw.fields|
              && forall i :: 0 <= i < |raw.fields| ==>
                   r.value.fields[i] == TypedField(raw.fields[i].name,
                       ExpectedValue(lib, formats[k], formats[k].redactions, raw.fields, i))
  {
    var i := 0;
    k, ends, raw := 0, [], RawMatch("", []);
    while i < |formats|
      invariant i <= |formats|
      invariant forall j :: 0 <= j < i ==> !Matches(lib, formats[j].segs, line)
    {
      hide GreediestMatch, ExpectedValue;
      var ctx := new MatchCtx();
      var matched;
      matched, ends := MatchInto(lib, formats[i], line, ctx);
      if matched {
        var found := IntoRaw(lib, formats[i], line, ctx, ends);
        var record := BuildRecord(lib, formats[i], found);
        assert found.format == formats[i].name by { assert GreediestMatch(lib, formats[i], line, ends, found); }
        return Some(record), i, ends, found;
      }
      i := i + 1;
    }
    return None, 0, [], RawMatch("", []);
  }

  /** The entry points pick one match: the first format is unique, and so is its greatest tiling. */
  lemma ChoiceUnique(lib: Library, formats: seq<Format>, line: Text, k: nat, m: nat, a: seq<nat>, b: seq<nat>)
    requires FirstMatch(lib, formats, line, k) && FirstMatch(lib, formats, line, m)
    requires Greatest(lib, formats[k].segs, line, 0, 0, a) && Greatest(lib, formats[m].segs, line, 0, 0, b)
    ensures k == m && a == b
  {
    TilingLength(lib, formats[k].segs, line, 0, 0, a, b);
    AtLeastBoth(a, b);
  }

  lemma {:induction false} TilingLength(lib: Library, segs: seq<Seg>, line: Text, si: nat, pos: nat, a: seq<nat>,
                                        b: seq<nat>)
    requires si <= |segs| && Tiles(lib, segs, line, si, pos, a)
    requires exists p :: Tiles(lib, segs, line, si, p, b)
    ensures |a| == |b|
    decreases |segs| - si
  {
    var p :| Tiles(lib, segs, line, si, p, b);
    if si < |segs| {
      match segs[si]
      case Literal(text) =>
        assert Tiles(lib, segs, line, si + 1, p + |text|, b);
        TilingLength(lib, segs, line, si + 1, pos + |text|, a, b);
      case Capture(_, _) =>
        assert Tiles(lib, segs, line, si + 1, b[0], b[1..]);
        TilingLength(lib, segs, line, si + 1, a[0], a[1..], b[1..]);
    }
  }

  lemma {:induction false} AtLeastBoth(a: seq<nat>, b: seq<nat>)
    requires |a| == |b| && AtLeast(a, b) && AtLeast(b, a)
    ensures a == b
  {
    if a != [] {
      AtLeastBoth(a[1..], b[1..]);
      assert a == [a[0]] + a[1..] && b == [b[0]] + b[1..];
    }
  }

  /** The first format that matches wins, whatever comes after it. */
  lemma FirstFormatWins(lib: Library, before: seq<Format>, fmt: Format, after: seq<Format>, line: Text)
    requires Matches(lib, fmt.segs, line)
    requires forall j :: 0 <= j < |before| ==> !Matches(lib, before[j].segs, line)
    ensures FirstMatch(lib, before + [fmt] + after, line, |before|)
    ensures !NoneMatches(lib, before + [fmt] + after, line)
  {
    hide Matches;
    var all := before + [fmt] + after;
    assert all[|before|] == fmt && forall j :: 0 <= j < |before| ==> all[j] == before[j];
  }

  // ---- Delimited fields ----

  /** Captures separated by a literal text. */
  function Delimited(caps: seq<Seg>, d: Text): seq<Seg>
    requires caps != []
  {
    if |caps| == 1 then caps else [caps[0], Literal(d)] + Delimited(caps[1..], d)
  }

  predicate AllCaptures(caps: seq<Seg>) {
    caps != [] && forall k :: 0 <= k < |caps| ==> caps[k].Capture?
  }

  /** Values with a separator between them. */
  function JoinWith(values: seq<Text>, d: Text): Text
    requires values != []
  {
    if |values| == 1 then values[0] else values[0] + d + JoinWith(values[1..], d)
  }

  /** A capture and a separator in front of a pattern. */
  lemma Separated(cap: Seg, d: Text, rest: seq<Seg>)
    requires cap.Capture?
    ensures var segs := [cap, Literal(d)] + rest;
            segs[0] == cap && segs[1..][0] == Literal(d) && segs[1..][1..] == rest
    ensures Captures([cap, Literal(d)] + rest) == [cap] + Captures(rest)
  {
    var segs := [cap, Literal(d)] + rest;
    assert segs[1..] == [Literal(d)] + rest && segs[1..][1..] == rest;
    assert Captures(segs[1..]) == Captures(rest);
  }

  lemma {:induction false} DelimitedCaptures(caps: seq<Seg>, d: Text)
    requires AllCaptures(caps)
    ensures Captures(Delimited(caps, d)) == caps
  {
    if |caps| == 1 {
      assert Captures(caps[1..]) == [];
    } else {
      DelimitedCaptures(caps[1..], d);
      Separated(caps[0], d, Delimited(caps[1..], d));
      hide Captures;
    }
  }

  lemma RebuildSeparated(cap: Seg, d: Text, rest: seq<Seg>, value: Text, values: seq<Text>)
    requires cap.Capture? && |values| == |Captures(rest)|
    ensures |Captures([cap, Literal(d)] + rest)| == 1 + |values|
    ensures Rebuild([cap, Literal(d)] + rest, [value] + values) == value + d + Rebuild(rest, values)
  {
    Separated(cap, d, rest);
    hide Captures;
    var segs := [cap, Literal(d)] + rest;
    assert ([value] + values)[1..] == values;
    assert Rebuild(segs[1..], values) == d + Rebuild(rest, values);
    assert value + (d + Rebuild(rest, values)) == value + d + Rebuild(rest, values);
  }

  lemma {:induction false} DelimitedSpells(caps: seq<Seg>, d: Text, values: seq<Text>)
    requires AllCaptures(caps) && |values| == |caps|
    ensures Captures(Delimited(caps, d)) == caps
    ensures Rebuild(Delimited(caps, d), values) == JoinWith(values, d)
  {
    DelimitedCaptures(caps, d);
    if |caps| == 1 {
      assert Rebuild(caps, values) == values[0] + [];
    } else {
      var rest := Delimited(caps[1..], d);
      DelimitedSpells(caps[1..], d, values[1..]);
      RebuildSeparated(caps[0], d, rest, values[0], values[1..]);
      hide Rebuild, Captures;
      assert [values[0]] + values[1..] == values;
    }
  }

  // Where the separators are.

  /** Where value `k` ends in the joined text, and the separator behind it, if any, begins. */
  function EndAt(values: seq<Text>, d: Text, k: nat): nat
    requires k < |values|
  {
    |values[0]| + if k == 0 then 0 else |d| + EndAt(values[1..], d, k - 1)
  }

  /** The separator occurs only where it was put, not even in part across a value and a separator. */
  ghost predicate OnlySeparators(values: seq<Text>, d: Text)
    requires values != []
  {
    forall i: nat :: StartsWith(JoinWith(values, d), i, d) ==> exists k: nat :: IsSeparator(values, d, k, i)
  }

  predicate IsSeparator(values: seq<Text>, d: Text, k: nat, i: nat) {
    k + 1 < |values| && EndAt(values, d, k) == i
  }

  /** Behind a value and a separator. */
  lemma Shifted(v: Text, d: Text, tail: Text, i: nat, text: Text)
    ensures StartsWith(v + d + tail, |v|, d)
    ensures StartsWith(v + d + tail, |v| + |d| + i, text) == StartsWith(tail, i, text)
    ensures (v + d + tail)[..|v|] == v && (v + d + tail)[|v| + |d|..] == tail
  {
    if i + |text| <= |tail| {
      assert (v + d + tail)[|v| + |d| + i..|v| + |d| + i + |text|] == tail[i..i + |text|];
    }
  }

  lemma {:induction false} SeparatorOccurs(values: seq<Text>, d: Text, k: nat)
    requires k + 1 < |values|
    ensures StartsWith(JoinWith(values, d), EndAt(values, d, k), d)
  {
    hide StartsWith;
    if k == 0 {
      Shifted(values[0], d, JoinWith(values[1..], d), 0, d);
    } else {
      SeparatorOccurs(values[1..], d, k - 1);
      Shifted(values[0], d, JoinWith(values[1..], d), EndAt(values[1..], d, k - 1), d);
    }
  }

  lemma {:induction false} EndsAscend(values: seq<Text>, d: Text, j: nat, k: nat)
    requires d != [] && j < k < |values|
    ensures EndAt(values, d, j) < EndAt(values, d, k)
  {
    if j > 0 {
      EndsAscend(values[1..], d, j - 1, k - 1);
    }
  }

  lemma {:induction false} LastEnd(values: seq<Text>, d: Text)
    requires values != []
    ensures EndAt(values, d, |values| - 1) == |JoinWith(values, d)|
  {
    if |values| > 1 {
      LastEnd(values[1..], d);
    }
  }

  /** The k-th separator of another splitting is a separator of this one, say the m-th; `m` is at least
      `k` counting from the front, and at most `k` counting from the back. */
  lemma SomeSeparator(values: seq<Text>, other: seq<Text>, d: Text, k: nat) returns (m: nat)
    requires OtherSplit(values, other, d) && k + 1 < |values|
    ensures IsSeparator(values, d, m, EndAt(other, d, k))
  {
    hide JoinWith, EndAt;
    SeparatorOccurs(other, d, k);
    m :| IsSeparator(values, d, m, EndAt(other, d, k));
  }

  ghost predicate OtherSplit(values: seq<Text>, other: seq<Text>, d: Text) {
    && d != [] && values != [] && |other| == |values| && OnlySeparators(values, d)
    && JoinWith(other, d) == JoinWith(values, d)
  }

  lemma {:induction false} NotBefore(values: seq<Text>, other: seq<Text>, d: Text, k: nat)
    requires OtherSplit(values, other, d) && k + 1 < |values|
    ensures EndAt(other, d, k) >= EndAt(values, d, k)
  {
    hide OtherSplit, EndAt;
    var m := SomeSeparator(values, other, d, k);
    OtherEnds(values, other, d);
    if k > 0 {
      NotBefore(values, other, d, k - 1);
      EndsAscend(other, d, k - 1, k);
      if m < k - 1 {
        EndsAscend(values, d, m, k - 1);
      }
    }
    if k < m {
      EndsAscend(values, d, k, m);
    }
  }

  lemma {:induction false} NotAfter(values: seq<Text>, other: seq<Text>, d: Text, k: nat)
    requires OtherSplit(values, other, d) && k + 1 < |values|
    ensures EndAt(other, d, k) <= EndAt(values, d, k)
    decreases |values| - k
  {
    hide OtherSplit, EndAt;
    var m := SomeSeparator(values, other, d, k);
    OtherEnds(values, other, d);
    if k + 2 < |values| {
      NotAfter(values, other, d, k + 1);
      EndsAscend(other, d, k, k + 1);
      if k + 1 < m {
        EndsAscend(values, d, k + 1, m);
      }
    }
    if m < k {
      EndsAscend(values, d, m, k);
    }
  }

  lemma OtherEnds(values: seq<Text>, other: seq<Text>, d: Text)
    requires OtherSplit(values, other, d)
    ensures d != [] && |other| == |values| > 0
    ensures EndAt(other, d, |other| - 1) == EndAt(values, d, |values| - 1)
  {
    hide EndAt;
    LastEnd(values, d);
    LastEnd(other, d);
  }

  /** Texts that are joined to the same text and end at the same places are the same. */
  lemma {:induction false} SameEnds(values: seq<Text>, other: seq<Text>, d: Text)
    requires values != [] && |other| == |values| && JoinWith(other, d) == JoinWith(values, d)
    requires forall k :: 0 <= k < |values| ==> EndAt(other, d, k) == EndAt(values, d, k)
    ensures other == values
  {
    hide JoinWith, EndAt, StartsWith;
    if |values| == 1 {
      JoinOne(values, d);
      JoinOne(other, d);
    } else {
      assert EndAt(other, d, 0) == EndAt(values, d, 0);
      EndStep(values, d, 0);
      EndStep(other, d, 0);
      JoinStep(values, d);
      JoinStep(other, d);
      Shifted(values[0], d, JoinWith(values[1..], d), 0, d);
      Shifted(other[0], d, JoinWith(other[1..], d), 0, d);
      forall k | 0 <= k < |values| - 1 ensures EndAt(other[1..], d, k) == EndAt(values[1..], d, k) {
        assert EndAt(other, d, k + 1) == EndAt(values, d, k + 1);
        EndStep(values, d, k + 1);
        EndStep(other, d, k + 1);
      }
      SameEnds(values[1..], other[1..], d);
      assert values == [values[0]] + values[1..] && other == [other[0]] + other[1..];
    }
  }

  lemma EndStep(values: seq<Text>, d: Text, k: nat)
    requires k < |values|
    ensures EndAt(values, d, k) == |values[0]| + if k == 0 then 0 else |d| + EndAt(values[1..], d, k - 1)
  {}

  lemma JoinOne(values: seq<Text>, d: Text)
    requires |values| == 1
    ensures JoinWith(values, d) == values[0] && values == [values[0]]
  {}

  lemma JoinStep(values: seq<Text>, d: Text)
    requires |values| > 1
    ensures JoinWith(values, d) == values[0] + d + JoinWith(values[1..], d)
  {}

  lemma DelimitedUnique(values: seq<Text>, other: seq<Text>, d: Text)
    requires OtherSplit(values, other, d)
    ensures other == values
  {
    forall k | 0 <= k < |values| ensures EndAt(other, d, k) == EndAt(values, d, k) {
      hide OtherSplit, EndAt;
      OtherEnds(values, other, d);
      if k + 1 < |values| {
        NotBefore(values, other, d, k);
        NotAfter(values, other, d, k);
      }
    }
    hide EndAt, JoinWith;
    SameEnds(values, other, d);
  }

  /** Delimited fields are recovered: the line joined from values of the declared types, in which the
      separator occurs only where it was put, matches, and every tiling of it, the greedy one too, has
      exactly those values. */
  lemma DelimitedRecovered(lib: Library, caps: seq<Seg>, d: Text, values: seq<Text>)
    requires AllCaptures(caps) && |values| == |caps| && d != [] && OnlySeparators(values, d)
    requires forall k :: 0 <= k < |caps| ==> Accepts(lib, caps[k].ty, values[k])
    ensures Matches(lib, Delimited(caps, d), JoinWith(values, d))
    ensures forall other :: Fits(lib, Delimited(caps, d), JoinWith(values, d), other) <==> other == values
  {
    hide Rebuild, Captures, Delimited, JoinWith, OnlySeparators;
    var segs, line := Delimited(caps, d), JoinWith(values, d);
    DelimitedSpells(caps, d, values);
    assert Fits(lib, segs, line, values);
    forall other | Fits(lib, segs, line, other)
      ensures other == values
    {
      DelimitedCaptures(caps, d);
      DelimitedSpells(caps, d, other);
      DelimitedUnique(values, other, d);
    }
    MatchesIff(lib, segs, line);
  }

  lemma CharacterAt(v: Text, d: Byte, tail: Text, i: nat)
    requires d !in v && i < |v + [d] + tail| && (v + [d] + tail)[i] == d
    ensures i >= |v| && (i > |v| ==> tail[i - |v| - 1] == d)
  {
    assert forall k :: 0 <= k < |v| ==> (v + [d] + tail)[k] == v[k];
  }

  lemma {:induction false} OnlyCharacters(values: seq<Text>, d: Byte, i: nat) returns (k: nat)
    requires values != [] && FreeOf(values, d) && i < |JoinWith(values, [d])| && JoinWith(values, [d])[i] == d
    ensures IsSeparator(values, [d], k, i)
  {
    k := 0;
    if |values| > 1 {
      CharacterAt(values[0], d, JoinWith(values[1..], [d]), i);
      if i > |values[0]| {
        assert forall j :: 0 <= j < |values| - 1 ==> values[1..][j] == values[j + 1];
        k := OnlyCharacters(values[1..], d, i - |values[0]| - 1);
        k := k + 1;
      }
    } else {
      assert false;
    }
  }

  /** A separator of one character only has to be absent from the values. */
  lemma CharacterDelimited(values: seq<Text>, d: Byte)
    requires values != [] && FreeOf(values, d)
    ensures OnlySeparators(values, [d])
  {
    hide JoinWith, FreeOf, EndAt;
    forall i: nat | StartsWith(JoinWith(values, [d]), i, [d]) ensures exists k: nat :: IsSeparator(values, [d], k, i) {
      assert JoinWith(values, [d])[i..i + 1][0] == d;
      var k := OnlyCharacters(values, d, i);
    }
  }

  lemma {:induction false} JoinCharacters(values: seq<Text>, d: Byte)
    requires values != []
    ensures JoinWith(values, [d]) == Join(values, d)
  {
    if |values| > 1 {
      JoinCharacters(values[1..], d);
    }
  }

  /** Fields separated by one character, as `str::split` would part them, are recovered when none holds it. */
  lemma CharactersRecovered(lib: Library, caps: seq<Seg>, d: Byte, values: seq<Text>)
    requires AllCaptures(caps) && |values| == |caps| && FreeOf(values, d)
    requires forall k :: 0 <= k < |caps| ==> Accepts(lib, caps[k].ty, values[k])
    ensures Matches(lib, Delimited(caps, [d]), Join(values, d))
    ensures forall other :: Fits(lib, Delimited(caps, [d]), Join(values, d), other) <==> other == values
  {
    hide Delimited, JoinWith, Join, Fits, Accepts, FreeOf, OnlySeparators;
    CharacterDelimited(values, d);
    JoinCharacters(values, d);
    DelimitedRecovered(lib, caps, [d], values);
  }
}
