/** `Grok::new`, `Grok::find` and `Grok::scan`: the compiled pattern, its full search, and the literal
    pre-scan in front of it. */
module Prescan {
  import opened Wrappers
  import opened Utf8
  import opened Tokens
  import opened Expansion

  // ---- The longest literal ----

  /** Some character is neither a backslash nor a space. */
  predicate NotNoise(s: string) {
    exists k :: 0 <= k < |s| && s[k] != '\\' && s[k] != ' '
  }

  /** Lengths are in bytes, as `str::len` has them. */
  predicate Anchor(t: Token, minLen: nat) {
    t.Literal? && |Encode(t.text)| >= minLen && NotNoise(t.text)
  }

  /** The first of the longest usable literals among the tokens. */
  ghost predicate IsAnchor(tokens: seq<Token>, minLen: nat, at: nat) {
    && at < |tokens| && Anchor(tokens[at], minLen)
    && forall k :: 0 <= k < |tokens| && Anchor(tokens[k], minLen) ==>
         |Encode(tokens[k].text)| <= |Encode(tokens[at].text)|
             && (k < at ==> |Encode(tokens[k].text)| < |Encode(tokens[at].text)|)
  }

  ghost predicate IsFastLiteral(pattern: string, minLen: nat, fast: Option<string>) {
    if Tokenize(pattern).Err? then fast.None?
    else
      var tokens := Tokenize(pattern).value;
      && (fast.None? ==> forall k :: 0 <= k < |tokens| ==> !Anchor(tokens[k], minLen))
      && (fast.Some? ==> exists at: nat :: IsAnchor(tokens, minLen, at) && tokens[at] == Literal(fast.value))
  }

  /** `fast_literal`. */
  method FastLiteral(pattern: string, minLen: nat) returns (best: Option<string>)
    ensures IsFastLiteral(pattern, minLen, best)
  {
    hide Tokenize, Encode, NotNoise;
    var parsed := TokenizeGrok(pattern);
    if parsed.Err? {
      return None;
    }
    var tokens := parsed.value;
    ghost var at := 0;
    best := None;
    for n := 0 to |tokens|
      invariant best.None? ==> forall k :: 0 <= k < n ==> !Anchor(tokens[k], minLen)
      invariant best.Some? ==> at < n && tokens[at] == Literal(best.value) && IsAnchor(tokens[..n], minLen, at)
    {
      ghost var before := tokens[..n];
      assert tokens[..n + 1] == before + [tokens[n]];
      match tokens[n] {
        case Literal(s) =>
          if |Encode(s)| >= minLen && (best.None? || |Encode(s)| > |Encode(best.value)|) {
            if NotNoise(s) {
              best, at := Some(s), n;
            }
          }
        case Capture(_, _, _) =>
      }
    }
    assert tokens[..|tokens|] == tokens;
  }

  // ---- The regex library ----

  /** The library as the engine uses it. `lang` is what a source matches, told the whole input and both
      positions, which covers anchors and word boundaries. `complete` tells the sources that are regular
      expressions on their own, and stay so between the brackets of a group. */
  datatype Regex = Regex(
    escape: string -> string, complete: string -> bool, lang: (string, string, nat, nat) -> bool,
    compiles: string -> bool, search: (string, string) -> Option<(nat, nat)>)

  /** What the sources the engine writes are made of. */
  datatype Item = Quoted(text: string) | Group(name: Option<string>, body: string)

  function ItemSource(escape: string -> string, item: Item): string {
    match item
    case Quoted(text) => escape(text)
    case Group(None, body) => "(?:" + body + ")"
    case Group(Some(name), body) => "(?<" + name + ">" + body + ")"
  }

  function Source(escape: string -> string, items: seq<Item>): string {
    if items == [] then "" else Source(escape, items[..|items| - 1]) + ItemSource(escape, items[|items| - 1])
  }

  /** Every group has a complete body and, if it is named, a name that is one. */
  predicate WellGrouped(complete: string -> bool, items: seq<Item>) {
    forall k :: 0 <= k < |items| && items[k].Group? ==>
      complete(items[k].body) && (items[k].name.Some? ==> ValidGroupName(items[k].name.value))
  }

  /** A match splits at `k`, before the last item. */
  predicate SplitsAt(re: Regex, items: seq<Item>, s: string, i: nat, j: nat, k: nat)
    requires items != []
  {
    var n := |items| - 1;
    i <= k <= j && re.lang(Source(re.escape, items[..n]), s, i, k) && re.lang(ItemSource(re.escape, items[n]), s, k, j)
  }

  /** An escaped text matches itself; escaped texts and well-formed groups match one after another; and a
      search finds only what its source matches. Nothing is assumed of other sources. */
  ghost predicate Lawful(re: Regex) {
    && (forall text, s, i, j :: re.lang(re.escape(text), s, i, j) ==> OccursAt(text, s, i))
    && (forall items, s, i, j ::
          items != [] && WellGrouped(re.complete, items) && re.lang(Source(re.escape, items), s, i, j) ==>
          exists k :: SplitsAt(re, items, s, i, j, k))
    && (forall source, s :: re.search(source, s).Some? ==>
          re.lang(source, s, re.search(source, s).value.0, re.search(source, s).value.1))
  }

  /** Every escaped text of a source occurs in every input the source matches. */
  lemma {:induction false} QuotedOccurs(re: Regex, items: seq<Item>, s: string, i: nat, j: nat, at: nat)
    requires Lawful(re) && WellGrouped(re.complete, items) && re.lang(Source(re.escape, items), s, i, j)
    requires at < |items| && items[at].Quoted?
    ensures Occurs(items[at].text, s)
  {
    hide Source, ItemSource;
    var n := |items| - 1;
    var k :| SplitsAt(re, items, s, i, j, k);
    if at == n {
      assert ItemSource(re.escape, items[n]) == re.escape(items[n].text) by { QuotedSource(re.escape, items[n]); }
      assert OccursAt(items[n].text, s, k);
    } else {
      QuotedOccurs(re, items[..n], s, i, k, at);
    }
  }

  lemma QuotedSource(escape: string -> string, item: Item)
    requires item.Quoted?
    ensures ItemSource(escape, item) == escape(item.text)
  {}

  // ---- What the compiled source is made of ----

  function ItemOf(defs: Definitions, t: Token): Item
    requires t.Capture? ==> Expand(defs, t.name, []).Ok?
  {
    if t.Literal? then Quoted(t.text) else Group(t.field, Expand(defs, t.name, []).value)
  }

  lemma CompiledItem(defs: Definitions, escape: string -> string, t: Token)
    requires CompileToken(defs, escape, t).Ok?
    ensures t.Capture? ==> Expand(defs, t.name, []).Ok?
    ensures CompileToken(defs, escape, t).value == ItemSource(escape, ItemOf(defs, t))
  {
    hide Expand, ValidGroupName;
  }

  lemma CompiledInit(defs: Definitions, escape: string -> string, tokens: seq<Token>)
    requires tokens != [] && CompileTokens(defs, escape, tokens).Ok?
    ensures var n := |tokens| - 1;
            var init, last := CompileTokens(defs, escape, tokens[..n]), CompileToken(defs, escape, tokens[n]);
            init.Ok? && last.Ok? && CompileTokens(defs, escape, tokens).value == init.value + last.value
  {
    hide CompileToken;
  }

  lemma SourcePush(escape: string -> string, items: seq<Item>, item: Item)
    ensures Source(escape, items + [item]) == Source(escape, items) + ItemSource(escape, item)
  {
    hide ItemSource;
    assert (items + [item])[..|items|] == items;
  }

  /** The compiled source: every top-level literal escaped, every reference enclosed in a group. */
  lemma {:induction false} CompiledItems(defs: Definitions, escape: string -> string, tokens: seq<Token>)
    returns (items: seq<Item>)
    requires CompileTokens(defs, escape, tokens).Ok?
    ensures Source(escape, items) == CompileTokens(defs, escape, tokens).value && |items| == |tokens|
    ensures forall k :: 0 <= k < |tokens| ==>
              (tokens[k].Capture? ==> Expand(defs, tokens[k].name, []).Ok?) && items[k] == ItemOf(defs, tokens[k])
  {
    if tokens == [] {
      items := [];
    } else {
      hide Expand, CompileToken, CompileTokens, ItemOf, ItemSource, Source;
      var n := |tokens| - 1;
      CompiledInit(defs, escape, tokens);
      var init := CompiledItems(defs, escape, tokens[..n]);
      CompiledItem(defs, escape, tokens[n]);
      SourcePush(escape, init, ItemOf(defs, tokens[n]));
      items := init + [ItemOf(defs, tokens[n])];
      assert forall k :: 0 <= k < n ==> tokens[..n][k] == tokens[k];
    }
  }

  // ---- Complete definitions expand to complete sources ----

  /** A definition with sources in the place of its references, each in a group. */
  function Fill(tokens: seq<Token>, subs: seq<string>): string
    requires |subs| == |tokens|
  {
    if tokens == [] then ""
    else
      var n := |tokens| - 1;
      Fill(tokens[..n], subs[..n]) + if tokens[n].Literal? then tokens[n].text else "(?:" + subs[n] + ")"
  }

  predicate FillsWith(complete: string -> bool, tokens: seq<Token>, subs: seq<string>) {
    |subs| == |tokens| && forall k :: 0 <= k < |tokens| && tokens[k].Capture? ==> complete(subs[k])
  }

  /** A definition is a regular expression on its own, whatever ones its references stand for. */
  ghost predicate CompleteDefinition(complete: string -> bool, tokens: seq<Token>) {
    forall subs :: FillsWith(complete, tokens, subs) ==> complete(Fill(tokens, subs))
  }

  ghost predicate CompleteLibrary(complete: string -> bool, defs: Definitions) {
    forall name :: Known(defs, name) ==> CompleteDefinition(complete, Tokenize(defs[name]).value)
  }

  /** An expansion is a complete source, because the code groups every reference it unfolds. */
  lemma {:induction false} ExpansionComplete(complete: string -> bool, defs: Definitions, name: string,
                                             stack: seq<string>)
    requires CompleteLibrary(complete, defs) && Expand(defs, name, stack).Ok?
    ensures complete(Expand(defs, name, stack).value)
    decreases MAX_DEPTH + 1 - |stack|, 0, 0
  {
    hide Tokenize;
    assert Known(defs, name);
    var tokens := Tokenize(defs[name]).value;
    var subs := ExpansionFills(complete, defs, tokens, stack + [name]);
  }

  lemma {:induction false} ExpansionFills(complete: string -> bool, defs: Definitions, tokens: seq<Token>,
                                          stack: seq<string>)
    returns (subs: seq<string>)
    requires CompleteLibrary(complete, defs) && ExpandTokens(defs, tokens, stack).Ok?
    ensures FillsWith(complete, tokens, subs) && ExpandTokens(defs, tokens, stack).value == Fill(tokens, subs)
    decreases MAX_DEPTH + 1 - |stack|, 1, |tokens|
  {
    hide Tokenize, Expand, CompleteLibrary, Fill;
    if tokens == [] {
      subs := [];
      NothingFilled();
    } else {
      var n := |tokens| - 1;
      var init := ExpansionFills(complete, defs, tokens[..n], stack);
      var sub := "";
      if tokens[n].Capture? {
        ExpansionComplete(complete, defs, tokens[n].name, stack);
        sub := Expand(defs, tokens[n].name, stack).value;
      }
      FillPush(complete, tokens, init, sub);
      subs := init + [sub];
    }
  }

  lemma NothingFilled()
    ensures Fill([], []) == ""
  {}

  lemma FillPush(complete: string -> bool, tokens: seq<Token>, init: seq<string>, sub: string)
    requires tokens != [] && FillsWith(complete, tokens[..|tokens| - 1], init)
    requires tokens[|tokens| - 1].Capture? ==> complete(sub)
    ensures FillsWith(complete, tokens, init + [sub])
    ensures var last := tokens[|tokens| - 1];
            Fill(tokens, init + [sub]) ==
            Fill(tokens[..|tokens| - 1], init) + if last.Literal? then last.text else "(?:" + sub + ")"
  {
    hide Fill;
    FillLast(tokens, init, sub);
    var n := |tokens| - 1;
    forall k | 0 <= k < |tokens| && tokens[k].Capture? ensures complete((init + [sub])[k]) {
      if k < n {
        assert tokens[..n][k] == tokens[k] && (init + [sub])[k] == init[k];
      }
    }
  }

  lemma FillLast(tokens: seq<Token>, init: seq<string>, sub: string)
    requires |tokens| == |init| + 1
    ensures var last := tokens[|tokens| - 1];
            Fill(tokens, init + [sub]) ==
            Fill(tokens[..|tokens| - 1], init) + if last.Literal? then last.text else "(?:" + sub + ")"
  {
    assert (init + [sub])[..|init|] == init;
  }

  lemma LiteralItem(defs: Definitions, t: Token)
    requires t.Literal?
    ensures ItemOf(defs, t) == Quoted(t.text)
  {}

  /** What the engine writes is well grouped: it checks group names, and expansions are complete. */
  lemma CompiledWellGrouped(complete: string -> bool, defs: Definitions, escape: string -> string, tokens: seq<Token>,
                            items: seq<Item>)
    requires CompleteLibrary(complete, defs) && CompileTokens(defs, escape, tokens).Ok? && |items| == |tokens|
    requires forall k :: 0 <= k < |tokens| ==>
               (tokens[k].Capture? ==> Expand(defs, tokens[k].name, []).Ok?) && items[k] == ItemOf(defs, tokens[k])
    ensures WellGrouped(complete, items)
  {
    hide Expand, CompileTokens, CompleteLibrary, ValidGroupName;
    CompilesIff(defs, escape, tokens);
    forall k | 0 <= k < |items| && items[k].Group?
      ensures complete(items[k].body) && (items[k].name.Some? ==> ValidGroupName(items[k].name.value))
    {
      assert Compiles(defs, tokens[k]);
      ExpansionComplete(complete, defs, tokens[k].name, []);
    }
  }

  // ---- The engine ----

  /** A compiled pattern. */
  datatype Engine = Engine(source: string, fast: Option<string>)

  ghost predicate Built(re: Regex, defs: Definitions, pattern: string, engine: Engine) {
    CompilePattern(defs, re.escape, pattern) == Ok(engine.source) && IsFastLiteral(pattern, 3, engine.fast)
  }

  /** `Grok::new`. */
  method New(re: Regex, defs: Definitions, pattern: string) returns (r: Result<Engine, GrokError>)
    ensures r.Ok? ==> Built(re, defs, pattern, r.value) && re.compiles(r.value.source)
    ensures r.Err? ==>
              var compiled := CompilePattern(defs, re.escape, pattern);
              if compiled.Err? then r.error == compiled.error
              else !re.compiles(compiled.value) && r.error == InvalidRegex(compiled.value)
  {
    hide Tokenize, CompileTokens, IsFastLiteral;
    var source := Compile(defs, re.escape, pattern);
    if source.Err? {
      return Err(source.error);
    }
    if !re.compiles(source.value) {
      return Err(InvalidRegex(source.value));
    }
    var fast := FastLiteral(pattern, 3);
    return Ok(Engine(source.value, fast));
  }

  function Find(re: Regex, engine: Engine, s: string): Option<(nat, nat)> {
    re.search(engine.source, s)
  }

  /** `scan`: give up at once when the bytes of the fast literal are absent, else search. */
  ghost function Scan(re: Regex, engine: Engine, s: string): Option<(nat, nat)> {
    if engine.fast.Some? && !Occurs(Encode(engine.fast.value), Encode(s)) then None else Find(re, engine, s)
  }

  /** The pre-scan gives up exactly when the fast literal is not in the input, character for character. */
  lemma ScanRejectsIff(re: Regex, defs: Definitions, pattern: string, engine: Engine, s: string)
    requires Built(re, defs, pattern, engine) && engine.fast.Some?
    ensures Scan(re, engine, s) == if Occurs(engine.fast.value, s) then Find(re, engine, s) else None
  {
    hide Tokenize, Encode, CompilePattern;
    if engine.fast.value == "" {
      NoBytes();
    } else {
      OccursIff(engine.fast.value, s);
    }
  }

  /** Noise is backslashes and spaces. */
  lemma NoiseIff(s: string)
    ensures !NotNoise(s) <==> forall c :: c in s ==> c == '\\' || c == ' '
  {
    forall c | c in s && c != '\\' && c != ' ' ensures NotNoise(s) {
      var k :| 0 <= k < |s| && s[k] == c;
    }
    forall k | 0 <= k < |s| ensures s[k] in s {}
  }

  /** The pre-scan never changes the answer: the fast literal is a top-level literal of the pattern, the
      compiled source keeps it outside every group, and so every match holds it. */
  lemma ScanIsFind(re: Regex, defs: Definitions, pattern: string, engine: Engine, s: string)
    requires Lawful(re) && CompleteLibrary(re.complete, defs) && Built(re, defs, pattern, engine)
    ensures Scan(re, engine, s) == Find(re, engine, s)
  {
    hide Tokenize, Expand, Encode, CompleteLibrary, CompileTokens, WellGrouped, ItemOf;
    var found := re.search(engine.source, s);
    if found.Some? && engine.fast.Some? {
      var tokens := Tokenize(pattern).value;
      var at: nat :| IsAnchor(tokens, 3, at) && tokens[at] == Literal(engine.fast.value);
      var items := CompiledItems(defs, re.escape, tokens);
      assert items[at] == Quoted(engine.fast.value) by { LiteralItem(defs, tokens[at]); }
      CompiledWellGrouped(re.complete, defs, re.escape, tokens, items);
      QuotedOccurs(re, items, s, found.value.0, found.value.1, at);
      OccursInBytes(engine.fast.value, s);
    }
  }
}
