/** Expanding Grok references: recursive, with a cycle guard and a depth guard, over any library of
    named definitions; and compiling a pattern. */
module Expansion {
  import opened Wrappers
  import opened Grok
  import opened Tokens

  const MAX_DEPTH: nat := 64

  type Definitions = map<string, string>

  type Expanded = Result<string, GrokError>

  // ---- The code's recursion, stack and all ----

  function Expand(defs: Definitions, name: string, stack: seq<string>): Expanded
    decreases MAX_DEPTH + 1 - |stack|, 0, 0
  {
    if name in stack then Err(Cycle(name))
    else if |stack| >= MAX_DEPTH then Err(TooDeep(name))
    else if name !in defs then Err(UnknownPattern(name))
    else match Tokenize(defs[name])
      case Err(e) => Err(e)
      case Ok(tokens) => ExpandTokens(defs, tokens, stack + [name])
  }

  /** The tokens of a definition: literals as they are, references expanded inside a group. */
  function ExpandTokens(defs: Definitions, tokens: seq<Token>, stack: seq<string>): Expanded
    decreases MAX_DEPTH + 1 - |stack|, 1, |tokens|
  {
    if tokens == [] then Ok("")
    else
      var init, last := tokens[..|tokens| - 1], tokens[|tokens| - 1];
      match ExpandTokens(defs, init, stack)
      case Err(e) => Err(e)
      case Ok(before) =>
        if last.Literal? then Ok(before + last.text)
        else match Expand(defs, last.name, stack)
          case Err(e) => Err(e)
          case Ok(sub) => Ok(before + ("(?:" + sub + ")"))
  }

  /** The names being expanded, innermost last. */
  class RefStack {
    var names: seq<string>

    constructor ()
      ensures names == []
    {
      names := [];
    }
  }

  /** `expand_ref`: on success the stack is as it was. */
  method ExpandRef(defs: Definitions, name: string, stack: RefStack) returns (r: Expanded)
    modifies stack
    ensures r == Expand(defs, name, old(stack.names))
    ensures r.Ok? ==> stack.names == old(stack.names)
    decreases MAX_DEPTH + 1 - |stack.names|, 0
  {
    if name in stack.names {
      return Err(Cycle(name));
    }
    if |stack.names| >= MAX_DEPTH {
      return Err(TooDeep(name));
    }
    ghost var outer := stack.names;
    stack.names := stack.names + [name];
    if name !in defs {
      return Err(UnknownPattern(name));
    }
    var parsed := TokenizeGrok(defs[name]);
    if parsed.Err? {
      return Err(parsed.error);
    }
    hide Tokenize, ExpandTokens;
    r := ExpandAll(defs, parsed.value, stack);
    if r.Ok? {
      stack.names := stack.names[..|stack.names| - 1];
    }
  }

  /** The tokens of one definition, from left to right. */
  method ExpandAll(defs: Definitions, tokens: seq<Token>, stack: RefStack) returns (r: Expanded)
    modifies stack
    ensures r == ExpandTokens(defs, tokens, old(stack.names))
    ensures r.Ok? ==> stack.names == old(stack.names)
    decreases MAX_DEPTH + 1 - |stack.names|, 1
  {
    ghost var names := stack.names;
    var out := "";
    for k := 0 to |tokens|
      invariant stack.names == names
      invariant ExpandTokens(defs, tokens[..k], names) == Ok(out)
    {
      assert tokens[..k + 1][..k] == tokens[..k];
      hide Expand;
      match tokens[k] {
        case Literal(text) => out := out + text;
        case Capture(sub, _, _) =>
          var expanded := ExpandRef(defs, sub, stack);
          if expanded.Err? {
            TokenErrorStays(defs, tokens, k + 1, names);
            return expanded;
          }
          out := out + ("(?:" + expanded.value + ")");
      }
    }
    assert tokens[..|tokens|] == tokens;
    return Ok(out);
  }

  lemma {:induction false} TokenErrorStays(defs: Definitions, tokens: seq<Token>, k: nat, stack: seq<string>)
    requires k <= |tokens| && ExpandTokens(defs, tokens[..k], stack).Err?
    ensures ExpandTokens(defs, tokens, stack) == ExpandTokens(defs, tokens[..k], stack)
  {
    if k < |tokens| {
      assert tokens[..|tokens| - 1][..k] == tokens[..k];
      TokenErrorStays(defs, tokens[..|tokens| - 1], k, stack);
    } else {
      assert tokens[..k] == tokens;
    }
  }

  // ---- When expansion succeeds ----

  /** A definition that is there and tokenizes. */
  predicate Known(defs: Definitions, name: string) {
    name in defs && Tokenize(defs[name]).Ok?
  }

  predicate Refers(defs: Definitions, name: string, sub: string) {
    Known(defs, name) && RefersIn(Tokenize(defs[name]).value, sub)
  }

  predicate RefersIn(tokens: seq<Token>, sub: string) {
    exists k :: 0 <= k < |tokens| && tokens[k].Capture? && tokens[k].name == sub
  }

  /** A chain of references, each name referring to the next. */
  ghost predicate Chain(defs: Definitions, names: seq<string>) {
    names != [] && forall k :: 0 <= k < |names| - 1 ==> Refers(defs, names[k], names[k + 1])
  }

  ghost predicate NoRepeat(names: seq<string>) {
    forall j, k :: 0 <= j < k < |names| ==> names[j] != names[k]
  }

  /** Below `stack`, the chain meets no name twice, no unknown name, and not too many names. */
  ghost predicate Sound(defs: Definitions, stack: seq<string>, names: seq<string>) {
    && (forall k :: 0 <= k < |names| ==> Known(defs, names[k]) && names[k] !in stack)
    && NoRepeat(names)
    && |stack| + |names| <= 64
  }

  lemma {:induction false} TokenExpands(defs: Definitions, tokens: seq<Token>, stack: seq<string>, sub: string)
    requires ExpandTokens(defs, tokens, stack).Ok? && RefersIn(tokens, sub)
    ensures Expand(defs, sub, stack).Ok?
  {
    var k :| 0 <= k < |tokens| && tokens[k].Capture? && tokens[k].name == sub;
    if k < |tokens| - 1 {
      assert tokens[..|tokens| - 1][k] == tokens[k];
      hide Expand;
      TokenExpands(defs, tokens[..|tokens| - 1], stack, sub);
    }
  }

  /** A successful expansion has been down every chain. */
  lemma {:induction false} ExpandedChain(defs: Definitions, name: string, stack: seq<string>, names: seq<string>)
    requires Expand(defs, name, stack).Ok? && Chain(defs, names) && names[0] == name
    ensures Sound(defs, stack, names)
    decreases |names|
  {
    if |names| > 1 {
      hide Tokenize;
      var later := names[1..];
      assert Refers(defs, names[0], names[1]);
      TokenExpands(defs, Tokenize(defs[name]).value, stack + [name], later[0]);
      forall k | 0 <= k < |later| - 1 ensures Refers(defs, later[k], later[k + 1]) {
        assert Refers(defs, names[k + 1], names[k + 2]);
      }
      ExpandedChain(defs, later[0], stack + [name], later);
      forall k | 0 < k < |names| ensures Known(defs, names[k]) && names[k] !in stack && names[k] != name {
        assert names[k] == later[k - 1];
      }
      forall j, k | 0 <= j < k < |names| ensures names[j] != names[k] {
        if j > 0 {
          assert later[j - 1] != later[k - 1];
        }
      }
    }
  }

  lemma {:induction false} TokenFails(defs: Definitions, tokens: seq<Token>, stack: seq<string>) returns (sub: string)
    requires ExpandTokens(defs, tokens, stack).Err?
    ensures RefersIn(tokens, sub) && Expand(defs, sub, stack) == ExpandTokens(defs, tokens, stack)
  {
    var init, last := tokens[..|tokens| - 1], tokens[|tokens| - 1];
    if ExpandTokens(defs, init, stack).Err? {
      hide Expand;
      sub := TokenFails(defs, init, stack);
      var k :| 0 <= k < |init| && init[k].Capture? && init[k].name == sub;
      assert tokens[k].Capture? && tokens[k].name == sub;
    } else {
      sub := last.name;
    }
  }

  /** What is wrong with a name met below `stack`; the first that applies. */
  function Fault(defs: Definitions, stack: seq<string>, name: string): Option<GrokError> {
    if name in stack then Some(Cycle(name))
    else if |stack| >= 64 then Some(TooDeep(name))
    else if name !in defs then Some(UnknownPattern(name))
    else match Tokenize(defs[name])
      case Err(e) => Some(e)
      case Ok(_) => None
  }

  /** A failed expansion has met a chain that is not sound, and reports what is wrong with its last name. */
  lemma {:induction false} FailedChain(defs: Definitions, name: string, stack: seq<string>) returns (names: seq<string>)
    requires Expand(defs, name, stack).Err?
    ensures Chain(defs, names) && names[0] == name && !Sound(defs, stack, names)
    ensures var n := |names| - 1;
            Fault(defs, stack + names[..n], names[n]) == Some(Expand(defs, name, stack).error)
    decreases MAX_DEPTH + 1 - |stack|
  {
    hide Tokenize;
    if name in stack || |stack| >= MAX_DEPTH || !Known(defs, name) {
      names := [name];
      assert names[0] == name && stack + names[..0] == stack;
    } else {
      var sub := TokenFails(defs, Tokenize(defs[name]).value, stack + [name]);
      var later := FailedChain(defs, sub, stack + [name]);
      names := [name] + later;
      assert Refers(defs, name, sub);
      forall k | 0 <= k < |names| - 1 ensures Refers(defs, names[k], names[k + 1]) {
        if k > 0 {
          assert Refers(defs, later[k - 1], later[k]);
        }
      }
      SoundTail(defs, stack, name, later);
      var n := |later| - 1;
      assert names[|names| - 1] == later[n] && stack + names[..n + 1] == stack + [name] + later[..n];
    }
  }

  lemma NoRepeatTail(name: string, later: seq<string>)
    requires NoRepeat([name] + later)
    ensures NoRepeat(later) && name !in later
  {
    var names := [name] + later;
    forall k | 0 <= k < |later| ensures later[k] != name {
      assert names[0] != names[k + 1];
    }
    forall j, k | 0 <= j < k < |later| ensures later[j] != later[k] {
      assert names[j + 1] != names[k + 1];
    }
  }

  lemma SoundTail(defs: Definitions, stack: seq<string>, name: string, later: seq<string>)
    ensures Sound(defs, stack, [name] + later) ==> Sound(defs, stack + [name], later)
  {
    hide Known, NoRepeat;
    var names := [name] + later;
    if Sound(defs, stack, names) {
      NoRepeatTail(name, later);
      forall k | 0 <= k < |later| ensures Known(defs, later[k]) && later[k] !in stack + [name] {
        assert names[k + 1] == later[k];
      }
    }
  }

  /** Expansion succeeds exactly when every chain of references is repeat-free, of at most 64 names,
      and made of names that are defined and tokenize. */
  lemma ExpandsIff(defs: Definitions, name: string)
    ensures Expand(defs, name, []).Ok? <==>
            forall names :: Chain(defs, names) && names[0] == name ==> Sound(defs, [], names)
  {
    if Expand(defs, name, []).Ok? {
      forall names | Chain(defs, names) && names[0] == name ensures Sound(defs, [], names) {
        ExpandedChain(defs, name, [], names);
      }
    } else {
      var names := FailedChain(defs, name, []);
    }
  }

  /** A failed expansion reports what is wrong with the last name of some chain of references: a repetition,
      a sixty-fifth name, a name without a definition, or a definition that does not tokenize. */
  lemma ExpandError(defs: Definitions, name: string) returns (names: seq<string>)
    requires Expand(defs, name, []).Err?
    ensures Chain(defs, names) && names[0] == name
    ensures var n := |names| - 1;
            Fault(defs, names[..n], names[n]) == Some(Expand(defs, name, []).error)
  {
    names := FailedChain(defs, name, []);
    assert [] + names[..|names| - 1] == names[..|names| - 1];
  }

  // ---- What expansion computes ----

  /** The plain unfolding of a name, with no stack: definitions replaced `fuel` levels deep. */
  function Unfold(defs: Definitions, name: string, fuel: nat): Option<string>
    decreases fuel, 0
  {
    if fuel == 0 || name !in defs then None
    else match Tokenize(defs[name])
      case Err(_) => None
      case Ok(tokens) => UnfoldTokens(defs, tokens, fuel - 1)
  }

  function UnfoldTokens(defs: Definitions, tokens: seq<Token>, fuel: nat): Option<string>
    decreases fuel, 1 + |tokens|
  {
    if tokens == [] then Some("")
    else
      var last := tokens[|tokens| - 1];
      var part := if last.Literal? then Some(last.text) else Unfold(defs, last.name, fuel);
      match (UnfoldTokens(defs, tokens[..|tokens| - 1], fuel), part)
      case (Some(before), Some(sub)) => Some(before + if last.Literal? then sub else "(?:" + sub + ")")
      case _ => None
  }

  lemma {:induction false} ExpandIsUnfold(defs: Definitions, name: string, stack: seq<string>, fuel: nat)
    requires Expand(defs, name, stack).Ok? && |stack| + fuel >= MAX_DEPTH
    ensures Unfold(defs, name, fuel) == Some(Expand(defs, name, stack).value)
    decreases MAX_DEPTH + 1 - |stack|, 0, 0
  {
    hide Tokenize;
    TokensUnfold(defs, Tokenize(defs[name]).value, stack + [name], fuel - 1);
  }

  lemma {:induction false} TokensUnfold(defs: Definitions, tokens: seq<Token>, stack: seq<string>, fuel: nat)
    requires ExpandTokens(defs, tokens, stack).Ok? && |stack| + fuel >= MAX_DEPTH
    ensures UnfoldTokens(defs, tokens, fuel) == Some(ExpandTokens(defs, tokens, stack).value)
    decreases MAX_DEPTH + 1 - |stack|, 1, |tokens|
  {
    if tokens != [] {
      hide Expand, Unfold;
      var last := tokens[|tokens| - 1];
      TokensUnfold(defs, tokens[..|tokens| - 1], stack, fuel);
      if last.Capture? {
        ExpandIsUnfold(defs, last.name, stack, fuel);
      }
    }
  }

  /** A successful expansion is the full unfolding of the name, whatever the depth allowed from 64 up. */
  lemma ExpansionIsUnfolding(defs: Definitions, name: string, fuel: nat)
    requires Expand(defs, name, []).Ok? && fuel >= MAX_DEPTH
    ensures Unfold(defs, name, fuel) == Some(Expand(defs, name, []).value)
  {
    ExpandIsUnfold(defs, name, [], fuel);
  }

  // ---- Nothing is left to expand ----

  predicate EndsPercent(s: string) {
    s != "" && s[|s| - 1] == '%'
  }

  lemma PlainConcat(a: string, b: string)
    requires PlainText(a) && PlainText(b) && (EndsPercent(a) && b != "" ==> b[0] != '{')
    ensures PlainText(a + b)
  {
    forall k | 0 <= k < |a + b| ensures !OpensAt(a + b, k) {
      if k + 1 < |a| {
        assert OpensAt(a + b, k) == OpensAt(a, k);
      } else if k >= |a| {
        assert OpensAt(a + b, k) == OpensAt(b, k - |a|);
      }
    }
  }

  lemma PlainGroup(sub: string)
    requires PlainText(sub)
    ensures PlainText("(?:" + sub + ")")
  {
    PlainConcat("(?:", sub);
    PlainConcat("(?:" + sub, ")");
  }

  /** Literals hold no `%{` and are never next to each other. */
  predicate Spaced(tokens: seq<Token>) {
    forall k :: 0 <= k < |tokens| && tokens[k].Literal? ==>
      PlainText(tokens[k].text) && (k + 1 < |tokens| ==> tokens[k + 1].Capture?)
  }

  lemma {:induction false} WellCutSpaced(pieces: seq<Piece>)
    requires WellCut(pieces)
    ensures forall k :: 0 <= k < |pieces| && pieces[k].Lit? ==>
              PlainText(pieces[k].text) && (k + 1 < |pieces| ==> pieces[k + 1].Ref?)
  {
    if pieces != [] {
      var later := pieces[1..];
      WellCutSpaced(later);
      hide PlainText, Balanced;
      forall k | 0 < k < |pieces| && pieces[k].Lit?
        ensures PlainText(pieces[k].text) && (k + 1 < |pieces| ==> pieces[k + 1].Ref?)
      {
        assert pieces[k] == later[k - 1];
        assert k + 1 < |pieces| ==> pieces[k + 1] == later[k];
      }
    }
  }

  lemma TokensSpaced(s: string)
    requires Tokenize(s).Ok?
    ensures Spaced(Tokenize(s).value)
  {
    PrintTokenize(s);
    var ts := Tokenize(s).value;
    WellCutSpaced(PiecesOf(ts));
    hide Tokenize, PlainText;
    forall k | 0 <= k < |ts| ensures PiecesOf(ts)[k] == PieceOf(ts[k]) && WellNamed(ts[k]) {}
  }

  /** No `%{` survives expansion: every reference is gone, and none is put together from the pieces. */
  lemma {:induction false} ExpansionIsPlain(defs: Definitions, name: string, stack: seq<string>)
    requires Expand(defs, name, stack).Ok?
    ensures PlainText(Expand(defs, name, stack).value)
    decreases MAX_DEPTH + 1 - |stack|, 0, 0
  {
    hide Tokenize, PlainText, Spaced;
    TokensSpaced(defs[name]);
    TokensPlain(defs, Tokenize(defs[name]).value, stack + [name]);
  }

  lemma {:induction false} TokensPlain(defs: Definitions, tokens: seq<Token>, stack: seq<string>)
    requires ExpandTokens(defs, tokens, stack).Ok? && Spaced(tokens)
    ensures var out := ExpandTokens(defs, tokens, stack).value;
            PlainText(out) && (EndsPercent(out) ==> tokens != [] && tokens[|tokens| - 1].Literal?)
    decreases MAX_DEPTH + 1 - |stack|, 1, |tokens|
  {
    if tokens != [] {
      hide Expand, PlainText;
      var n := |tokens| - 1;
      var init, last := tokens[..n], tokens[n];
      assert forall k :: 0 <= k < n ==> init[k] == tokens[k];
      TokensPlain(defs, init, stack);
      var before := ExpandTokens(defs, init, stack).value;
      if last.Literal? {
        assert n > 0 ==> tokens[n - 1].Capture?;
        PlainConcat(before, last.text);
      } else {
        ExpansionIsPlain(defs, last.name, stack);
        PlainGroup(Expand(defs, last.name, stack).value);
        PlainConcat(before, "(?:" + Expand(defs, last.name, stack).value + ")");
      }
    }
  }

  // ---- Compiling a pattern ----

  predicate LetterOrUnderscore(c: char) {
    c == '_' || 'a' <= c <= 'z' || 'A' <= c <= 'Z'
  }

  predicate ValidGroupName(s: string) {
    && s != "" && LetterOrUnderscore(s[0])
    && forall k :: 1 <= k < |s| ==> LetterOrUnderscore(s[k]) || '0' <= s[k] <= '9'
  }

  /** The regex source of one top-level token: an escaped literal, or a group around the expansion. */
  function CompileToken(defs: Definitions, escape: string -> string, t: Token): Expanded {
    if t.Literal? then Ok(escape(t.text))
    else match Expand(defs, t.name, [])
      case Err(e) => Err(e)
      case Ok(sub) =>
        match t.field
        case None => Ok("(?:" + sub + ")")
        case Some(f) => if ValidGroupName(f) then Ok("(?<" + f + ">" + sub + ")") else Err(InvalidGroupName(f))
  }

  function CompileTokens(defs: Definitions, escape: string -> string, tokens: seq<Token>): Expanded {
    if tokens == [] then Ok("")
    else match CompileTokens(defs, escape, tokens[..|tokens| - 1])
      case Err(e) => Err(e)
      case Ok(before) =>
        match CompileToken(defs, escape, tokens[|tokens| - 1])
        case Err(e) => Err(e)
        case Ok(sub) => Ok(before + sub)
  }

  lemma CompileNext(defs: Definitions, escape: string -> string, tokens: seq<Token>, k: nat)
    requires k < |tokens|
    ensures var before, token := CompileTokens(defs, escape, tokens[..k]), CompileToken(defs, escape, tokens[k]);
            CompileTokens(defs, escape, tokens[..k + 1]) ==
            if before.Err? then before else if token.Err? then token else Ok(before.value + token.value)
  {
    hide CompileToken;
    assert tokens[..k + 1][..k] == tokens[..k];
  }

  /** The regex source of a whole pattern. */
  function CompilePattern(defs: Definitions, escape: string -> string, pattern: string): Expanded {
    var parsed := Tokenize(pattern);
    if parsed.Err? then Err(parsed.error) else CompileTokens(defs, escape, parsed.value)
  }

  /** `compile`: one stack serves all the references, because each expansion leaves it empty again. */
  method Compile(defs: Definitions, escape: string -> string, pattern: string) returns (r: Expanded)
    ensures r == CompilePattern(defs, escape, pattern)
  {
    var parsed := TokenizeGrok(pattern);
    if parsed.Err? {
      return Err(parsed.error);
    }
    var tokens, out := parsed.value, "";
    var stack := new RefStack();
    for k := 0 to |tokens|
      invariant stack.names == []
      invariant CompileTokens(defs, escape, tokens[..k]) == Ok(out)
    {
      CompileNext(defs, escape, tokens, k);
      hide Tokenize, Expand, ValidGroupName, CompileTokens;
      match tokens[k] {
        case Literal(text) => out := out + escape(text);
        case Capture(name, field, _) =>
          var expanded := ExpandRef(defs, name, stack);
          if expanded.Err? {
            CompileErrorStays(defs, escape, tokens, k + 1);
            return expanded;
          }
          match field {
            case Some(f) =>
              if !ValidGroupName(f) {
                CompileErrorStays(defs, escape, tokens, k + 1);
                return Err(InvalidGroupName(f));
              }
              out := out + ("(?<" + f + ">" + expanded.value + ")");
            case None => out := out + ("(?:" + expanded.value + ")");
          }
      }
    }
    assert tokens[..|tokens|] == tokens;
    return Ok(out);
  }

  lemma {:induction false} CompileErrorStays(defs: Definitions, escape: string -> string, tokens: seq<Token>, k: nat)
    requires k <= |tokens| && CompileTokens(defs, escape, tokens[..k]).Err?
    ensures CompileTokens(defs, escape, tokens) == CompileTokens(defs, escape, tokens[..k])
  {
    if k < |tokens| {
      assert tokens[..|tokens| - 1][..k] == tokens[..k];
      CompileErrorStays(defs, escape, tokens[..|tokens| - 1], k);
    } else {
      assert tokens[..k] == tokens;
    }
  }

  /** What compiling one token asks for. */
  predicate Compiles(defs: Definitions, t: Token) {
    t.Capture? ==> Expand(defs, t.name, []).Ok? && (t.field.Some? ==> ValidGroupName(t.field.value))
  }

  lemma TokenCompiles(defs: Definitions, escape: string -> string, t: Token)
    ensures CompileToken(defs, escape, t).Ok? <==> Compiles(defs, t)
  {
    hide Expand, ValidGroupName;
  }

  /** A pattern compiles exactly when each of its references expands under a valid group name. */
  lemma {:induction false} CompilesIff(defs: Definitions, escape: string -> string, tokens: seq<Token>)
    ensures CompileTokens(defs, escape, tokens).Ok? <==>
            forall k :: 0 <= k < |tokens| ==> Compiles(defs, tokens[k])
  {
    hide CompileToken, Compiles;
    if tokens != [] {
      var n := |tokens| - 1;
      CompilesIff(defs, escape, tokens[..n]);
      TokenCompiles(defs, escape, tokens[n]);
      assert forall k :: 0 <= k < n ==> tokens[..n][k] == tokens[k];
    }
  }

  lemma {:induction false} CompiledParts(defs: Definitions, escape: string -> string, a: seq<Token>, b: seq<Token>)
    requires CompileTokens(defs, escape, a + b).Ok?
    ensures CompileTokens(defs, escape, a).Ok? && CompileTokens(defs, escape, b).Ok?
    ensures CompileTokens(defs, escape, a + b).value ==
            CompileTokens(defs, escape, a).value + CompileTokens(defs, escape, b).value
  {
    hide CompileToken, CompileTokens;
    if b == [] {
      assert a + b == a;
      CompiledNone(defs, escape);
    } else {
      var n := |b| - 1;
      assert a + b == a + b[..n] + [b[n]] && b == b[..n] + [b[n]];
      CompiledPush(defs, escape, a + b[..n], b[n]);
      CompiledPush(defs, escape, b[..n], b[n]);
      CompiledParts(defs, escape, a, b[..n]);
    }
  }

  lemma CompiledNone(defs: Definitions, escape: string -> string)
    ensures CompileTokens(defs, escape, []) == Ok("")
  {}

  lemma CompiledPush(defs: Definitions, escape: string -> string, tokens: seq<Token>, t: Token)
    ensures var before, one := CompileTokens(defs, escape, tokens), CompileToken(defs, escape, t);
            CompileTokens(defs, escape, tokens + [t]) ==
            if before.Err? then before else if one.Err? then one else Ok(before.value + one.value)
  {
    hide CompileToken;
    assert (tokens + [t])[..|tokens|] == tokens;
  }

  lemma CompiledOne(defs: Definitions, escape: string -> string, t: Token)
    ensures CompileTokens(defs, escape, [t]) == CompileToken(defs, escape, t)
  {
    hide CompileToken;
    assert [t][..0] == [];
    var one := CompileToken(defs, escape, t);
    assert one.Ok? ==> "" + one.value == one.value;
  }

  /** A literal is compiled to itself, escaped; a reference to its expansion between the brackets of a group,
      which has the name of its output field, if it has one. */
  lemma CompiledAround(defs: Definitions, escape: string -> string, before: seq<Token>, t: Token, after: seq<Token>)
    requires CompileTokens(defs, escape, before + [t] + after).Ok?
    ensures CompileTokens(defs, escape, before).Ok? && CompileTokens(defs, escape, after).Ok?
    ensures t.Capture? ==> Expand(defs, t.name, []).Ok?
    ensures CompileTokens(defs, escape, before + [t] + after).value ==
            CompileTokens(defs, escape, before).value
            + (if t.Literal? then escape(t.text)
               else if t.field.Some? then "(?<" + t.field.value + ">" + Expand(defs, t.name, []).value + ")"
               else "(?:" + Expand(defs, t.name, []).value + ")")
            + CompileTokens(defs, escape, after).value
  {
    hide CompileTokens, Expand, ValidGroupName;
    CompiledParts(defs, escape, before + [t], after);
    CompiledParts(defs, escape, before, [t]);
    CompiledOne(defs, escape, t);
  }

  /** A group name is letters, digits and underscores, and does not begin with a digit. */
  lemma GroupNameIff(s: string)
    ensures ValidGroupName(s) <==>
            && s != "" && !('0' <= s[0] <= '9')
            && forall k :: 0 <= k < |s| ==>
                 s[k] == '_' || '0' <= s[k] <= '9' || 'A' <= s[k] <= 'Z' || 'a' <= s[k] <= 'z'
  {}

  /** A pattern that does not compile reports its first token at fault: what its expansion reports, else the
      field that is no group name. */
  lemma {:induction false} CompileFault(defs: Definitions, escape: string -> string, tokens: seq<Token>)
    returns (k: nat)
    requires CompileTokens(defs, escape, tokens).Err?
    ensures k < |tokens| && tokens[k].Capture? && CompileTokens(defs, escape, tokens[..k]).Ok?
    ensures var error, expanded := CompileTokens(defs, escape, tokens).error, Expand(defs, tokens[k].name, []);
            if expanded.Err? then error == expanded.error
            else tokens[k].field.Some? && !ValidGroupName(tokens[k].field.value)
                 && error == InvalidGroupName(tokens[k].field.value)
  {
    hide Expand, ValidGroupName;
    var n := |tokens| - 1;
    if CompileTokens(defs, escape, tokens[..n]).Err? {
      k := CompileFault(defs, escape, tokens[..n]);
      assert tokens[..n][..k] == tokens[..k];
    } else {
      k := n;
    }
  }
}
