/** `generate_rust`: appending the module's text piece by piece. */
module Generator {
  import opened Wrappers
  import opened Quoting
  import opened Lowering
  import opened Codegen
  import Types
  import Matching
  import SchemaParser

  // ---- Text that grows by lines ----

  lemma UnlinesPush(lines: seq<string>, line: string)
    ensures Unlines(lines + [line]) == Unlines(lines) + (line + "\n")
  {
    UnlinesAppend(lines, [line]);
    assert Unlines([line]) == line + "\n" by { assert [line][1..] == []; }
  }

  lemma Grow(before: string, lines: seq<string>, line: string, all: seq<string>)
    requires all == lines + [line]
    ensures before + Unlines(lines) + (line + "\n") == before + Unlines(all)
  {
    UnlinesPush(lines, line);
    hide Unlines;
  }

  lemma GrowBy(before: string, lines: seq<string>, more: seq<string>, all: seq<string>)
    requires all == lines + more
    ensures before + Unlines(lines) + Unlines(more) == before + Unlines(all)
  {
    UnlinesAppend(lines, more);
    hide Unlines;
  }

  lemma SegLinesPush(shown: char -> bool, segs: seq<Seg>, seg: Seg)
    ensures SegLines(shown, segs + [seg]) == SegLines(shown, segs) + [SegLine(shown, seg)]
  {
    hide SegLine;
  }

  lemma VariantLinesPush(shown: char -> bool, vs: seq<string>, k: nat)
    requires k < |vs|
    ensures VariantLines(shown, vs[..k + 1]) == VariantLines(shown, vs[..k]) + [VariantLine(shown, vs[k])]
  {
    hide VariantLine;
  }

  lemma RedactionLinesPush(shown: char -> bool, rs: seq<(string, Matching.RedactMode)>, k: nat)
    requires k < |rs|
    ensures RedactionLines(shown, rs[..k + 1]) == RedactionLines(shown, rs[..k]) + [RedactionLine(shown, rs[k])]
  {
    hide RedactionLine;
  }

  /** The lines of one coercion. */
  function OneCoercion(shown: char -> bool, c: (string, Target)): seq<string> {
    match c.1
    case ToType(ty) => [ToTypeLine(shown, c.0, ty)]
    case ToEnum(variants) => [ToEnumLine(shown, c.0)] + VariantLines(shown, variants) + [EnumClose()]
  }

  lemma FirstCoercion(shown: char -> bool, cs: seq<(string, Target)>, rest: seq<string>)
    requires cs != []
    ensures CoercionLines(shown, cs, rest) == OneCoercion(shown, cs[0]) + CoercionLines(shown, cs[1..], rest)
  {
    hide ToTypeLine, ToEnumLine, EnumClose, VariantLines;
  }

  lemma NoCoercion(shown: char -> bool, rest: seq<string>)
    ensures CoercionLines(shown, [], rest) == rest
  {}

  lemma Regroup(a: seq<string>, b: seq<string>, c: seq<string>)
    ensures a + (b + c) == a + b + c
  {}

  lemma {:induction false} CoercionsRest(shown: char -> bool, cs: seq<(string, Target)>, rest: seq<string>)
    ensures CoercionLines(shown, cs, rest) == CoercionLines(shown, cs, []) + rest
  {
    hide CoercionLines, OneCoercion;
    if cs == [] {
      NoCoercion(shown, rest);
      NoCoercion(shown, []);
    } else {
      FirstCoercion(shown, cs, rest);
      FirstCoercion(shown, cs, []);
      CoercionsRest(shown, cs[1..], rest);
      Regroup(OneCoercion(shown, cs[0]), CoercionLines(shown, cs[1..], []), rest);
    }
  }

  lemma {:induction false} CoercionsThen(shown: char -> bool, a: seq<(string, Target)>, b: seq<(string, Target)>,
                                         rest: seq<string>)
    ensures CoercionLines(shown, a + b, rest) == CoercionLines(shown, a, CoercionLines(shown, b, rest))
  {
    hide CoercionLines, OneCoercion;
    if a == [] {
      assert a + b == b;
      NoCoercion(shown, CoercionLines(shown, b, rest));
    } else {
      assert (a + b)[0] == a[0] && (a + b)[1..] == a[1..] + b;
      FirstCoercion(shown, a + b, rest);
      FirstCoercion(shown, a, CoercionLines(shown, b, rest));
      CoercionsThen(shown, a[1..], b, rest);
    }
  }

  lemma CoercionsSnoc(shown: char -> bool, cs: seq<(string, Target)>, k: nat)
    requires k < |cs|
    ensures CoercionLines(shown, cs[..k + 1], []) ==
            CoercionLines(shown, cs[..k], []) + CoercionLines(shown, [cs[k]], [])
  {
    hide CoercionLines;
    assert cs[..k + 1] == cs[..k] + [cs[k]];
    CoercionsThen(shown, cs[..k], [cs[k]], []);
    CoercionsRest(shown, cs[..k], CoercionLines(shown, [cs[k]], []));
  }

  lemma EndRest(shown: char -> bool, c: Compiled, rest: seq<string>)
    ensures FormatEnd(shown, c, rest) == FormatEnd(shown, c, []) + rest
  {
    hide RedactionLines, ListOpen, ListClose, FormatClose;
  }

  lemma MiddleRest(shown: char -> bool, c: Compiled, rest: seq<string>)
    ensures FormatMiddle(shown, c, rest) == FormatMiddle(shown, c, []) + rest
  {
    hide CoercionLines, FormatEnd, ListOpen, ListClose;
    EndRest(shown, c, rest);
    CoercionsRest(shown, c.coercions, Cons(ListClose(), FormatEnd(shown, c, rest)));
    CoercionsRest(shown, c.coercions, Cons(ListClose(), FormatEnd(shown, c, [])));
  }

  lemma FormatRest(shown: char -> bool, c: Compiled, rest: seq<string>)
    ensures FormatLines(shown, c, rest) == FormatLines(shown, c, []) + rest
  {
    hide FormatMiddle, SegLines, ListOpen, ListClose, FormatOpen, NameLine;
    MiddleRest(shown, c, rest);
  }

  /** The lines of the formats alone. */
  ghost function Body(shown: char -> bool, cs: seq<Compiled>): seq<string> {
    if cs == [] then [] else Body(shown, cs[..|cs| - 1]) + FormatLines(shown, cs[|cs| - 1], [])
  }

  lemma {:induction false} BodyThen(shown: char -> bool, a: seq<Compiled>, b: seq<Compiled>)
    ensures AllFormatLines(shown, a + b) == Body(shown, a) + AllFormatLines(shown, b)
  {
    hide FormatLines, Footer;
    if a == [] {
      assert a + b == b;
    } else {
      var before, c := a[..|a| - 1], a[|a| - 1];
      assert a + b == before + ([c] + b) && ([c] + b)[1..] == b;
      BodyThen(shown, before, [c] + b);
      FormatRest(shown, c, AllFormatLines(shown, b));
    }
  }

  lemma BodyPush(shown: char -> bool, cs: seq<Compiled>, c: Compiled)
    ensures Body(shown, cs + [c]) == Body(shown, cs) + FormatLines(shown, c, [])
  {
    hide FormatLines;
    assert (cs + [c])[..|cs|] == cs;
  }

  lemma BodyNone(shown: char -> bool)
    ensures Unlines(Body(shown, [])) == ""
  {}

  lemma SourceParts(shown: char -> bool, cs: seq<Compiled>)
    ensures Unlines(Header()) + Unlines(Body(shown, cs)) + Unlines(Footer()) == Source(shown, cs)
  {
    BodyThen(shown, cs, []);
    hide Header, Footer, Body, FormatLines, Unlines;
    assert cs + [] == cs;
    UnlinesAppend(Header(), Body(shown, cs) + Footer());
    UnlinesAppend(Body(shown, cs), Footer());
  }

  // ---- The loops ----

  /** One pattern part: the line for it, or the native type that is missing. */
  method EmitPart(shown: char -> bool, part: SchemaParser.PatternPart) returns (r: Result<string, CompileError>)
    ensures LowerPart(part).Ok? ==> r == Ok(SegLine(shown, LowerPart(part).value))
    ensures LowerPart(part).Err? ==> r == Err(LowerPart(part).error)
  {
    hide GrokNativeType, Quote;
    match part {
      case LiteralPart(text) =>
        return Ok(LiteralOpen() + Quote(shown, text) + LiteralEnd());
      case CapturePart(name, declared, grok, rename) =>
        var field, ty := name, declared;
        if grok {
          field := if rename.Some? then rename.value else name;
          if declared == Types.String {
            var native := GrokNativeType(name);
            if native.None? {
              return Err(UnsupportedGrok(name));
            }
            ty := native.value;
          }
        }
        return Ok(CaptureOpen() + Quote(shown, field) + (CaptureType() + Variant(ty) + CaptureEnd()));
    }
  }

  method EmitParts(shown: char -> bool, parts: seq<SchemaParser.PatternPart>, before: string)
    returns (r: Result<string, CompileError>)
    ensures All(parts, LowerPart).Ok? ==> r == Ok(before + Unlines(SegLines(shown, All(parts, LowerPart).value)))
    ensures All(parts, LowerPart).Err? ==> r == Err(All(parts, LowerPart).error)
  {
    var out := before;
    ghost var segs: seq<Seg> := [];
    for k := 0 to |parts|
      invariant All(parts[..k], LowerPart) == Ok(segs)
      invariant out == before + Unlines(SegLines(shown, segs))
    {
      hide LowerPart, SegLine, SegLines, Unlines, All;
      AllNext(parts, k, LowerPart);
      var line := EmitPart(shown, parts[k]);
      if line.Err? {
        return Err(line.error);
      }
      out := out + (line.value + "\n");
      var seg := LowerPart(parts[k]).value;
      SegLinesPush(shown, segs, seg);
      Grow(before, SegLines(shown, segs), line.value, SegLines(shown, segs + [seg]));
      segs := segs + [seg];
    }
    assert parts[..|parts|] == parts;
    return Ok(out);
  }

  method EmitVariants(shown: char -> bool, vs: seq<string>, before: string) returns (out: string)
    ensures out == before + Unlines(VariantLines(shown, vs))
  {
    out := before;
    for k := 0 to |vs|
      invariant out == before + Unlines(VariantLines(shown, vs[..k]))
    {
      hide VariantLines, VariantLine, Unlines;
      out := out + (VariantLine(shown, vs[k]) + "\n");
      VariantLinesPush(shown, vs, k);
      Grow(before, VariantLines(shown, vs[..k]), VariantLine(shown, vs[k]), VariantLines(shown, vs[..k + 1]));
    }
    assert vs[..|vs|] == vs;
  }

  method EmitRedactions(shown: char -> bool, rs: seq<(string, Matching.RedactMode)>, before: string)
    returns (out: string)
    ensures out == before + Unlines(RedactionLines(shown, rs))
  {
    out := before;
    for k := 0 to |rs|
      invariant out == before + Unlines(RedactionLines(shown, rs[..k]))
    {
      hide RedactionLines, RedactionLine, Unlines;
      out := out + (RedactionLine(shown, rs[k]) + "\n");
      RedactionLinesPush(shown, rs, k);
      Grow(before, RedactionLines(shown, rs[..k]), RedactionLine(shown, rs[k]), RedactionLines(shown, rs[..k + 1]));
    }
    assert rs[..|rs|] == rs;
  }

  method EmitCoercion(shown: char -> bool, c: (string, Target), before: string) returns (out: string)
    ensures out == before + Unlines(CoercionLines(shown, [c], []))
  {
    hide ToTypeLine, ToEnumLine, EnumClose, VariantLines, Unlines;
    assert CoercionLines(shown, [c][1..], []) == [];
    match c.1 {
      case ToType(ty) =>
        UnlinesPush([], ToTypeLine(shown, c.0, ty));
        UnlinesNone();
        assert CoercionLines(shown, [c], []) == [] + [ToTypeLine(shown, c.0, ty)];
        return before + (ToTypeLine(shown, c.0, ty) + "\n");
      case ToEnum(variants) =>
        var first, body := ToEnumLine(shown, c.0), VariantLines(shown, variants);
        out := EmitVariants(shown, variants, before + (first + "\n"));
        out := out + (EnumClose() + "\n");
        UnlinesPush([], first);
        UnlinesNone();
        UnlinesAppend([] + [first], body);
        UnlinesPush([] + [first] + body, EnumClose());
        assert CoercionLines(shown, [c], []) == [] + [first] + body + [EnumClose()];
    }
  }

  lemma UnlinesNone()
    ensures Unlines([]) == ""
  {}

  method EmitCoercions(shown: char -> bool, cs: seq<(string, Target)>, before: string) returns (out: string)
    ensures out == before + Unlines(CoercionLines(shown, cs, []))
  {
    out := before;
    for k := 0 to |cs|
      invariant out == before + Unlines(CoercionLines(shown, cs[..k], []))
    {
      hide CoercionLines, Unlines;
      out := EmitCoercion(shown, cs[k], out);
      CoercionsSnoc(shown, cs, k);
      GrowBy(before, CoercionLines(shown, cs[..k], []), CoercionLines(shown, [cs[k]], []),
          CoercionLines(shown, cs[..k + 1], []));
    }
    assert cs[..|cs|] == cs;
  }

  /** The lines of a format up to its segments, its coercions, its redactions, and to the end. */
  function UpToSegments(shown: char -> bool, c: Compiled): seq<string> {
    [] + [FormatOpen()] + [NameLine(shown, c.name)] + [ListOpen()] + SegLines(shown, c.segs)
  }

  function UpToCoercions(shown: char -> bool, c: Compiled): seq<string> {
    UpToSegments(shown, c) + [ListClose()] + [ListOpen()] + CoercionLines(shown, c.coercions, [])
  }

  function UpToRedactions(shown: char -> bool, c: Compiled): seq<string> {
    UpToCoercions(shown, c) + [ListClose()] + [ListOpen()] + RedactionLines(shown, c.redactions)
  }

  lemma EndText(shown: char -> bool, c: Compiled, before: seq<string>)
    ensures before + FormatEnd(shown, c, []) ==
            before + [ListOpen()] + RedactionLines(shown, c.redactions) + [ListClose()] + [FormatClose()]
  {
    hide RedactionLines, ListOpen, ListClose, FormatClose;
  }

  lemma MiddleText(shown: char -> bool, c: Compiled, before: seq<string>)
    ensures before + FormatMiddle(shown, c, []) ==
            before + [ListOpen()] + CoercionLines(shown, c.coercions, []) + [ListClose()] + FormatEnd(shown, c, [])
  {
    CoercionsRest(shown, c.coercions, Cons(ListClose(), FormatEnd(shown, c, [])));
    hide CoercionLines, FormatEnd, ListOpen, ListClose;
  }

  lemma StartText(shown: char -> bool, c: Compiled)
    ensures FormatLines(shown, c, []) == UpToSegments(shown, c) + [ListClose()] + FormatMiddle(shown, c, [])
  {
    hide SegLines, FormatMiddle, ListOpen, ListClose, FormatOpen, NameLine;
  }

  /** A format's lines are its lists between fixed lines. */
  lemma FormatText(shown: char -> bool, c: Compiled)
    ensures FormatLines(shown, c, []) == UpToRedactions(shown, c) + [ListClose()] + [FormatClose()]
  {
    hide FormatLines, FormatMiddle, FormatEnd, UpToSegments, CoercionLines, RedactionLines, ListOpen, ListClose,
         FormatClose;
    StartText(shown, c);
    MiddleText(shown, c, UpToSegments(shown, c) + [ListClose()]);
    EndText(shown, c, UpToCoercions(shown, c) + [ListClose()]);
  }

  /** One more line, after those emitted since `before`. */
  method EmitLine(line: string, out: string, ghost before: string, ghost lines: seq<string>) returns (more: string)
    requires out == before + Unlines(lines)
    ensures more == before + Unlines(lines + [line])
  {
    Grow(before, lines, line, lines + [line]);
    more := out + (line + "\n");
  }

  method EmitFormat(shown: char -> bool, f: Format, before: string) returns (r: Result<string, CompileError>)
    ensures LowerFormat(f).Ok? ==> r == Ok(before + Unlines(FormatLines(shown, LowerFormat(f).value, [])))
    ensures LowerFormat(f).Err? ==> r == Err(LowerFormat(f).error)
  {
    hide All, Unlines, SegLines, CoercionLines, RedactionLines, FormatLines, FormatOpen, NameLine, ListOpen,
         ListClose, FormatClose;
    ghost var lines: seq<string> := [];
    UnlinesNone();
    var out := before;
    out := EmitLine(FormatOpen(), out, before, lines);
    lines := lines + [FormatOpen()];
    out := EmitLine(NameLine(shown, f.name), out, before, lines);
    lines := lines + [NameLine(shown, f.name)];
    out := EmitLine(ListOpen(), out, before, lines);
    lines := lines + [ListOpen()];
    var emitted := EmitParts(shown, f.parts, out);
    if emitted.Err? {
      return Err(emitted.error);
    }
    ghost var c := LowerFormat(f).value;
    GrowBy(before, lines, SegLines(shown, c.segs), UpToSegments(shown, c));
    out := EmitLine(ListClose(), emitted.value, before, UpToSegments(shown, c));
    out := EmitLists(shown, f, c, out, before);
    FormatText(shown, c);
    return Ok(out);
  }

  /** The coercions and redactions of a format, and its end. */
  method EmitLists(shown: char -> bool, f: Format, ghost c: Compiled, out: string, ghost before: string)
    returns (more: string)
    requires c.coercions == f.coercions && c.redactions == f.redactions
    requires out == before + Unlines(UpToSegments(shown, c) + [ListClose()])
    ensures more == before + Unlines(UpToRedactions(shown, c) + [ListClose()] + [FormatClose()])
  {
    hide Unlines, CoercionLines, RedactionLines, UpToSegments, ListOpen, ListClose, FormatClose;
    ghost var lines := UpToSegments(shown, c) + [ListClose()];
    more := EmitLine(ListOpen(), out, before, lines);
    more := EmitCoercions(shown, f.coercions, more);
    GrowBy(before, lines + [ListOpen()], CoercionLines(shown, c.coercions, []), UpToCoercions(shown, c));
    more := EmitLine(ListClose(), more, before, UpToCoercions(shown, c));
    lines := UpToCoercions(shown, c) + [ListClose()];
    more := EmitLine(ListOpen(), more, before, lines);
    more := EmitRedactions(shown, f.redactions, more);
    GrowBy(before, lines + [ListOpen()], RedactionLines(shown, c.redactions), UpToRedactions(shown, c));
    more := EmitLine(ListClose(), more, before, UpToRedactions(shown, c));
    more := EmitLine(FormatClose(), more, before, UpToRedactions(shown, c) + [ListClose()]);
  }

  /** The text is the module for what was compiled, and reading it gives that back. */
  ghost predicate Rebuilds(shown: char -> bool, text: string, compiled: Result<seq<Compiled>, CompileError>) {
    compiled.Ok? && text == Source(shown, compiled.value) && ReadSource(text) == Some(compiled.value)
  }

  /** The generator fails on the schemas the compiler fails on, with the same error; otherwise the text builds
      exactly what the compiler builds. */
  method GenerateRust(shown: char -> bool, formats: seq<Format>) returns (r: Result<string, CompileError>)
    ensures r.Err? ==> CompileSchema(formats) == Err(r.error)
    ensures r.Ok? ==> Rebuilds(shown, r.value, CompileSchema(formats))
  {
    hide ReadSource, Source, LowerFormat, FormatLines, Header, Footer, Unlines, Body, All, AllFormatLines;
    AllNone<Format, Compiled, CompileError>(LowerFormat);
    BodyNone(shown);
    var head := Unlines(Header());
    var out := head;
    ghost var cs: seq<Compiled> := [];
    for k := 0 to |formats|
      invariant All(formats[..k], LowerFormat) == Ok(cs)
      invariant out == head + Unlines(Body(shown, cs))
    {
      AllNext(formats, k, LowerFormat);
      var emitted := EmitFormat(shown, formats[k], out);
      if emitted.Err? {
        return Err(emitted.error);
      }
      out := emitted.value;
      var c := LowerFormat(formats[k]).value;
      BodyPush(shown, cs, c);
      GrowBy(head, Body(shown, cs), FormatLines(shown, c, []), Body(shown, cs + [c]));
      cs := cs + [c];
    }
    assert formats[..|formats|] == formats;
    SourceParts(shown, cs);
    SourceBack(shown, cs);
    return Ok(out + Unlines(Footer()));
  }
}
