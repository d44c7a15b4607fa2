/** Compiling a schema: every pattern part lowered to a segment, or the first that cannot be. */
module Lowering {
  import opened Wrappers
  import opened Bytes
  import Types
  import Matching
  import SchemaParser

  datatype CompileError = UnsupportedGrok(name: string)

  datatype Target = ToType(ty: Types.TypeName) | ToEnum(variants: seq<string>)

  /** A parsed `format` block. */
  datatype Format = Format(
    name: string, parts: seq<SchemaParser.PatternPart>,
    coercions: seq<(string, Target)>, redactions: seq<(string, Matching.RedactMode)>)

  datatype Seg = Literal(text: string) | Capture(field: string, ty: Types.TypeName)

  /** A compiled format as its public constructor takes it. */
  datatype Compiled = Compiled(
    name: string, segs: seq<Seg>,
    coercions: seq<(string, Target)>, redactions: seq<(string, Matching.RedactMode)>)

  /** `grok_native_type`. */
  function GrokNativeType(name: string): Option<Types.TypeName> {
    if name in ["INT", "NUMBER", "BASE10NUM"] then Some(Types.Int)
    else if name in ["POSINT", "NONNEGINT", "PORT", "BASE16NUM"] then Some(Types.Uint)
    else if name in ["FLOAT", "BASE16FLOAT"] then Some(Types.Float)
    else if name == "IPV4" then Some(Types.Ipv4)
    else if name == "IPV6" then Some(Types.Ipv6)
    else if name == "IP" then Some(Types.Ip)
    else if name == "MAC" then Some(Types.Mac)
    else if name in ["WORD", "NOTSPACE", "DATA", "GREEDYDATA", "QS", "HOSTNAME",
        "USERNAME", "USER", "EMAILADDRESS", "SPACE"] then
      Some(Types.String)
    else if name in ["MONTH", "MONTHDAY", "YEAR", "HOUR", "MINUTE", "SECOND",
        "TIME", "MONTHNUM", "MONTHNUM2", "ISO8601_SECOND"] then
      Some(Types.Timestamp)
    else None
  }

  function LowerPart(part: SchemaParser.PatternPart): Result<Seg, CompileError> {
    match part
    case LiteralPart(text) => Ok(Literal(text))
    case CapturePart(name, ty, grok, field) =>
      if !grok then Ok(Capture(name, ty))
      else
        var output := if field.Some? then field.value else name;
        if ty != Types.String then Ok(Capture(output, ty))
        else
          match GrokNativeType(name)
          case Some(native) => Ok(Capture(output, native))
          case None => Err(UnsupportedGrok(name))
  }

  function LowerFormat(f: Format): Result<Compiled, CompileError> {
    match All(f.parts, LowerPart)
    case Err(e) => Err(e)
    case Ok(segs) => Ok(Compiled(f.name, segs, f.coercions, f.redactions))
  }

  /** `CompiledSchema::compile`: all formats, or the first part of the first format at fault. */
  function CompileSchema(formats: seq<Format>): Result<seq<Compiled>, CompileError> {
    All(formats, LowerFormat)
  }

  method LowerParts(parts: seq<SchemaParser.PatternPart>) returns (r: Result<seq<Seg>, CompileError>)
    ensures r == All(parts, LowerPart)
  {
    var segs: seq<Seg> := [];
    for k := 0 to |parts|
      invariant All(parts[..k], LowerPart) == Ok(segs)
    {
      hide LowerPart, All;
      AllNext(parts, k, LowerPart);
      match LowerPart(parts[k]) {
        case Ok(seg) => segs := segs + [seg];
        case Err(e) => return Err(e);
      }
    }
    assert parts[..|parts|] == parts;
    return Ok(segs);
  }

  method Compile(formats: seq<Format>) returns (r: Result<seq<Compiled>, CompileError>)
    ensures r == CompileSchema(formats)
  {
    var out: seq<Compiled> := [];
    for k := 0 to |formats|
      invariant All(formats[..k], LowerFormat) == Ok(out)
    {
      AllNext(formats, k, LowerFormat);
      hide All;
      var f := formats[k];
      var lowered := LowerParts(f.parts);
      match lowered {
        case Ok(segs) => out := out + [Compiled(f.name, segs, f.coercions, f.redactions)];
        case Err(e) => return Err(e);
      }
    }
    assert formats[..|formats|] == formats;
    return Ok(out);
  }

  /** A part that asks for a native type the compiler does not have. */
  predicate Unsupported(part: SchemaParser.PatternPart) {
    part.CapturePart? && part.grok && part.ty == Types.String && GrokNativeType(part.name).None?
  }

  /** A schema compiles exactly when no part is unsupported. */
  lemma CompilesIff(formats: seq<Format>)
    ensures CompileSchema(formats).Ok? <==>
            forall i, k :: 0 <= i < |formats| && 0 <= k < |formats[i].parts| ==> !Unsupported(formats[i].parts[k])
  {
    AllMeaning(formats, LowerFormat);
    hide GrokNativeType;
    forall part ensures LowerPart(part).Ok? <==> !Unsupported(part) {}
    hide LowerPart, Unsupported, All;
    forall i | 0 <= i < |formats|
      ensures LowerFormat(formats[i]).Ok? <==>
              forall k :: 0 <= k < |formats[i].parts| ==> !Unsupported(formats[i].parts[k])
    {
      AllMeaning(formats[i].parts, LowerPart);
    }
    hide LowerFormat;
  }

  /** The error names the first unsupported part of the first format that has one. */
  lemma FirstUnsupported(formats: seq<Format>) returns (i: nat, k: nat)
    requires CompileSchema(formats).Err?
    ensures i < |formats| && k < |formats[i].parts| && Unsupported(formats[i].parts[k])
    ensures CompileSchema(formats).error.name == formats[i].parts[k].name
    ensures forall j :: 0 <= j < k ==> !Unsupported(formats[i].parts[j])
    ensures forall h, j :: 0 <= h < i && 0 <= j < |formats[h].parts| ==> !Unsupported(formats[h].parts[j])
  {
    hide GrokNativeType;
    forall part ensures LowerPart(part).Ok? <==> !Unsupported(part) {}
    forall part ensures LowerPart(part).Err? ==> LowerPart(part).error.name == part.name {}
    hide LowerPart, Unsupported, All;
    i := AllFirst(formats, LowerFormat);
    k := AllFirst(formats[i].parts, LowerPart);
    forall h | 0 <= h < i ensures forall j :: 0 <= j < |formats[h].parts| ==> !Unsupported(formats[h].parts[j]) {
      AllMeaning(formats[h].parts, LowerPart);
    }
  }

  // ---- What a compiled schema holds ----

  /** The Grok references that stand for a native type when nothing else is written. */
  function NativeNames(ty: Types.TypeName): set<string> {
    match ty
    case Int => {"INT", "NUMBER", "BASE10NUM"}
    case Uint => {"POSINT", "NONNEGINT", "PORT", "BASE16NUM"}
    case Float => {"FLOAT", "BASE16FLOAT"}
    case Bool => {}
    case String =>
      {"WORD", "NOTSPACE", "DATA", "GREEDYDATA", "QS", "HOSTNAME", "USERNAME", "USER", "EMAILADDRESS", "SPACE"}
    case Ipv4 => {"IPV4"}
    case Ipv6 => {"IPV6"}
    case Ip => {"IP"}
    case Mac => {"MAC"}
    case Timestamp =>
      {"MONTH", "MONTHDAY", "YEAR", "HOUR", "MINUTE", "SECOND", "TIME", "MONTHNUM", "MONTHNUM2", "ISO8601_SECOND"}
  }

  lemma NativeNamed(name: string)
    ensures GrokNativeType(name).Some? ==> name in NativeNames(GrokNativeType(name).value)
  {}

  lemma NativeNumber(name: string)
    ensures name in NativeNames(Types.Int) ==> GrokNativeType(name) == Some(Types.Int)
    ensures name in NativeNames(Types.Uint) ==> GrokNativeType(name) == Some(Types.Uint)
    ensures name in NativeNames(Types.Float) ==> GrokNativeType(name) == Some(Types.Float)
  {}

  lemma NativeAddress(name: string)
    ensures name in NativeNames(Types.Ipv4) ==> GrokNativeType(name) == Some(Types.Ipv4)
    ensures name in NativeNames(Types.Ipv6) ==> GrokNativeType(name) == Some(Types.Ipv6)
    ensures name in NativeNames(Types.Ip) ==> GrokNativeType(name) == Some(Types.Ip)
    ensures name in NativeNames(Types.Mac) ==> GrokNativeType(name) == Some(Types.Mac)
  {}

  lemma NativeText(name: string)
    ensures name in NativeNames(Types.String) ==> GrokNativeType(name) == Some(Types.String)
  {}

  lemma NativeMonth(name: string)
    ensures name in {"MONTH", "MONTHDAY", "MONTHNUM", "MONTHNUM2"} ==> GrokNativeType(name) == Some(Types.Timestamp)
  {}

  lemma NativeHour(name: string)
    ensures name in {"YEAR", "HOUR", "TIME"} ==> GrokNativeType(name) == Some(Types.Timestamp)
  {}

  lemma NativeSecond(name: string)
    ensures name in {"MINUTE", "SECOND", "ISO8601_SECOND"} ==> GrokNativeType(name) == Some(Types.Timestamp)
  {}

  lemma NativeTime(name: string)
    ensures name in NativeNames(Types.Timestamp) ==> GrokNativeType(name) == Some(Types.Timestamp)
  {
    hide GrokNativeType;
    NativeMonth(name);
    NativeHour(name);
    NativeSecond(name);
  }

  lemma NativeIff(name: string, ty: Types.TypeName)
    ensures GrokNativeType(name) == Some(ty) <==> name in NativeNames(ty)
  {
    hide GrokNativeType, NativeNames;
    NativeNamed(name);
    NativeNumber(name);
    NativeAddress(name);
    NativeText(name);
    NativeTime(name);
    NoNativeBool();
    match ty
    case Int => case Uint => case Float => case Bool => case String =>
    case Ipv4 => case Ipv6 => case Ip => case Mac => case Timestamp =>
  }

  lemma NoNativeBool()
    ensures NativeNames(Types.Bool) == {}
  {}

  /** What a part becomes: a literal stays, and a capture is named by the output field it writes, else by what
      it captures; its type is the one written, unless that is a bare Grok reference. */
  predicate Becomes(part: SchemaParser.PatternPart, seg: Seg) {
    match part
    case LiteralPart(text) => seg == Literal(text)
    case CapturePart(name, ty, grok, field) =>
      && seg.Capture?
      && seg.field == (if grok && field.Some? then field.value else name)
      && if grok && ty == Types.String then name in NativeNames(seg.ty) else seg.ty == ty
  }

  lemma LowerPartBecomes(part: SchemaParser.PatternPart, seg: Seg)
    ensures LowerPart(part) == Ok(seg) <==> Becomes(part, seg)
  {
    hide GrokNativeType, NativeNames;
    if part.CapturePart? && seg.Capture? {
      NativeIff(part.name, seg.ty);
    }
    if part.CapturePart? && GrokNativeType(part.name).Some? {
      NativeIff(part.name, GrokNativeType(part.name).value);
    }
  }

  /** A schema that compiles becomes, format for format and part for part, what its parts become; names,
      coercions and redactions are kept. */
  lemma CompiledBecomes(formats: seq<Format>)
    requires CompileSchema(formats).Ok?
    ensures var cs := CompileSchema(formats).value;
            && |cs| == |formats|
            && forall i :: 0 <= i < |cs| ==> FormatBecomes(formats[i], cs[i])
  {
    hide LowerPart, Becomes, All;
    AllMeaning(formats, LowerFormat);
    var cs := CompileSchema(formats).value;
    forall i | 0 <= i < |cs| ensures FormatBecomes(formats[i], cs[i]) {
      assert LowerFormat(formats[i]) == Ok(cs[i]);
      AllMeaning(formats[i].parts, LowerPart);
      forall k | 0 <= k < |cs[i].segs| ensures Becomes(formats[i].parts[k], cs[i].segs[k]) {
        LowerPartBecomes(formats[i].parts[k], cs[i].segs[k]);
      }
    }
  }

  predicate FormatBecomes(f: Format, c: Compiled) {
    && c.name == f.name && c.coercions == f.coercions && c.redactions == f.redactions
    && |c.segs| == |f.parts| && forall k :: 0 <= k < |c.segs| ==> Becomes(f.parts[k], c.segs[k])
  }

  // ---- Laws of captures as they are written ----

  /** The segment for the content of a reference, read and lowered. */
  function SegmentOf(content: string): Option<Seg> {
    match SchemaParser.ParsePart(content)
    case Err(_) => None
    case Ok(part) =>
      match LowerPart(part)
      case Err(_) => None
      case Ok(seg) => Some(seg)
  }

  predicate Word(s: string) {
    ':' !in s
  }

  lemma ReadParts(parts: seq<string>)
    requires parts != [] && forall k :: 0 <= k < |parts| ==> Word(parts[k])
    ensures Split(Join(parts, ':'), ':') == parts
  {
    SplitJoin(parts, ':');
  }

  /** `%{G:f:t}` is the same capture as `%{f:t}`, whatever the reference, unless `t` is `string`; then the
      reference decides. */
  lemma TypedReference(reference: string, field: string, ty: Types.TypeName)
    requires Word(reference) && Word(field)
    ensures var word := SchemaParser.TypeWord(ty);
            var native := SegmentOf(field + ":" + word);
            && native == Some(Capture(field, ty))
            && (ty != Types.String ==> SegmentOf(reference + ":" + field + ":" + word) == native)
  {
    var word := SchemaParser.TypeWord(ty);
    SchemaParser.TypeWordBack(ty);
    hide SchemaParser.TypeWord, SchemaParser.ParseType, GrokNativeType;
    ReadParts([field, word]);
    ReadParts([reference, field, word]);
    JoinTwo(field, word);
    JoinThree(reference, field, word);
    hide Join, Split;
  }

  lemma JoinTwo(a: string, b: string)
    ensures Join([a, b], ':') == a + ":" + b
  {
    assert [a, b][1..] == [b];
  }

  lemma JoinThree(a: string, b: string, c: string)
    ensures Join([a, b, c], ':') == a + ":" + b + ":" + c
  {
    assert [a, b, c][1..] == [b, c];
    JoinTwo(b, c);
    assert a + ":" + (b + ":" + c) == a + ":" + b + ":" + c;
  }

  /** References with different output fields never become one segment. */
  lemma FieldsStayApart(reference: string, other: string, field: string, second: string)
    requires Word(reference) && Word(other) && Word(field) && Word(second) && field != second
    requires SchemaParser.ParseType(field).None? && SchemaParser.ParseType(second).None?
    requires SegmentOf(reference + ":" + field).Some?
    ensures SegmentOf(reference + ":" + field) != SegmentOf(other + ":" + second)
  {
    hide SchemaParser.ParseType, GrokNativeType;
    ReadParts([reference, field]);
    ReadParts([other, second]);
    JoinTwo(reference, field);
    JoinTwo(other, second);
    hide Join, Split;
  }
}
