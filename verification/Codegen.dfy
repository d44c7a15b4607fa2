/** The code generator: the text it emits, a reader of such texts, and that the reader rebuilds
    exactly what the compiler builds. */
module Codegen {
  import opened Wrappers
  import opened Bytes
  import opened Quoting
  import opened Lowering
  import Types
  import Matching

  // ---- Fixed texts ----

  function HeaderMark(): string { "// @generated by tpt-telemetry-" + "compiler. Do not edit." }
  function HeaderUse(): string { UsePath() + UseNames() }
  function UsePath(): string { "use tpt_telemetry_compiler::{" + "CompiledSchema, CompiledFormat, " }
  function UseNames(): string { "Seg, TypeName, " + "CoercionTarget, RedactMode};" }
  function HeaderDoc(): string { "/// Build the compiled schema from" + " generated segment data." }
  function HeaderFn(): string { "pub fn compiled_schema() " + "-> CompiledSchema {" }
  function HeaderLet(): string { "    let formats: " + "Vec<CompiledFormat> = vec![" }

  function Header(): seq<string> {
    [HeaderMark(), HeaderUse(), "", HeaderDoc(), HeaderFn(), HeaderLet()]
  }

  function Footer(): seq<string> {
    ["    ];", "    CompiledSchema::new(formats)", "}"]
  }

  function FormatOpen(): string { "        CompiledFormat::new(" }
  function FormatClose(): string { "        )," }
  function NameIndent(): string { "            " }
  function ListOpen(): string { "            vec![" }
  function ListClose(): string { "            ]," }
  function TextEnd(): string { ".to_string()," }
  function LiteralOpen(): string { "                Seg::Literal(" }
  function LiteralEnd(): string { ".to_string())," }
  function CaptureOpen(): string { "                Seg::Capture { field: " }
  function CaptureType(): string { ".to_string(), ty: TypeName::" }
  function CaptureEnd(): string { " }," }
  function PairOpen(): string { "                (" }
  function ToTypeMid(): string { ".to_string(), " + "CoercionTarget::Type(TypeName::" }
  function ToTypeEnd(): string { "))," }
  function ToEnumEnd(): string { ".to_string(), CoercionTarget::Enum(vec![" }
  function VariantIndent(): string { "                    " }
  function EnumClose(): string { "                ]))," }
  function HashEnd(): string { ".to_string(), RedactMode::Hash)," }
  function MaskEnd(): string { ".to_string(), RedactMode::Mask)," }

  function Variant(ty: Types.TypeName): string {
    match ty
    case Int => "Int"
    case Uint => "Uint"
    case Float => "Float"
    case Bool => "Bool"
    case String => "String"
    case Ipv4 => "Ipv4"
    case Ipv6 => "Ipv6"
    case Ip => "Ip"
    case Mac => "Mac"
    case Timestamp => "Timestamp"
  }

  // ---- Emitting ----

  function SegLine(shown: char -> bool, seg: Seg): string {
    match seg
    case Literal(text) => LiteralOpen() + Quote(shown, text) + LiteralEnd()
    case Capture(field, ty) => CaptureOpen() + Quote(shown, field) + (CaptureType() + Variant(ty) + CaptureEnd())
  }

  function VariantLine(shown: char -> bool, v: string): string {
    VariantIndent() + Quote(shown, v) + TextEnd()
  }

  function RedactionLine(shown: char -> bool, r: (string, Matching.RedactMode)): string {
    PairOpen() + Quote(shown, r.0) + if r.1 == Matching.Hash then HashEnd() else MaskEnd()
  }

  /** A line in front of others. */
  function Cons(line: string, rest: seq<string>): (lines: seq<string>)
    ensures |lines| == |rest| + 1 && lines[0] == line && lines[1..] == rest
  {
    [line] + rest
  }

  function SegLines(shown: char -> bool, segs: seq<Seg>): seq<string> {
    seq(|segs|, k requires 0 <= k < |segs| => SegLine(shown, segs[k]))
  }

  function VariantLines(shown: char -> bool, vs: seq<string>): seq<string> {
    seq(|vs|, k requires 0 <= k < |vs| => VariantLine(shown, vs[k]))
  }

  function RedactionLines(shown: char -> bool, rs: seq<(string, Matching.RedactMode)>): seq<string> {
    seq(|rs|, k requires 0 <= k < |rs| => RedactionLine(shown, rs[k]))
  }

  function ToTypeLine(shown: char -> bool, field: string, ty: Types.TypeName): string {
    PairOpen() + Quote(shown, field) + (ToTypeMid() + Variant(ty) + ToTypeEnd())
  }

  function ToEnumLine(shown: char -> bool, field: string): string {
    PairOpen() + Quote(shown, field) + ToEnumEnd()
  }

  /** The coercions, with whatever comes after them. */
  function CoercionLines(shown: char -> bool, cs: seq<(string, Target)>, rest: seq<string>): seq<string> {
    if cs == [] then rest
    else
      var later := CoercionLines(shown, cs[1..], rest);
      match cs[0].1
      case ToType(ty) => Cons(ToTypeLine(shown, cs[0].0, ty), later)
      case ToEnum(variants) =>
        Cons(ToEnumLine(shown, cs[0].0), VariantLines(shown, variants) + Cons(EnumClose(), later))
  }

  function NameLine(shown: char -> bool, name: string): string {
    NameIndent() + Quote(shown, name) + TextEnd()
  }

  /** The last list of a format and its end, with whatever comes after it. */
  function FormatEnd(shown: char -> bool, c: Compiled, rest: seq<string>): seq<string> {
    Cons(ListOpen(), RedactionLines(shown, c.redactions) + Cons(ListClose(), Cons(FormatClose(), rest)))
  }

  function FormatMiddle(shown: char -> bool, c: Compiled, rest: seq<string>): seq<string> {
    Cons(ListOpen(), CoercionLines(shown, c.coercions, Cons(ListClose(), FormatEnd(shown, c, rest))))
  }

  function FormatLines(shown: char -> bool, c: Compiled, rest: seq<string>): seq<string> {
    Cons(FormatOpen(), Cons(NameLine(shown, c.name), Cons(ListOpen(),
      SegLines(shown, c.segs) + Cons(ListClose(), FormatMiddle(shown, c, rest)))))
  }

  function AllFormatLines(shown: char -> bool, cs: seq<Compiled>): seq<string> {
    if cs == [] then Footer() else FormatLines(shown, cs[0], AllFormatLines(shown, cs[1..]))
  }

  /** Lines as a text, each ended by an LF. */
  function Unlines(lines: seq<string>): string {
    if lines == [] then "" else lines[0] + "\n" + Unlines(lines[1..])
  }

  /** The module that builds these formats. */
  function Source(shown: char -> bool, cs: seq<Compiled>): string {
    Unlines(Header() + AllFormatLines(shown, cs))
  }

  // ---- Reading ----

  /** `line` is `open`, a string literal, and a tail. */
  function ReadQuoted(line: string, open: string): Option<(string, string)> {
    if open <= line then Unquote(line[|open|..]) else None
  }

  function ReadVariantName(s: string): Option<Types.TypeName> {
    if s == "Int" then Some(Types.Int)
    else if s == "Uint" then Some(Types.Uint)
    else if s == "Float" then Some(Types.Float)
    else if s == "Bool" then Some(Types.Bool)
    else if s == "String" then Some(Types.String)
    else if s == "Ipv4" then Some(Types.Ipv4)
    else if s == "Ipv6" then Some(Types.Ipv6)
    else if s == "Ip" then Some(Types.Ip)
    else if s == "Mac" then Some(Types.Mac)
    else if s == "Timestamp" then Some(Types.Timestamp)
    else None
  }

  /** `tail` is `mid`, the name of a type, and `end`. */
  function ReadTypeTail(tail: string, mid: string, end: string): Option<Types.TypeName>
    requires end != ""
  {
    if mid <= tail then
      var body := tail[|mid|..];
      var stop := IndexOf(body, end[0]);
      if body[stop..] == end then ReadVariantName(body[..stop]) else None
    else None
  }

  function ReadSeg(line: string): Option<Seg> {
    match ReadQuoted(line, LiteralOpen())
    case Some((text, tail)) => if tail == LiteralEnd() then Some(Literal(text)) else None
    case None =>
      match ReadQuoted(line, CaptureOpen())
      case None => None
      case Some((field, tail)) =>
        match ReadTypeTail(tail, CaptureType(), CaptureEnd())
        case None => None
        case Some(ty) => Some(Capture(field, ty))
  }

  function ReadText(line: string, indent: string): Option<string> {
    match ReadQuoted(line, indent)
    case Some((s, tail)) => if tail == TextEnd() then Some(s) else None
    case None => None
  }

  function ReadVariant(line: string): Option<string> {
    ReadText(line, VariantIndent())
  }

  function ReadRedaction(line: string): Option<(string, Matching.RedactMode)> {
    match ReadQuoted(line, PairOpen())
    case None => None
    case Some((field, tail)) =>
      if tail == HashEnd() then Some((field, Matching.Hash))
      else if tail == MaskEnd() then Some((field, Matching.Mask))
      else None
  }

  /** Items, one a line, up to a closing line; and the lines after it. */
  function ReadItems<T>(lines: seq<string>, close: string, read: string -> Option<T>): Option<(seq<T>, seq<string>)> {
    if lines == [] then None
    else if lines[0] == close then Some(([], lines[1..]))
    else match read(lines[0])
      case None => None
      case Some(x) =>
        match ReadItems(lines[1..], close, read)
        case None => None
        case Some((xs, after)) => Some(([x] + xs, after))
  }

  lemma {:induction false} ReadItemsShorter<T>(lines: seq<string>, close: string, read: string -> Option<T>)
    ensures ReadItems(lines, close, read).Some? ==> |ReadItems(lines, close, read).value.1| < |lines|
  {
    if lines != [] && lines[0] != close {
      ReadItemsShorter(lines[1..], close, read);
    }
  }

  function ReadCoercions(lines: seq<string>): Option<(seq<(string, Target)>, seq<string>)>
    decreases |lines|
  {
    if lines == [] then None
    else if lines[0] == ListClose() then Some(([], lines[1..]))
    else match ReadQuoted(lines[0], PairOpen())
      case None => None
      case Some((field, tail)) =>
        if tail == ToEnumEnd() then
          match ReadItems(lines[1..], EnumClose(), ReadVariant)
          case None => None
          case Some((variants, after)) =>
            ReadItemsShorter(lines[1..], EnumClose(), ReadVariant);
            AddCoercion((field, ToEnum(variants)), ReadCoercions(after))
        else
          match ReadTypeTail(tail, ToTypeMid(), ToTypeEnd())
          case None => None
          case Some(ty) => AddCoercion((field, ToType(ty)), ReadCoercions(lines[1..]))
  }

  function AddCoercion(c: (string, Target), r: Option<(seq<(string, Target)>, seq<string>)>):
    Option<(seq<(string, Target)>, seq<string>)>
  {
    match r
    case None => None
    case Some((cs, after)) => Some(([c] + cs, after))
  }

  /** The lines after the one that must come next. */
  function Expect(lines: seq<string>, next: string): Option<seq<string>> {
    if lines != [] && lines[0] == next then Some(lines[1..]) else None
  }

  function ReadFormatEnd(name: string, segs: seq<Seg>, cs: seq<(string, Target)>, lines: seq<string>):
    Option<(Compiled, seq<string>)>
  {
    match Expect(lines, ListOpen())
    case None => None
    case Some(items) =>
      match ReadItems(items, ListClose(), ReadRedaction)
      case None => None
      case Some((rs, after)) =>
        match Expect(after, FormatClose())
        case None => None
        case Some(rest) => Some((Compiled(name, segs, cs, rs), rest))
  }

  function ReadFormatMiddle(name: string, segs: seq<Seg>, lines: seq<string>): Option<(Compiled, seq<string>)> {
    match Expect(lines, ListOpen())
    case None => None
    case Some(items) =>
      match ReadCoercions(items)
      case None => None
      case Some((cs, after)) => ReadFormatEnd(name, segs, cs, after)
  }

  /** One format, and the lines after it. */
  function ReadFormat(lines: seq<string>): Option<(Compiled, seq<string>)> {
    if |lines| < 3 || lines[0] != FormatOpen() || lines[2] != ListOpen() then None
    else match ReadText(lines[1], NameIndent())
      case None => None
      case Some(name) =>
        match ReadItems(lines[3..], ListClose(), ReadSeg)
        case None => None
        case Some((segs, after)) => ReadFormatMiddle(name, segs, after)
  }

  function ReadFormats(lines: seq<string>): Option<seq<Compiled>>
    decreases |lines|
  {
    if lines == Footer() then Some([])
    else match ReadFormat(lines)
      case None => None
      case Some((c, rest)) =>
        if |rest| >= |lines| then None
        else match ReadFormats(rest)
          case None => None
          case Some(cs) => Some([c] + cs)
  }

  function AfterHeader(lines: seq<string>): Option<seq<string>> {
    if Header() <= lines then Some(lines[|Header()|..]) else None
  }

  /** What a generated module builds. */
  function ReadSource(text: string): Option<seq<Compiled>> {
    var parts := Split(text, '\n');
    if parts[|parts| - 1] != "" then None
    else match AfterHeader(parts[..|parts| - 1])
      case None => None
      case Some(body) => ReadFormats(body)
  }

  // ---- Each line reads back ----

  // How the fixed texts differ.

  lemma CloseTexts()
    ensures |ListClose()| == 14 && ListClose()[12] == ']'
    ensures |EnumClose()| == 20 && EnumClose()[16] == ']'
    ensures |VariantIndent()| == 20 && VariantIndent()[16] == ' '
  {}

  lemma SegTexts()
    ensures |LiteralOpen()| == 29 && LiteralOpen()[12] == ' ' && LiteralOpen()[21] == 'L'
    ensures |CaptureOpen()| == 38 && CaptureOpen()[12] == ' ' && CaptureOpen()[21] == 'C'
  {}

  lemma PairTexts()
    ensures |PairOpen()| == 17 && PairOpen()[12] == ' '
    ensures |HashEnd()| == 32 && HashEnd()[26] == 'H'
    ensures |MaskEnd()| == 32 && MaskEnd()[26] == 'M'
  {}

  lemma TargetTexts()
    ensures |ToTypeMid()| == 45 && ToTypeMid()[30] == 'T'
    ensures |ToEnumEnd()| == 40 && ToEnumEnd()[30] == 'E'
  {}

  lemma EndTexts()
    ensures CaptureEnd() != "" && CaptureEnd()[0] == ' '
    ensures ToTypeEnd() != "" && ToTypeEnd()[0] == ')'
    ensures |FormatOpen()| == 28 && FormatOpen()[4] == ' '
    ensures |Footer()| == 3 && |Footer()[0]| == 6 && Footer()[0][4] == ']'
  {}

  lemma QuotedBack(shown: char -> bool, open: string, s: string, tail: string)
    ensures ReadQuoted(open + Quote(shown, s) + tail, open) == Some((s, tail))
  {
    QuoteBack(shown, s, tail);
    hide Quote, Unquote;
    var line := open + Quote(shown, s) + tail;
    assert line[..|open|] == open && line[|open|..] == Quote(shown, s) + tail;
  }

  lemma VariantBack(ty: Types.TypeName)
    ensures ReadVariantName(Variant(ty)) == Some(ty)
    ensures ' ' !in Variant(ty) && ')' !in Variant(ty) && '\n' !in Variant(ty)
  {}

  lemma TypeTailBack(mid: string, ty: Types.TypeName, end: string)
    requires end != "" && end[0] !in Variant(ty)
    ensures ReadTypeTail(mid + Variant(ty) + end, mid, end) == Some(ty)
  {
    VariantBack(ty);
    hide Variant, ReadVariantName;
    var tail, v := mid + Variant(ty) + end, Variant(ty);
    assert tail[..|mid|] == mid && tail[|mid|..] == v + end;
    IndexOfAppend(v, end, end[0]);
    hide IndexOf;
    assert (v + end)[..|v|] == v && (v + end)[|v|..] == end;
  }

  lemma SegBack(shown: char -> bool, seg: Seg)
    ensures ReadSeg(SegLine(shown, seg)) == Some(seg) && SegLine(shown, seg) != ListClose()
  {
    SegTexts();
    CloseTexts();
    EndTexts();
    hide LiteralOpen, CaptureOpen, ListClose, EnumClose, VariantIndent, CaptureEnd, CaptureType, LiteralEnd,
         ToTypeEnd, Quote, Unquote;
    match seg
    case Literal(text) =>
      QuotedBack(shown, LiteralOpen(), text, LiteralEnd());
    case Capture(field, ty) =>
      var tail := CaptureType() + Variant(ty) + CaptureEnd();
      var line := CaptureOpen() + Quote(shown, field) + tail;
      QuotedBack(shown, CaptureOpen(), field, tail);
      VariantBack(ty);
      hide Variant;
      TypeTailBack(CaptureType(), ty, CaptureEnd());
      assert line[21] == 'C' && !(LiteralOpen() <= line);
  }

  lemma VariantLineBack(shown: char -> bool, v: string)
    ensures ReadVariant(VariantLine(shown, v)) == Some(v) && VariantLine(shown, v) != EnumClose()
  {
    CloseTexts();
    hide ListClose, EnumClose, VariantIndent, TextEnd, Quote;
    QuotedBack(shown, VariantIndent(), v, TextEnd());
  }

  lemma NameBack(shown: char -> bool, name: string)
    ensures ReadText(NameLine(shown, name), NameIndent()) == Some(name)
  {
    hide NameIndent, TextEnd, Quote;
    QuotedBack(shown, NameIndent(), name, TextEnd());
  }

  lemma RedactionBack(shown: char -> bool, r: (string, Matching.RedactMode))
    ensures ReadRedaction(RedactionLine(shown, r)) == Some(r) && RedactionLine(shown, r) != ListClose()
  {
    PairTexts();
    CloseTexts();
    hide ListClose, EnumClose, VariantIndent, PairOpen, HashEnd, MaskEnd, Quote;
    QuotedBack(shown, PairOpen(), r.0, if r.1 == Matching.Hash then HashEnd() else MaskEnd());
  }

  /** Items that each read back are read back as a list. */
  lemma {:induction false} ItemsBack<T>(lines: seq<string>, items: seq<T>, close: string, rest: seq<string>,
                                        read: string -> Option<T>)
    requires |lines| == |items|
    requires forall k :: 0 <= k < |lines| ==> read(lines[k]) == Some(items[k]) && lines[k] != close
    ensures ReadItems(lines + Cons(close, rest), close, read) == Some((items, rest))
  {
    var all := lines + Cons(close, rest);
    if lines == [] {
      assert all == Cons(close, rest);
    } else {
      assert all[1..] == lines[1..] + Cons(close, rest);
      ItemsBack(lines[1..], items[1..], close, rest, read);
      assert [items[0]] + items[1..] == items;
    }
  }

  lemma SegsBack(shown: char -> bool, segs: seq<Seg>, rest: seq<string>)
    ensures ReadItems(SegLines(shown, segs) + Cons(ListClose(), rest), ListClose(), ReadSeg) == Some((segs, rest))
  {
    forall k | 0 <= k < |segs|
      ensures ReadSeg(SegLine(shown, segs[k])) == Some(segs[k]) && SegLine(shown, segs[k]) != ListClose()
    {
      SegBack(shown, segs[k]);
    }
    hide ReadSeg, SegLine, ListClose;
    ItemsBack(SegLines(shown, segs), segs, ListClose(), rest, ReadSeg);
  }

  lemma RedactionsBack(shown: char -> bool, rs: seq<(string, Matching.RedactMode)>, rest: seq<string>)
    ensures ReadItems(RedactionLines(shown, rs) + Cons(ListClose(), rest), ListClose(), ReadRedaction) ==
            Some((rs, rest))
  {
    forall k | 0 <= k < |rs|
      ensures ReadRedaction(RedactionLine(shown, rs[k])) == Some(rs[k]) && RedactionLine(shown, rs[k]) != ListClose()
    {
      RedactionBack(shown, rs[k]);
    }
    hide ReadRedaction, RedactionLine, ListClose;
    ItemsBack(RedactionLines(shown, rs), rs, ListClose(), rest, ReadRedaction);
  }

  lemma VariantsBack(shown: char -> bool, vs: seq<string>, rest: seq<string>)
    ensures ReadItems(VariantLines(shown, vs) + Cons(EnumClose(), rest), EnumClose(), ReadVariant) == Some((vs, rest))
  {
    forall k | 0 <= k < |vs|
      ensures ReadVariant(VariantLine(shown, vs[k])) == Some(vs[k]) && VariantLine(shown, vs[k]) != EnumClose()
    {
      VariantLineBack(shown, vs[k]);
    }
    hide ReadVariant, VariantLine, EnumClose;
    ItemsBack(VariantLines(shown, vs), vs, EnumClose(), rest, ReadVariant);
  }

  lemma ToTypeBack(shown: char -> bool, field: string, ty: Types.TypeName)
    ensures var line, tail := ToTypeLine(shown, field, ty), ToTypeMid() + Variant(ty) + ToTypeEnd();
            && line != ListClose() && ReadQuoted(line, PairOpen()) == Some((field, tail)) && tail != ToEnumEnd()
            && ToTypeEnd() != "" && ReadTypeTail(tail, ToTypeMid(), ToTypeEnd()) == Some(ty)
  {
    PairTexts();
    CloseTexts();
    TargetTexts();
    EndTexts();
    VariantBack(ty);
    hide ListClose, EnumClose, VariantIndent, PairOpen, HashEnd, MaskEnd, ToTypeMid, ToEnumEnd, ToTypeEnd,
         CaptureEnd, FormatOpen, Variant, Quote;
    QuotedBack(shown, PairOpen(), field, ToTypeMid() + Variant(ty) + ToTypeEnd());
    TypeTailBack(ToTypeMid(), ty, ToTypeEnd());
    hide ReadTypeTail, ReadQuoted;
    var tail := ToTypeMid() + Variant(ty) + ToTypeEnd();
    assert tail[30] == 'T';
  }

  lemma ToEnumBack(shown: char -> bool, field: string)
    ensures ToEnumLine(shown, field) != ListClose()
            && ReadQuoted(ToEnumLine(shown, field), PairOpen()) == Some((field, ToEnumEnd()))
  {
    PairTexts();
    CloseTexts();
    hide ListClose, EnumClose, VariantIndent, PairOpen, HashEnd, MaskEnd, ToEnumEnd, Quote;
    QuotedBack(shown, PairOpen(), field, ToEnumEnd());
  }

  lemma {:induction false} CoercionsBack(shown: char -> bool, cs: seq<(string, Target)>, rest: seq<string>)
    ensures ReadCoercions(CoercionLines(shown, cs, Cons(ListClose(), rest))) == Some((cs, rest))
  {
    hide ListClose, PairOpen, ToEnumEnd, ToTypeMid, ToTypeEnd, EnumClose, ToTypeLine, ToEnumLine, ReadQuoted,
         ReadTypeTail, Variant, ReadItems;
    if cs != [] {
      CoercionsBack(shown, cs[1..], rest);
      var later := CoercionLines(shown, cs[1..], Cons(ListClose(), rest));
      assert [cs[0]] + cs[1..] == cs;
      match cs[0].1
      case ToType(ty) =>
        ToTypeBack(shown, cs[0].0, ty);
      case ToEnum(variants) =>
        ToEnumBack(shown, cs[0].0);
        VariantsBack(shown, variants, later);
    }
  }

  lemma FormatBack(shown: char -> bool, c: Compiled, rest: seq<string>)
    ensures ReadFormat(FormatLines(shown, c, rest)) == Some((c, rest))
  {
    hide ListClose, ListOpen, FormatOpen, FormatClose, NameLine, ReadText, NameIndent, SegLines, RedactionLines,
         ReadItems, ReadCoercions, CoercionLines;
    NameBack(shown, c.name);
    SegsBack(shown, c.segs, FormatMiddle(shown, c, rest));
    CoercionsBack(shown, c.coercions, FormatEnd(shown, c, rest));
    RedactionsBack(shown, c.redactions, Cons(FormatClose(), rest));
    var lines := FormatLines(shown, c, rest);
    assert lines[3..] == lines[1..][1..][1..];
  }

  lemma FormatNotFooter(shown: char -> bool, c: Compiled, rest: seq<string>)
    ensures FormatLines(shown, c, rest) != Footer()
  {
    EndTexts();
    hide Footer, FormatOpen, CaptureEnd, ToTypeEnd, NameLine, ListOpen, SegLines, ListClose, FormatMiddle;
    assert FormatLines(shown, c, rest)[0] == FormatOpen();
  }

  lemma ReadFormatsNext(lines: seq<string>, c: Compiled, rest: seq<string>, cs: seq<Compiled>)
    requires lines != Footer() && ReadFormat(lines) == Some((c, rest)) && |rest| < |lines|
    requires ReadFormats(rest) == Some(cs)
    ensures ReadFormats(lines) == Some([c] + cs)
  {
    hide Footer, ReadFormat;
  }

  lemma FormatsNext(shown: char -> bool, c: Compiled, rest: seq<string>, cs: seq<Compiled>)
    requires ReadFormats(rest) == Some(cs)
    ensures ReadFormats(FormatLines(shown, c, rest)) == Some([c] + cs)
  {
    hide Footer, FormatLines, ReadFormat, ReadFormats;
    FormatBack(shown, c, rest);
    FormatNotFooter(shown, c, rest);
    FormatLonger(shown, c, rest);
    ReadFormatsNext(FormatLines(shown, c, rest), c, rest, cs);
  }

  lemma {:induction false} FormatsBack(shown: char -> bool, cs: seq<Compiled>)
    ensures ReadFormats(AllFormatLines(shown, cs)) == Some(cs)
  {
    hide FormatLines, ReadFormat;
    if cs != [] {
      FormatsBack(shown, cs[1..]);
      FormatsNext(shown, cs[0], AllFormatLines(shown, cs[1..]), cs[1..]);
      hide ReadFormats;
      assert [cs[0]] + cs[1..] == cs;
    }
  }

  lemma FormatLonger(shown: char -> bool, c: Compiled, rest: seq<string>)
    ensures |FormatLines(shown, c, rest)| > |rest|
  {
    CoercionsLonger(shown, c.coercions, Cons(ListClose(), FormatEnd(shown, c, rest)));
    hide CoercionLines, SegLines, RedactionLines;
  }

  lemma {:induction false} CoercionsLonger(shown: char -> bool, cs: seq<(string, Target)>, rest: seq<string>)
    ensures |CoercionLines(shown, cs, rest)| >= |rest|
  {
    if cs != [] {
      CoercionsLonger(shown, cs[1..], rest);
    }
  }

  // ---- A text is its lines ----

  lemma {:induction false} UnlinesJoin(lines: seq<string>)
    ensures Unlines(lines) == Join(lines + [""], '\n')
  {
    if lines == [] {
      assert lines + [""] == [""];
    } else {
      UnlinesJoin(lines[1..]);
      assert (lines + [""])[1..] == lines[1..] + [""];
    }
  }

  lemma {:induction false} UnlinesAppend(a: seq<string>, b: seq<string>)
    ensures Unlines(a + b) == Unlines(a) + Unlines(b)
  {
    if a == [] {
      assert a + b == b;
    } else {
      assert (a + b)[1..] == a[1..] + b;
      UnlinesAppend(a[1..], b);
    }
  }

  predicate OneLine(s: string) {
    '\n' !in s
  }

  predicate AllOneLine(lines: seq<string>) {
    forall k :: 0 <= k < |lines| ==> OneLine(lines[k])
  }

  lemma FormatTextsOneLine()
    ensures OneLine(FormatOpen()) && OneLine(FormatClose()) && OneLine(NameIndent())
    ensures OneLine(ListOpen()) && OneLine(ListClose()) && OneLine(TextEnd())
  {}

  lemma LiteralTextsOneLine()
    ensures OneLine(LiteralOpen()) && OneLine(LiteralEnd())
  {}

  lemma CaptureOpenOneLine()
    ensures OneLine(CaptureOpen())
  {}

  lemma CaptureTextsOneLine()
    ensures OneLine(CaptureType()) && OneLine(CaptureEnd())
  {}

  lemma ModeTextsOneLine()
    ensures OneLine(HashEnd()) && OneLine(MaskEnd())
  {}

  lemma PairTextsOneLine()
    ensures OneLine(PairOpen()) && OneLine(ToEnumEnd())
  {}

  lemma ConcatOneLine(a: string, b: string)
    requires OneLine(a) && OneLine(b)
    ensures OneLine(a + b)
  {}

  lemma EnumTextsOneLine()
    ensures OneLine(VariantIndent()) && OneLine(EnumClose()) && OneLine(TextEnd())
  {}

  lemma TypeTextsOneLine()
    ensures OneLine(ToTypeMid()) && OneLine(ToTypeEnd())
  {
    ConcatOneLine(".to_string(), ", "CoercionTarget::Type(TypeName::");
  }

  lemma HeaderMarkOneLine()
    ensures OneLine(HeaderMark())
  {
    ConcatOneLine("// @generated by tpt-telemetry-", "compiler. Do not edit.");
  }

  lemma HeaderDocOneLine()
    ensures OneLine(HeaderDoc())
  {
    ConcatOneLine("/// Build the compiled schema from", " generated segment data.");
  }

  lemma HeaderFnOneLine()
    ensures OneLine(HeaderFn())
  {
    ConcatOneLine("pub fn compiled_schema() ", "-> CompiledSchema {");
  }

  lemma HeaderLetOneLine()
    ensures OneLine(HeaderLet())
  {
    ConcatOneLine("    let formats: ", "Vec<CompiledFormat> = vec![");
  }

  lemma UsePathOneLine()
    ensures OneLine(UsePath())
  {
    ConcatOneLine("use tpt_telemetry_compiler::{", "CompiledSchema, CompiledFormat, ");
  }

  lemma UseNamesOneLine()
    ensures OneLine(UseNames())
  {
    ConcatOneLine("Seg, TypeName, ", "CoercionTarget, RedactMode};");
  }

  lemma HeaderUseOneLine()
    ensures OneLine(HeaderUse())
  {
    UsePathOneLine();
    UseNamesOneLine();
    hide UsePath, UseNames;
    ConcatOneLine(UsePath(), UseNames());
  }

  lemma HeaderOneLine()
    ensures AllOneLine(Header())
  {
    HeaderMarkOneLine();
    HeaderUseOneLine();
    HeaderDocOneLine();
    HeaderFnOneLine();
    HeaderLetOneLine();
    hide HeaderMark, HeaderUse, HeaderDoc, HeaderFn, HeaderLet;
  }

  lemma FooterOneLine()
    ensures AllOneLine(Footer())
  {
    var f := Footer();
    assert OneLine(f[0]) && OneLine(f[1]) && OneLine(f[2]);
    hide OneLine;
    assert |f| == 3;
  }

  lemma LinesOneLine(shown: char -> bool, a: string, s: string, b: string)
    requires OneLine(a) && OneLine(b)
    ensures OneLine(a + Quote(shown, s) + b)
  {
    QuoteBack(shown, s, "");
  }

  lemma SegOneLine(shown: char -> bool, seg: Seg)
    ensures OneLine(SegLine(shown, seg))
  {
    LiteralTextsOneLine();
    CaptureOpenOneLine();
    CaptureTextsOneLine();
    hide LiteralOpen, LiteralEnd, CaptureOpen, CaptureType, CaptureEnd, Quote;
    match seg
    case Literal(text) => LinesOneLine(shown, LiteralOpen(), text, LiteralEnd());
    case Capture(field, ty) =>
      VariantBack(ty);
      LinesOneLine(shown, CaptureOpen(), field, CaptureType() + Variant(ty) + CaptureEnd());
  }

  lemma {:induction false} CoercionsOneLine(shown: char -> bool, cs: seq<(string, Target)>, rest: seq<string>)
    requires AllOneLine(rest)
    ensures AllOneLine(CoercionLines(shown, cs, rest))
  {
    hide OneLine, Quote;
    if cs != [] {
      PairTextsOneLine();
      EnumTextsOneLine();
      CoercionsOneLine(shown, cs[1..], rest);
      match cs[0].1
      case ToType(ty) =>
        TypeTailOneLine(ty);
        LinesOneLine(shown, PairOpen(), cs[0].0, ToTypeMid() + Variant(ty) + ToTypeEnd());
      case ToEnum(variants) =>
        LinesOneLine(shown, PairOpen(), cs[0].0, ToEnumEnd());
        forall k | 0 <= k < |variants| ensures OneLine(VariantLines(shown, variants)[k]) {
          LinesOneLine(shown, VariantIndent(), variants[k], TextEnd());
        }
        hide PairOpen, ToEnumEnd, VariantIndent, TextEnd, EnumClose;
    }
  }

  lemma TypeTailOneLine(ty: Types.TypeName)
    ensures OneLine(ToTypeMid() + Variant(ty) + ToTypeEnd())
  {
    TypeTextsOneLine();
    VariantBack(ty);
    hide ToTypeMid, ToTypeEnd, Variant;
  }

  lemma FormatOneLine(shown: char -> bool, c: Compiled, rest: seq<string>)
    requires AllOneLine(rest)
    ensures AllOneLine(FormatLines(shown, c, rest))
  {
    FormatTextsOneLine();
    ModeTextsOneLine();
    PairTextsOneLine();
    hide OneLine, Quote, ToEnumEnd, FormatOpen, FormatClose, NameIndent, ListOpen, ListClose, TextEnd, HashEnd,
         MaskEnd, PairOpen, CoercionLines, SegLine;
    forall k | 0 <= k < |c.segs| ensures OneLine(SegLines(shown, c.segs)[k]) {
      SegOneLine(shown, c.segs[k]);
    }
    forall k | 0 <= k < |c.redactions| ensures OneLine(RedactionLines(shown, c.redactions)[k]) {
      var r := c.redactions[k];
      LinesOneLine(shown, PairOpen(), r.0, if r.1 == Matching.Hash then HashEnd() else MaskEnd());
    }
    LinesOneLine(shown, NameIndent(), c.name, TextEnd());
    CoercionsOneLine(shown, c.coercions, Cons(ListClose(), FormatEnd(shown, c, rest)));
  }

  lemma {:induction false} FormatsOneLine(shown: char -> bool, cs: seq<Compiled>)
    ensures AllOneLine(AllFormatLines(shown, cs))
  {
    FooterOneLine();
    hide Footer, FormatLines, OneLine;
    if cs != [] {
      FormatsOneLine(shown, cs[1..]);
      FormatOneLine(shown, cs[0], AllFormatLines(shown, cs[1..]));
    }
  }

  lemma LinesBack(lines: seq<string>)
    requires AllOneLine(lines)
    ensures Split(Unlines(lines), '\n') == lines + [""]
  {
    UnlinesJoin(lines);
    assert FreeOf(lines + [""], '\n');
    SplitJoin(lines + [""], '\n');
  }

  /** The generated module builds exactly the formats it was generated from. */
  lemma SourceBack(shown: char -> bool, cs: seq<Compiled>)
    ensures ReadSource(Source(shown, cs)) == Some(cs)
  {
    var body := AllFormatLines(shown, cs);
    var lines := Header() + body;
    HeaderOneLine();
    FormatsOneLine(shown, cs);
    FormatsBack(shown, cs);
    hide Header, AllFormatLines, ReadFormats, Unlines, OneLine, Split;
    assert AllOneLine(lines);
    LinesBack(lines);
    assert (lines + [""])[..|lines|] == lines;
    assert lines[..|Header()|] == Header() && lines[|Header()|..] == body;
    assert AfterHeader(lines) == Some(body);
  }
}
