/** Typed and redacted records: what `build_record` makes of a matched line. */
module Records {
  import opened Wrappers
  import opened Bytes
  import opened Types
  import opened Matching
  import opened Spelling

  datatype Value =
    | Str(text: Text)
    | OwnedString(text: Text)
    | IntValue(i64: int)
    | UintValue(u64: nat)
    | FloatValue(float: int)
    | BoolValue(truth: bool)
    | Ipv4Value(ipv4: int)
    | Ipv6Value(ipv6: int)
    | IpValue(ip: int)
    | MacValue(mac: seq<Byte>)
    | TimestampValue(seconds: int)
    | EnumValue(index: Byte)

  datatype TypedField = TypedField(name: string, value: Value)

  datatype Record = Record(format: string, fields: seq<TypedField>)

  // ---- Coercion ----

  /** `coerce_scalar`: the value of the type, or the text itself when it does not parse. */
  function CoerceScalar(lib: Library, ty: TypeName, raw: Text): Value {
    match ty
    case Int => (match ParseI64(raw) case Some(n) => IntValue(n) case None => Str(raw))
    case Uint => (match ParseU64(raw) case Some(n) => UintValue(n) case None => Str(raw))
    case Float => (match lib.float(raw) case Some(x) => FloatValue(x) case None => Str(raw))
    case Bool => BoolValue(Lower(raw) == TRUE || Lower(raw) == ONE || Lower(raw) == YES)
    case String => Str(raw)
    case Ipv4 => (match lib.ipv4(raw) case Some(x) => Ipv4Value(x) case None => Str(raw))
    case Ipv6 => (match lib.ipv6(raw) case Some(x) => Ipv6Value(x) case None => Str(raw))
    case Ip => (match lib.ip(raw) case Some(x) => IpValue(x) case None => Str(raw))
    case Mac => if IsMac(raw) then MacValue(MacBytes(raw)) else Str(raw)
    case Timestamp => (match lib.timestamp(raw) case Some(t) => TimestampValue(t) case None => Str(raw))
  }

  function VariantIndex(variants: seq<Text>, raw: Text): (i: nat)
    ensures i <= |variants|
  {
    if variants == [] || Lower(variants[0]) == Lower(raw) then 0 else 1 + VariantIndex(variants[1..], raw)
  }

  /** A number below the variant count indexes directly (cut to eight bits); else the name decides. */
  function CoerceEnum(variants: seq<Text>, raw: Text): Value {
    match ParseUsize(raw)
    case Some(n) => if n < |variants| then EnumValue(n % 256) else NamedVariant(variants, raw)
    case None => NamedVariant(variants, raw)
  }

  function NamedVariant(variants: seq<Text>, raw: Text): Value {
    var i := VariantIndex(variants, raw);
    if i < |variants| then EnumValue(i % 256) else Str(raw)
  }

  function FirstCoercion(coercions: seq<(string, Target)>, name: string): Option<Target> {
    if coercions == [] then None
    else if coercions[0].0 == name then Some(coercions[0].1)
    else FirstCoercion(coercions[1..], name)
  }

  function CoerceField(lib: Library, fmt: Format, name: string, declared: TypeName, raw: Text): Value {
    match FirstCoercion(fmt.coercions, name)
    case Some(ToType(ty)) => CoerceScalar(lib, ty, raw)
    case Some(ToEnum(variants)) => CoerceEnum(variants, raw)
    case None => CoerceScalar(lib, declared, raw)
  }

  // ---- Redaction ----

  const STAR: Byte := 42

  function Kept(s: Text): nat {
    if |s| < 2 then |s| else 2
  }

  /** All but the last two characters become stars. */
  function MaskText(s: Text): Text {
    seq(|s| - Kept(s), k => STAR) + s[|s| - Kept(s)..]
  }

  /** The mask is as long as the text, ends in its last two characters, and is stars before them. */
  lemma MaskShape(s: Text)
    ensures |MaskText(s)| == |s|
    ensures forall i :: 0 <= i < |s| ==> MaskText(s)[i] == if i + 2 < |s| then 42 else s[i]
  {}

  /** The last two characters agree, as many as there are. */
  predicate SameEnding(a: Text, b: Text)
    requires |a| == |b|
  {
    forall i :: 0 <= i < |a| && i + 2 >= |a| ==> a[i] == b[i]
  }

  /** What a mask reveals is the length and the last two characters, and nothing else. */
  lemma MaskReveals(a: Text, b: Text)
    ensures MaskText(a) == MaskText(b) <==> |a| == |b| && SameEnding(a, b)
  {
    hide MaskText;
    MaskShape(a);
    MaskShape(b);
    if MaskText(a) == MaskText(b) {
      forall i | 0 <= i < |a| && i + 2 >= |a| ensures a[i] == b[i] {
        assert MaskText(a)[i] == a[i] && MaskText(b)[i] == b[i];
      }
    }
    if |a| == |b| && SameEnding(a, b) {
      assert forall i :: 0 <= i < |a| ==> MaskText(a)[i] == MaskText(b)[i];
    }
  }

  /** `192.168.1.1`. */
  const ADDRESS: Text := [49, 57, 50, 46, 49, 54, 56, 46, 49, 46, 49]

  /** The mask of `192.168.1.1` is nine stars, a dot and a one, and not five stars and a one. */
  lemma MaskedAddress()
    ensures MaskText(ADDRESS) == seq(9, k => 42) + [46, 49]
    ensures MaskText(ADDRESS) != seq(5, k => 42) + [49]
  {
    assert |MaskText(ADDRESS)| == 11;
  }

  function Redact(lib: Library, mode: RedactMode, raw: Text): Value {
    OwnedString(if mode == Mask then MaskText(raw) else lib.hash(raw))
  }

  /** The last redaction that names the field. */
  function LastRedaction(redactions: seq<(string, RedactMode)>, name: string): Option<RedactMode> {
    if redactions == [] then None
    else
      var last := redactions[|redactions| - 1];
      if last.0 == name then Some(last.1) else LastRedaction(redactions[..|redactions| - 1], name)
  }

  /** The type of the last capture with this name. */
  function DeclaredType(segs: seq<Seg>, name: string): TypeName {
    if segs == [] then String
    else
      var last := segs[|segs| - 1];
      if last.Capture? && last.field == name then last.ty else DeclaredType(segs[..|segs| - 1], name)
  }

  predicate FirstOfName(fields: seq<Field>, k: nat)
    requires k < |fields|
  {
    forall j :: 0 <= j < k ==> fields[j].name != fields[k].name
  }

  /** The value field `k` must end up with: redacted from its own text if it is the first field of a
      redacted name, and coerced otherwise. */
  function ExpectedValue(lib: Library, fmt: Format, redactions: seq<(string, RedactMode)>, fields: seq<Field>,
                         k: nat): Value
    requires k < |fields|
  {
    var f := fields[k];
    var redaction := LastRedaction(redactions, f.name);
    if FirstOfName(fields, k) && redaction.Some? then Redact(lib, redaction.value, f.value)
    else CoerceField(lib, fmt, f.name, DeclaredType(fmt.segs, f.name), f.value)
  }

  method FindField(fields: seq<Field>, name: string) returns (j: nat)
    ensures j <= |fields|
    ensures forall i :: 0 <= i < j ==> fields[i].name != name
    ensures j < |fields| ==> fields[j].name == name && FirstOfName(fields, j)
  {
    j := 0;
    while j < |fields| && fields[j].name != name
      invariant j <= |fields|
      invariant forall i :: 0 <= i < j ==> fields[i].name != name
    {
      j := j + 1;
    }
  }

  method DeclaredTypes(segs: seq<Seg>) returns (declared: map<string, TypeName>)
    ensures forall name :: DeclaredType(segs, name) == if name in declared then declared[name] else String
  {
    declared := map[];
    for i := 0 to |segs|
      invariant forall name :: DeclaredType(segs[..i], name) == if name in declared then declared[name] else String
    {
      assert segs[..i + 1][..i] == segs[..i];
      if segs[i].Capture? {
        declared := declared[segs[i].field := segs[i].ty];
      }
    }
    assert segs[..|segs|] == segs;
  }

  /** `build_record`: every field, in order, has the value it must have. */
  method BuildRecord(lib: Library, fmt: Format, raw: RawMatch) returns (record: Record)
    ensures record.format == raw.format && |record.fields| == |raw.fields|
    ensures forall k :: 0 <= k < |raw.fields| ==>
              record.fields[k] == TypedField(raw.fields[k].name, ExpectedValue(lib, fmt, fmt.redactions, raw.fields, k))
  {
    var declared := DeclaredTypes(fmt.segs);
    var fields: seq<TypedField> := [];
    for i := 0 to |raw.fields|
      invariant |fields| == i
      invariant forall k :: 0 <= k < i ==>
                  fields[k] == TypedField(raw.fields[k].name, ExpectedValue(lib, fmt, [], raw.fields, k))
    {
      var f := raw.fields[i];
      var ty := if f.name in declared then declared[f.name] else String;
      fields := fields + [TypedField(f.name, CoerceField(lib, fmt, f.name, ty, f.value))];
    }
    assert fmt.redactions[..0] == [];
    for i := 0 to |fmt.redactions|
      invariant |fields| == |raw.fields|
      invariant forall k :: 0 <= k < |raw.fields| ==>
                  fields[k] == TypedField(raw.fields[k].name,
                      ExpectedValue(lib, fmt, fmt.redactions[..i], raw.fields, k))
    {
      var (name, mode) := fmt.redactions[i];
      assert fmt.redactions[..i + 1][..i] == fmt.redactions[..i];
      var j := FindField(raw.fields, name);
      if j < |raw.fields| {
        fields := fields[j := fields[j].(value := Redact(lib, mode, raw.fields[j].value))];
      }
    }
    assert fmt.redactions[..|fmt.redactions|] == fmt.redactions;
    record := Record(raw.format, fields);
  }

  // ---- What records promise ----

  predicate HasVariant(ty: TypeName, v: Value) {
    match ty
    case Int => v.IntValue?
    case Uint => v.UintValue?
    case Float => v.FloatValue?
    case Bool => v.BoolValue?
    case String => v.Str?
    case Ipv4 => v.Ipv4Value?
    case Ipv6 => v.Ipv6Value?
    case Ip => v.IpValue?
    case Mac => v.MacValue?
    case Timestamp => v.TimestampValue?
  }

  /** No later capture has the same name. With distinct names every capture is one. */
  predicate LastOfName(caps: seq<Seg>, k: nat)
    requires k < |caps| && forall j :: 0 <= j < |caps| ==> caps[j].Capture?
  {
    forall j :: k < j < |caps| ==> caps[j].field != caps[k].field
  }

  lemma {:induction false} CapturesSnoc(segs: seq<Seg>)
    requires segs != []
    ensures var last := segs[|segs| - 1];
            Captures(segs) == Captures(segs[..|segs| - 1]) + if last.Capture? then [last] else []
  {
    if |segs| > 1 {
      CapturesSnoc(segs[1..]);
      assert segs[1..][..|segs| - 2] == segs[..|segs| - 1][1..];
    }
  }

  lemma {:induction false} DeclaredIsOwn(segs: seq<Seg>, k: nat)
    requires k < |Captures(segs)| && LastOfName(Captures(segs), k)
    ensures DeclaredType(segs, Captures(segs)[k].field) == Captures(segs)[k].ty
  {
    CapturesSnoc(segs);
    var before, last := Captures(segs[..|segs| - 1]), segs[|segs| - 1];
    assert last.Capture? ==> Captures(segs)[|before|] == last;
    if k < |before| {
      assert forall j :: 0 <= j < |before| ==> before[j] == Captures(segs)[j];
      DeclaredIsOwn(segs[..|segs| - 1], k);
    }
  }

  /** A matched field that nothing coerces or redacts has the variant of its own capture's type, never
      the string fallback, unless a later capture reuses its name. */
  lemma FieldTyped(lib: Library, fmt: Format, line: Text, fields: seq<Field>, k: nat)
    requires Filled(lib, fmt.segs, line, fields) && k < |fields| && LastOfName(Captures(fmt.segs), k)
    requires FirstCoercion(fmt.coercions, fields[k].name) == None
    requires LastRedaction(fmt.redactions, fields[k].name) == None
    ensures HasVariant(Captures(fmt.segs)[k].ty, ExpectedValue(lib, fmt, fmt.redactions, fields, k))
  {
    DeclaredIsOwn(fmt.segs, k);
    assert Accepts(lib, Captures(fmt.segs)[k].ty, Values(fields)[k]);
    hide Captures, DeclaredType, Rebuild;
  }

  /** A field is redacted exactly when it is the first of a redacted name. */
  lemma RedactedIff(lib: Library, fmt: Format, fields: seq<Field>, k: nat)
    requires k < |fields|
    ensures ExpectedValue(lib, fmt, fmt.redactions, fields, k).OwnedString? <==>
            FirstOfName(fields, k) && LastRedaction(fmt.redactions, fields[k].name).Some?
  {}

  /** `redact` hides every field of a name exactly when no two captures share it: of several fields
      with one redacted name only the first is hidden. */
  lemma AllRedactedIff(lib: Library, fmt: Format, fields: seq<Field>, name: string)
    requires LastRedaction(fmt.redactions, name).Some?
    ensures (forall k :: 0 <= k < |fields| && fields[k].name == name ==>
               ExpectedValue(lib, fmt, fmt.redactions, fields, k).OwnedString?)
        <==> (forall i, j :: 0 <= i < j < |fields| ==> fields[i].name != name || fields[j].name != name)
  {
    forall k | 0 <= k < |fields| && fields[k].name == name
      ensures ExpectedValue(lib, fmt, fmt.redactions, fields, k).OwnedString? <==> FirstOfName(fields, k)
    {
      RedactedIff(lib, fmt, fields, k);
    }
    hide ExpectedValue;
  }

  // ---- Which redaction, which coercion ----

  predicate NamesNone<T>(pairs: seq<(string, T)>, name: string) {
    forall j :: 0 <= j < |pairs| ==> pairs[j].0 != name
  }

  lemma {:induction false} LastRedactionIs(before: seq<(string, RedactMode)>, name: string, mode: RedactMode,
                                           after: seq<(string, RedactMode)>)
    requires NamesNone(after, name)
    ensures LastRedaction(before + [(name, mode)] + after, name) == Some(mode)
  {
    var all := before + [(name, mode)] + after;
    if after == [] {
      assert all == before + [(name, mode)];
    } else {
      var n := |after| - 1;
      assert all[..|all| - 1] == before + [(name, mode)] + after[..n];
      assert all[|all| - 1] == after[n];
      LastRedactionIs(before, name, mode, after[..n]);
    }
  }

  lemma {:induction false} NoRedactionIff(redactions: seq<(string, RedactMode)>, name: string)
    ensures LastRedaction(redactions, name) == None <==> NamesNone(redactions, name)
  {
    if redactions != [] {
      var n := |redactions| - 1;
      NoRedactionIff(redactions[..n], name);
      assert forall j :: 0 <= j < n ==> redactions[..n][j] == redactions[j];
    }
  }

  lemma {:induction false} FirstCoercionIs(before: seq<(string, Target)>, name: string, target: Target,
                                           after: seq<(string, Target)>)
    requires NamesNone(before, name)
    ensures FirstCoercion(before + [(name, target)] + after, name) == Some(target)
  {
    var all := before + [(name, target)] + after;
    if before == [] {
      assert all == [(name, target)] + after;
    } else {
      assert all[0] == before[0] && all[1..] == before[1..] + [(name, target)] + after;
      FirstCoercionIs(before[1..], name, target, after);
    }
  }

  lemma {:induction false} NoCoercionIff(coercions: seq<(string, Target)>, name: string)
    ensures FirstCoercion(coercions, name) == None <==> NamesNone(coercions, name)
  {
    if coercions != [] {
      NoCoercionIff(coercions[1..], name);
      assert forall j :: 0 < j < |coercions| ==> coercions[j] == coercions[1..][j - 1];
    }
  }

  /** The last redaction that names a field decides what its first field becomes: the mask or the digest of
      the text captured, whatever the coercions say. */
  lemma RedactedValue(lib: Library, fmt: Format, fields: seq<Field>, k: nat, before: seq<(string, RedactMode)>,
                      mode: RedactMode, after: seq<(string, RedactMode)>)
    requires k < |fields| && forall j :: 0 <= j < k ==> fields[j].name != fields[k].name
    requires fmt.redactions == before + [(fields[k].name, mode)] + after && NamesNone(after, fields[k].name)
    ensures ExpectedValue(lib, fmt, fmt.redactions, fields, k) ==
            OwnedString(if mode == Mask then MaskText(fields[k].value) else lib.hash(fields[k].value))
  {
    hide MaskText, LastRedaction;
    LastRedactionIs(before, fields[k].name, mode, after);
  }

  /** A field that is not redacted has the value of the first coercion that names it. */
  lemma CoercedValue(lib: Library, fmt: Format, fields: seq<Field>, k: nat, before: seq<(string, Target)>,
                     target: Target, after: seq<(string, Target)>)
    requires k < |fields| && NamesNone(fmt.redactions, fields[k].name)
    requires fmt.coercions == before + [(fields[k].name, target)] + after && NamesNone(before, fields[k].name)
    ensures var value := ExpectedValue(lib, fmt, fmt.redactions, fields, k);
            && (target.ToType? ==> value == CoerceScalar(lib, target.ty, fields[k].value))
            && (target.ToEnum? ==> value == CoerceEnum(target.variants, fields[k].value))
  {
    hide CoerceScalar, CoerceEnum, LastRedaction, FirstCoercion;
    NoRedactionIff(fmt.redactions, fields[k].name);
    FirstCoercionIs(before, fields[k].name, target, after);
  }

  /** A matched field that nothing coerces or redacts is its text as its own capture's type. */
  lemma DeclaredValue(lib: Library, fmt: Format, fields: seq<Field>, k: nat)
    requires |fields| == |Captures(fmt.segs)| && k < |fields| && fields[k].name == Captures(fmt.segs)[k].field
    requires LastOfName(Captures(fmt.segs), k)
    requires NamesNone(fmt.redactions, fields[k].name) && NamesNone(fmt.coercions, fields[k].name)
    ensures ExpectedValue(lib, fmt, fmt.redactions, fields, k) ==
            CoerceScalar(lib, Captures(fmt.segs)[k].ty, fields[k].value)
  {
    DeclaredIsOwn(fmt.segs, k);
    hide CoerceScalar, LastRedaction, FirstCoercion, DeclaredType, Captures;
    NoRedactionIff(fmt.redactions, fields[k].name);
    NoCoercionIff(fmt.coercions, fields[k].name);
  }

  // ---- What a text becomes ----

  /** A number is the one written. */
  lemma IntValueIff(lib: Library, raw: Text, n: int)
    ensures CoerceScalar(lib, Int, raw) == IntValue(n) <==>
            -0x8000_0000_0000_0000 <= n < 0x8000_0000_0000_0000 && exists sign, z :: SignedAs(raw, n, sign, z)
  {
    hide ParseI64, SignedAs;
    SignedIff(raw, n);
  }

  lemma UintValueIff(lib: Library, raw: Text, n: nat)
    ensures CoerceScalar(lib, Uint, raw) == UintValue(n) <==>
            n < 0x1_0000_0000_0000_0000 && exists plus, z :: UnsignedAs(raw, n, plus, z)
  {
    hide ParseUsize, UnsignedAs;
    UnsignedIff(raw, n);
  }

  /** Three words are true and every other text is false; a string is itself; a text that does not parse
      stays as it is. */
  lemma ScalarValues(lib: Library, raw: Text)
    ensures CoerceScalar(lib, Bool, raw) == BoolValue(raw == [49] || SpellsTrue(raw) || SpellsYes(raw))
    ensures CoerceScalar(lib, String, raw) == Str(raw)
    ensures CoerceScalar(lib, Mac, raw).MacValue? <==> MacForm(raw)
    ensures forall ty :: CoerceScalar(lib, ty, raw).Str? ==> CoerceScalar(lib, ty, raw) == Str(raw)
  {
    hide ParseI64, ParseUsize, Lower, SpellsTrue, SpellsYes, IsMac, MacForm;
    LowerTrue(raw);
    LowerYes(raw);
    LowerDigit(raw);
    MacShape(raw);
  }

  /** The parsed types hold what their parser returns. */
  lemma ParsedValues(lib: Library, raw: Text)
    ensures lib.float(raw).Some? ==> CoerceScalar(lib, Float, raw) == FloatValue(lib.float(raw).value)
    ensures lib.ipv4(raw).Some? ==> CoerceScalar(lib, Ipv4, raw) == Ipv4Value(lib.ipv4(raw).value)
    ensures lib.ipv6(raw).Some? ==> CoerceScalar(lib, Ipv6, raw) == Ipv6Value(lib.ipv6(raw).value)
    ensures lib.ip(raw).Some? ==> CoerceScalar(lib, Ip, raw) == IpValue(lib.ip(raw).value)
    ensures lib.timestamp(raw).Some? ==> CoerceScalar(lib, Timestamp, raw) == TimestampValue(lib.timestamp(raw).value)
  {}

  /** An address written with colons or hyphens becomes its six bytes. */
  lemma AddressValue(lib: Library, bytes: seq<Byte>, separator: Byte)
    requires |bytes| == 6 && (separator == 58 || separator == 45)
    ensures CoerceScalar(lib, Mac, MacText(bytes, separator)) == MacValue(bytes)
  {
    hide IsMac, MacBytes, MacText;
    MacRoundTrip(bytes, separator);
  }

  /** Equal but for the case of letters. */
  predicate SameWord(a: Text, b: Text) {
    |a| == |b| && forall i :: 0 <= i < |a| ==> a[i] == b[i] || CaseOf(a[i], b[i]) || CaseOf(b[i], a[i])
  }

  predicate CaseOf(capital: Byte, small: Byte) {
    65 <= capital <= 90 && small == capital + 32
  }

  lemma SameWordIff(a: Text, b: Text)
    ensures Lower(a) == Lower(b) <==> SameWord(a, b)
  {
    if Lower(a) == Lower(b) {
      assert |Lower(a)| == |a| && |Lower(b)| == |b|;
      forall i | 0 <= i < |a| ensures a[i] == b[i] || CaseOf(a[i], b[i]) || CaseOf(b[i], a[i]) {
        assert Lower(a)[i] == Lower(b)[i];
      }
    }
  }

  lemma {:induction false} VariantIndexIs(variants: seq<Text>, raw: Text)
    ensures var i := VariantIndex(variants, raw);
            && (i < |variants| ==> SameWord(variants[i], raw))
            && forall j :: 0 <= j < i ==> !SameWord(variants[j], raw)
  {
    hide Lower, SameWord;
    if variants != [] {
      SameWordIff(variants[0], raw);
      VariantIndexIs(variants[1..], raw);
      assert forall j :: 0 < j < |variants| ==> variants[j] == variants[1..][j - 1];
    }
  }

  /** The text is an unsigned number below the limit. */
  ghost predicate NumberBelow(raw: Text, limit: nat) {
    exists n: nat, plus, z :: n < limit && n < 0x1_0000_0000_0000_0000 && UnsignedAs(raw, n, plus, z)
  }

  predicate FirstNamed(variants: seq<Text>, raw: Text, i: nat) {
    i < |variants| && SameWord(variants[i], raw) && forall j :: 0 <= j < i ==> !SameWord(variants[j], raw)
  }

  /** A number below the count of variants is itself an index, cut to eight bits. */
  lemma EnumByNumber(variants: seq<Text>, raw: Text, n: nat, plus: bool, z: nat)
    requires UnsignedAs(raw, n, plus, z) && n < |variants| && n < 0x1_0000_0000_0000_0000
    ensures CoerceEnum(variants, raw) == EnumValue(n % 256)
  {
    hide ParseUsize, UnsignedAs;
    UnsignedIff(raw, n);
  }

  /** Any other text is the first variant of that name, letters in either case, or stays as it is. */
  lemma EnumByName(variants: seq<Text>, raw: Text)
    requires !NumberBelow(raw, |variants|)
    ensures (forall j :: 0 <= j < |variants| ==> !SameWord(variants[j], raw)) ==> CoerceEnum(variants, raw) == Str(raw)
    ensures forall i: nat :: FirstNamed(variants, raw, i) ==> CoerceEnum(variants, raw) == EnumValue(i % 256)
  {
    hide ParseUsize, UnsignedAs, SameWord, VariantIndex;
    VariantIndexIs(variants, raw);
    forall i: nat | FirstNamed(variants, raw, i) ensures i == VariantIndex(variants, raw) {}
    if ParseUsize(raw).Some? && ParseUsize(raw).value < |variants| {
      UnsignedIff(raw, ParseUsize(raw).value);
    }
  }
}
