/** The generated lines written out: the fixed texts of the generator around the strings they quote. */
module Templates {
  import opened Quoting
  import opened Lowering
  import opened Codegen
  import Types
  import Matching

  /** A string of printable ASCII without quotes or backslashes is quoted as it is. */
  lemma {:induction false} PlainQuote(shown: char -> bool, s: string)
    requires forall c :: ' ' <= c <= '~' ==> shown(c)
    requires forall k :: 0 <= k < |s| ==> ' ' <= s[k] <= '~' && s[k] != '"' && s[k] != '\\'
    ensures Quote(shown, s) == "\"" + s + "\""
  {
    if s != "" {
      PlainQuote(shown, s[1..]);
      assert EscapeAll(shown, s[1..]) == s[1..] by { Unquoted(shown, s[1..]); }
      assert s == [s[0]] + s[1..];
    }
  }

  lemma Unquoted(shown: char -> bool, s: string)
    requires Quote(shown, s) == "\"" + s + "\""
    ensures EscapeAll(shown, s) == s
  {
    hide EscapeAll;
    var e := EscapeAll(shown, s);
    assert ("\"" + e + "\"")[1..|e| + 1] == e;
    assert |e| == |s|;
    assert ("\"" + s + "\"")[1..|s| + 1] == s;
  }

  lemma SegmentLines(shown: char -> bool, text: string, field: string, ty: Types.TypeName)
    ensures SegLine(shown, Literal(text)) ==
            "                Seg::Literal(" + Quote(shown, text) + ".to_string()),"
    ensures SegLine(shown, Capture(field, ty)) ==
            "                Seg::Capture { field: " + Quote(shown, field)
            + (".to_string(), ty: TypeName::" + Variant(ty) + " },")
  {
    hide Quote, Variant;
  }

  lemma CoercionAndRedactionLines(shown: char -> bool, field: string, ty: Types.TypeName, variant: string)
    ensures ToTypeLine(shown, field, ty) ==
            "                (" + Quote(shown, field)
            + (".to_string(), " + "CoercionTarget::Type(TypeName::" + Variant(ty) + "))," )
    ensures ToEnumLine(shown, field) ==
            "                (" + Quote(shown, field) + ".to_string(), CoercionTarget::Enum(vec!["
    ensures VariantLine(shown, variant) == "                    " + Quote(shown, variant) + ".to_string(),"
    ensures EnumClose() == "                ])),"
    ensures RedactionLine(shown, (field, Matching.Hash)) ==
            "                (" + Quote(shown, field) + ".to_string(), RedactMode::Hash),"
    ensures RedactionLine(shown, (field, Matching.Mask)) ==
            "                (" + Quote(shown, field) + ".to_string(), RedactMode::Mask),"
  {
    hide Quote, Variant;
  }

  lemma FormatTexts(shown: char -> bool, name: string)
    ensures FormatOpen() == "        CompiledFormat::new(" && FormatClose() == "        ),"
    ensures NameLine(shown, name) == "            " + Quote(shown, name) + ".to_string(),"
    ensures ListOpen() == "            vec![" && ListClose() == "            ],"
  {
    hide Quote;
  }

  lemma ModuleTexts()
    ensures Header() == [
              "// @generated by tpt-telemetry-" + "compiler. Do not edit.",
              "use tpt_telemetry_compiler::{" + "CompiledSchema, CompiledFormat, "
                + ("Seg, TypeName, " + "CoercionTarget, RedactMode};"),
              "",
              "/// Build the compiled schema from" + " generated segment data.",
              "pub fn compiled_schema() " + "-> CompiledSchema {",
              "    let formats: " + "Vec<CompiledFormat> = vec!["]
    ensures Footer() == ["    ];", "    CompiledSchema::new(formats)", "}"]
  {}

  lemma VariantTexts()
    ensures Variant(Types.Int) == "Int" && Variant(Types.Uint) == "Uint" && Variant(Types.Float) == "Float"
    ensures Variant(Types.Bool) == "Bool" && Variant(Types.String) == "String"
    ensures Variant(Types.Ipv4) == "Ipv4" && Variant(Types.Ipv6) == "Ipv6" && Variant(Types.Ip) == "Ip"
    ensures Variant(Types.Mac) == "Mac" && Variant(Types.Timestamp) == "Timestamp"
  {}
}
