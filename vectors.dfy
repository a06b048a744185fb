/** Concrete cases from the generator's test resources: properties of the
    source struct `VariousPropertiesStruct`, the rendered defaults and type
    texts the expected output shows for them, and marker comments. */
module Vectors {
  import opened Wrappers
  import opened Text
  import opened Syntax
  import opened Marker
  import opened Overrides
  import opened OverrideParsing
  import opened ClauseParsing
  import opened Visitor
  import opened Defaults
  import opened Fragment

  const StringType: TypeSyntax := IdentifierType("String", "String")
  const IntType: TypeSyntax := IdentifierType("Int", "Int")
  const VoidType: TypeSyntax := IdentifierType("Void", "Void")

  /** `() -> Void` */
  const VoidClosure: TypeSyntax := FunctionType([], VoidType, "() -> Void")

  /** `character: Character` defaults to its first letter. */
  lemma CharacterVector()
    ensures DefaultValue(IdentifierType("Character", "Character"), "character") == "\"c\""
  {
  }

  /** `implicitlyUnwrappedOptional: String!` defaults like a `String`. */
  lemma ImplicitlyUnwrappedVector()
    ensures DefaultValue(ImplicitlyUnwrappedOptionalType(StringType, "String!"), "implicitlyUnwrappedOptional")
         == "\"implicitlyUnwrappedOptional\""
  {
  }

  /** `array: Array<String>` is an identifier the table does not know, while
      `set: Set<String>` is one it does. */
  lemma GenericIdentifierVectors()
    ensures DefaultValue(IdentifierType("Array", "Array<String>"), "array") == ".fixture()"
    ensures DefaultValue(IdentifierType("Dictionary", "Dictionary<String, Any>"), "dictionary") == ".fixture()"
    ensures DefaultValue(IdentifierType("Set", "Set<String>"), "set") == "[]"
  {
  }

  /** A two-element tuple's default is its two entries, parenthesised. */
  lemma PairTupleDefault(t: TypeSyntax, hint: string)
    requires t.TupleType? && |t.elements| == 2
    ensures DefaultValue(t, hint) == "(" + TupleEntry(t, 0) + ", " + TupleEntry(t, 1) + ")"
  {
    var entries := TupleEntries(t);
    assert entries == [TupleEntry(t, 0), TupleEntry(t, 1)];
    assert entries[1..] == [TupleEntry(t, 1)];
    assert Join(entries, ", ") == TupleEntry(t, 0) + ", " + TupleEntry(t, 1);
    assert DefaultValue(t, hint) == "(" + Join(entries, ", ") + ")";
  }

  /** `tuple: (String, Int)` takes the positions as hints. */
  lemma UnlabelledTupleVector()
    ensures DefaultValue(TupleType([TupleTypeElement(None, StringType), TupleTypeElement(None, IntType)], "(String, Int)"), "tuple")
         == "(\"0\", 0)"
  {
    var t := TupleType([TupleTypeElement(None, StringType), TupleTypeElement(None, IntType)], "(String, Int)");
    PairTupleDefault(t, "tuple");
    assert DecimalString(0) == "0";
    assert DecimalString(1) == "1";
    assert TupleEntry(t, 0) == "\"0\"";
    assert TupleEntry(t, 1) == "0";
  }

  /** `tupleWithArgumentNames: (name: String, age: Int)` takes the labels as hints. */
  lemma LabelledTupleVector()
    ensures DefaultValue(TupleType([TupleTypeElement(Some("name"), StringType), TupleTypeElement(Some("age"), IntType)], "(name: String, age: Int)"), "tupleWithArgumentNames")
         == "(name: \"name\", age: 0)"
  {
    var t := TupleType([TupleTypeElement(Some("name"), StringType), TupleTypeElement(Some("age"), IntType)], "(name: String, age: Int)");
    PairTupleDefault(t, "tupleWithArgumentNames");
    LabelledEntries(t);
    assert "(" + "name: \"name\"" + ", " + "age: 0" + ")" == "(name: \"name\", age: 0)";
  }

  lemma LabelledEntries(t: TypeSyntax)
    requires t == TupleType([TupleTypeElement(Some("name"), StringType), TupleTypeElement(Some("age"), IntType)], "(name: String, age: Int)")
    ensures TupleEntry(t, 0) == "name: \"name\"" && TupleEntry(t, 1) == "age: 0"
  {
    assert DefaultValue(StringType, "name") == "\"name\"";
    assert DefaultValue(IntType, "age") == "0";
  }

  /** `closure: () -> Void` gets an empty closure, `(Int) -> String` one that
      ignores its argument and returns the empty string. */
  lemma ClosureVectors()
    ensures DefaultValue(VoidClosure, "closure") == "{ }"
    ensures DefaultValue(FunctionType([IntType], StringType, "(Int) -> String"), "closureWithArguments") == "{ _ in \"\" }"
  {
    assert Underscores(1) == ["_"];
    assert ClosureParameters(1) == " _ in";
  }

  /** `closure: () -> Void` is written `@escaping () -> Void`. */
  lemma BareClosureTypeVector()
    ensures TypeDescription(VoidClosure) == "@escaping () -> Void"
  {
  }

  /** `attributeClosure: @autoclosure () -> Void` keeps its attribute and gains `@escaping`. */
  lemma AutoclosureTypeVector()
    ensures TypeDescription(AttributedType([Attribute("", "@autoclosure", " ")], VoidClosure, "@autoclosure () -> Void"))
         == "@autoclosure @escaping () -> Void"
  {
    SingleAttributeClosureText(Attribute("", "@autoclosure", " "), VoidClosure, "@autoclosure () -> Void");
    assert "@autoclosure" + " @escaping " + "() -> Void" == "@autoclosure @escaping () -> Void";
  }

  /** `escapingClosure: @escaping () -> Void`: the attribute's raw text is
      `@escaping ` with the space before the function type, so a second
      `@escaping` is added. */
  lemma EscapingTypeVector()
    ensures TypeDescription(AttributedType([Attribute("", "@escaping", " ")], VoidClosure, "@escaping () -> Void"))
         == "@escaping @escaping () -> Void"
  {
    EscapingWithTriviaIsDoubled(Attribute("", "@escaping", " "), VoidClosure, "@escaping () -> Void");
  }

  /** `escapingClosureOptional: @escaping (() -> Void)?`: an attributed optional
      keeps its text and defaults to `nil`. */
  lemma EscapingOptionalVector()
    ensures var t := AttributedType([Attribute("", "@escaping", " ")],
                                    OptionalType(VoidClosure, "(() -> Void)?"), "@escaping (() -> Void)?");
      && TypeDescription(t) == "@escaping (() -> Void)?"
      && DefaultValue(t, "escapingClosureOptional") == "nil"
  {
  }

  /** `let constant: String = "constant"` has an initializer and gives no
      parameter; `var computedProperty: String { ... }` gives one. */
  lemma FilterVectors()
    ensures Properties([VariableDecl([PatternBinding(IdentifierPattern("constant"), Some(StringType), Some("\"constant\""), None)])]) == []
    ensures Properties([VariableDecl([PatternBinding(IdentifierPattern("computedProperty"), Some(StringType), None, Some("\"computed property\""))])])
         == [Property("computedProperty", StringType)]
  {
    InitializedMemberSkipped(PatternBinding(IdentifierPattern("constant"), Some(StringType), Some("\"constant\""), None), []);
    ComputedPropertyKept("computedProperty", StringType, "\"computed property\"");
  }

  /** `struct CustomStruct {}` marked by `/// @fixturable` gets the empty factory. */
  lemma CustomStructVector()
    ensures FixtureExtension(FixturableStruct("CustomStruct", [], map[], None))
         == "extension " + "CustomStruct" + " {\n"
            + "    static func fixture() -> Self {\n"
            + "        .init()\n"
            + "    }\n"
            + "}\n"
  {
    var fs := FixturableStruct("CustomStruct", [], map[], None);
    assert Properties(fs.members) == [];
    NoPropertiesFragment(fs);
  }

  /** The marker of the test source's `CustomStruct` is recognised. */
  lemma AcceptedMarkerVector()
    ensures IsMarkerComment("/// @fixturable")
  {
    var s := "/// @fixturable";
    assert s[..3] == "///";
    assert OptionalSpace(s, 3) == 1;
    assert s[4..15] == Fixturable;
    assert KeywordEnd(s, 4) == Some(15);
  }

  /** So is the other spelling. */
  lemma OtherSpellingVector()
    ensures IsMarkerComment("/// @fixtureable")
  {
    var s := "/// @fixtureable";
    assert s[..3] == "///";
    assert OptionalSpace(s, 3) == 1;
    assert s[11] != Fixturable[7];
    assert s[4..16] == Fixtureable;
    assert KeywordEnd(s, 4) == Some(16);
  }

  /** A marker directly after `///` with an override clause is recognised. */
  lemma ClauseMarkerVector()
    ensures IsMarkerComment("///" + Fixturable + "(override: id = 1)")
  {
    MarkerForms(Fixturable, "", "", "(override: id = 1)");
  }

  /** The example app's marker, with an override clause right after the keyword. */
  lemma ExampleMarkerVector()
    ensures IsMarkerComment("/// " + Fixturable + "(override: role = .user)")
  {
    MarkerForms(Fixturable, " ", "", "(override: role = .user)");
  }

  /** Prose that mentions the keyword is not a marker. */
  lemma ProseVector()
    ensures !IsMarkerComment("/// Use @fixturable")
  {
    var s := "/// Use @fixturable";
    assert s[3] == ' ' && s[4] == 'U';
    assert !StartsAt(s, 4, Fixturable) by { assert s[4..4 + |Fixturable|][0] == 'U'; }
    assert !StartsAt(s, 4, Fixtureable) by { assert s[4..4 + |Fixtureable|][0] == 'U'; }
  }

  /** Two spaces after `///` are one more than the pattern allows. */
  lemma TwoSpacesVector()
    ensures !IsMarkerComment("///  @fixturable")
  {
    var s := "///  @fixturable";
    assert s[3] == ' ' && s[4] == ' ';
    assert !StartsAt(s, 4, Fixturable) by { assert s[4..4 + |Fixturable|][0] == ' '; }
    assert !StartsAt(s, 4, Fixtureable) by { assert s[4..4 + |Fixtureable|][0] == ' '; }
  }

  /** A struct nested in a struct, inside an enum, inside a struct. */
  lemma NamespaceVector()
    ensures Namespace([Node(StructDecl("Outer"), [], [], []), Node(OtherDecl, [], [], []), Node(StructDecl("Inner"), [], [], [])])
         == Some("Outer.Inner.")
  {
    var outer := Node(StructDecl("Outer"), [], [], []);
    var other := Node(OtherDecl, [], [], []);
    var inner := Node(StructDecl("Inner"), [], [], []);
    assert [outer, other, inner][1..] == [other, inner];
    assert [other, inner][1..] == [inner];
    assert [inner][1..] == [];
    assert EnclosingStructNames([inner]) == ["Inner"];
    assert EnclosingStructNames([other, inner]) == ["Inner"];
    assert EnclosingStructNames([outer, other, inner]) == ["Outer", "Inner"];
    assert ["Outer", "Inner"][1..] == ["Inner"];
    assert ["Inner"][1..] == [];
    assert Qualifier(["Inner"]) == "Inner" + "." + "";
    assert Qualifier(["Outer", "Inner"]) == "Outer" + "." + ("Inner" + "." + "");
    assert "Outer" + "." + ("Inner" + "." + "") == "Outer.Inner.";
  }

  /** The two settings written in the marker comment of `VariousPropertiesStruct`. */
  const SourcePairs: seq<OverridePair> :=
    [OverridePair("customEnumWithOverride", ".a"), OverridePair("customEnumWithOverride2", ".b")]

  /** That marker comment,
      `/// @fixturable(override: customEnumWithOverride = .a, customEnumWithOverride2 = .b)`,
      written as its parts: the marker, the clause opening, the first
      setting, the comma, the second setting and the closing parenthesis. */
  const SourceComment: string :=
    "/// @fixturable" + "(override:" + " customEnumWithOverride = .a" + ","
    + " customEnumWithOverride2 = .b" + ")"

  /** The settings that comment gives: both keys, each with its value. */
  const SourceOverrides: map<string, string> := map["customEnumWithOverride" := ".a", "customEnumWithOverride2" := ".b"]

  lemma SourceFirstEntry()
    ensures EntryText(SourcePairs[0]) == " customEnumWithOverride = .a"
  {
  }

  lemma SourceSecondEntry()
    ensures EntryText(SourcePairs[1]) == " customEnumWithOverride2 = .b"
  {
  }

  /** The comment is the marker followed by the clause of the two settings. */
  lemma SourceCommentClause()
    ensures SourceComment == "/// @fixturable" + ClauseText(SourcePairs)
  {
    SourceFirstEntry();
    SourceSecondEntry();
    assert SourcePairs[1..] == [SourcePairs[1]];
    assert SettingsText(SourcePairs) == EntryText(SourcePairs[0]) + "," + (EntryText(SourcePairs[1]) + ")");
  }

  predicate NoNewline(s: string)
  {
    forall k :: 0 <= k < |s| ==> !IsNewline(s[k])
  }

  lemma NoNewlineAppend(a: string, b: string)
    requires NoNewline(a) && NoNewline(b)
    ensures NoNewline(a + b)
  {
    forall k | 0 <= k < |a + b| ensures !IsNewline((a + b)[k]) {
      if k >= |a| { assert (a + b)[k] == b[k - |a|]; }
    }
  }

  /** The comment's clause is one parenthesised group on one line. */
  lemma SourceClauseIsTail()
    ensures IsClauseTail("(override:" + " customEnumWithOverride = .a" + "," + " customEnumWithOverride2 = .b" + ")")
  {
    var opening, first, second := "(override:", " customEnumWithOverride = .a", " customEnumWithOverride2 = .b";
    assert NoNewline(opening) && NoNewline(first) && NoNewline(",") && NoNewline(second) && NoNewline(")");
    NoNewlineAppend(opening, first);
    NoNewlineAppend(opening + first, ",");
    NoNewlineAppend(opening + first + ",", second);
    NoNewlineAppend(opening + first + "," + second, ")");
  }

  /** The comment is the marker keyword after `/// ` and before the clause. */
  lemma SourceCommentParts()
    ensures SourceComment == "///" + " " + Fixturable + ""
      + ("(override:" + " customEnumWithOverride = .a" + "," + " customEnumWithOverride2 = .b" + ")")
  {
    assert "/// @fixturable" == "///" + " " + Fixturable + "";
  }

  /** The comment is a marker. */
  lemma SourceCommentIsMarker()
    ensures IsMarkerComment(SourceComment)
  {
    SourceClauseIsTail();
    MarkerForms(Fixturable, " ", "", "(override:" + " customEnumWithOverride = .a" + "," + " customEnumWithOverride2 = .b" + ")");
    SourceCommentParts();
  }

  lemma SourcePairsWritable()
    ensures AllWritable(SourcePairs)
  {
    assert Writable(SourcePairs[0]);
    assert Writable(SourcePairs[1]);
  }

  lemma SourcePairsMap()
    ensures PairsToMap(SourcePairs) == SourceOverrides
  {
    assert SourcePairs[..1] == [SourcePairs[0]] && SourcePairs[..1][..0] == [];
  }

  /** Parsing the comment's override clause gives both settings. */
  lemma SourceCommentSettings()
    ensures OverrideSettings(SourceComment) == SourceOverrides
  {
    SourceCommentClause();
    SourcePairsWritable();
    WrittenClauseSettings("/// @fixturable", SourcePairs);
    SourcePairsMap();
  }

  /** `customEnumWithOverride: CustomEnum` takes the marker's override value
      `.a`: the line is the indentation, the name, the type and the value. */
  lemma OverrideLineVector()
    ensures ParameterLine(Property("customEnumWithOverride", IdentifierType("CustomEnum", "CustomEnum")), OverrideSettings(SourceComment))
         == "        " + "customEnumWithOverride" + ": " + "CustomEnum" + " = " + ".a"
  {
    var t := IdentifierType("CustomEnum", "CustomEnum");
    SourceCommentSettings();
    assert TypeDescription(t) == "CustomEnum";
    assert "customEnumWithOverride" in SourceOverrides && SourceOverrides["customEnumWithOverride"] == ".a";
  }

  /** `customEnumWithOverride2: CustomEnum` takes the second setting of the same clause. */
  lemma SecondOverrideLineVector()
    ensures ParameterLine(Property("customEnumWithOverride2", IdentifierType("CustomEnum", "CustomEnum")), OverrideSettings(SourceComment))
         == "        " + "customEnumWithOverride2" + ": " + "CustomEnum" + " = " + ".b"
  {
    var t := IdentifierType("CustomEnum", "CustomEnum");
    SourceCommentSettings();
    assert TypeDescription(t) == "CustomEnum";
    assert "customEnumWithOverride2" in SourceOverrides && SourceOverrides["customEnumWithOverride2"] == ".b";
  }

  lemma NotOverridden()
    ensures "otherFixturableStruct" !in SourceOverrides
  {
    assert "otherFixturableStruct"[0] != "customEnumWithOverride"[0];
    assert "otherFixturableStruct"[0] != "customEnumWithOverride2"[0];
  }

  /** `otherFixturableStruct: CustomStruct` has no override and falls back to
      `.fixture()`: the line is the indentation, the name, the type and the default. */
  lemma DefaultLineVector()
    ensures ParameterLine(Property("otherFixturableStruct", IdentifierType("CustomStruct", "CustomStruct")), OverrideSettings(SourceComment))
         == "        " + "otherFixturableStruct" + ": " + "CustomStruct" + " = " + ".fixture()"
  {
    var t := IdentifierType("CustomStruct", "CustomStruct");
    SourceCommentSettings();
    NotOverridden();
    assert TypeDescription(t) == "CustomStruct";
    assert DefaultValue(t, "otherFixturableStruct") == ".fixture()";
  }
}
