/** `buildFixtureExtensionSourceCode(for:)`: the `extension` with a static
    `fixture` factory that the generator writes for one fixturable struct. */
module Fragment {
  import opened Wrappers
  import opened Text
  import opened Syntax
  import opened Defaults

  /** A stored property that becomes a parameter of the factory. */
  datatype Property = Property(name: string, propertyType: TypeSyntax)

  // ---------------------------------------------------------------- member filter

  /** The filter's test: a variable whose first binding names a single
      identifier, has a type annotation and has no initializer. An accessor
      block is not looked at. */
  predicate IsEligible(m: Member)
  {
    && m.VariableDecl? && |m.bindings| > 0
    && m.bindings[0].pattern.IdentifierPattern?
    && m.bindings[0].typeAnnotation.Some?
    && m.bindings[0].initializer.None?
  }

  /** The `compactMap` closure: the first binding's name and type, for an
      eligible member only. */
  function EligibleProperty(m: Member): (r: Option<Property>)
    ensures r.Some? <==> IsEligible(m)
    ensures r.Some? ==> r.value.name == m.bindings[0].pattern.identifier
                        && r.value.propertyType == m.bindings[0].typeAnnotation.value
  {
    if m.VariableDecl? && |m.bindings| > 0 then
      var binding := m.bindings[0];
      match (binding.pattern, binding.typeAnnotation, binding.initializer)
      case (IdentifierPattern(name), Some(propertyType), None) => Some(Property(name, propertyType))
      case _ => None
    else None
  }

  /** The eligible members' properties, in declaration order. */
  function Properties(members: seq<Member>): seq<Property>
  {
    if |members| == 0 then []
    else
      (match EligibleProperty(members[0]) case Some(p) => [p] case None => [])
      + Properties(members[1..])
  }

  /** The filter works member by member: on a concatenation of member lists it
      gives the concatenation of their properties, so declaration order is kept. */
  lemma {:induction false} PropertiesAppend(a: seq<Member>, b: seq<Member>)
    ensures Properties(a + b) == Properties(a) + Properties(b)
  {
    if |a| > 0 {
      assert (a + b)[0] == a[0];
      assert (a + b)[1..] == a[1..] + b;
      PropertiesAppend(a[1..], b);
    } else {
      assert a + b == b;
    }
  }

  /** Every property comes from an eligible member, and every eligible member
      gives its property. */
  lemma {:induction false} PropertiesFromEligible(members: seq<Member>, p: Property)
    ensures p in Properties(members) <==>
      exists i :: 0 <= i < |members| && EligibleProperty(members[i]) == Some(p)
  {
    if |members| > 0 {
      PropertiesFromEligible(members[1..], p);
      assert forall i :: 1 <= i < |members| ==> members[i] == members[1..][i - 1];
      if exists i :: 0 <= i < |members| && EligibleProperty(members[i]) == Some(p) {
        var i :| 0 <= i < |members| && EligibleProperty(members[i]) == Some(p);
        if i > 0 {
          assert EligibleProperty(members[1..][i - 1]) == Some(p);
        }
      }
    }
  }

  /** A member with an initializer gives no parameter. */
  lemma InitializedMemberSkipped(binding: PatternBinding, rest: seq<PatternBinding>)
    requires binding.initializer.Some?
    ensures Properties([VariableDecl([binding] + rest)]) == []
  {
    assert Properties([VariableDecl([binding] + rest)][1..]) == [];
  }

  /** A computed property, with a type annotation and an accessor block but no
      initializer, passes the filter: the accessor block is never tested. */
  lemma ComputedPropertyKept(name: string, propertyType: TypeSyntax, body: string)
    ensures Properties([VariableDecl([PatternBinding(IdentifierPattern(name), Some(propertyType), None, Some(body))])])
         == [Property(name, propertyType)]
  {
    var m := VariableDecl([PatternBinding(IdentifierPattern(name), Some(propertyType), None, Some(body))]);
    assert [m][1..] == [];
  }

  // ---------------------------------------------------------------- lines

  /** One factory parameter: the name, the type text and the override value
      verbatim when the settings have the name, the computed default otherwise. */
  function ParameterLine(p: Property, overrideSettings: map<string, string>): (r: string)
    ensures |r| > 8 && r[..8] == "        "
  {
    "        " + p.name + ": " + TypeDescription(p.propertyType) + " = "
    + (if p.name in overrideSettings then overrideSettings[p.name] else DefaultValue(p.propertyType, p.name))
  }

  /** One `.init` argument, passing the parameter of the same name. */
  function ArgumentLine(p: Property): (r: string)
    ensures |r| > 12 && r[..12] == "            "
  {
    "            " + p.name + ": " + p.name
  }

  function ParameterLines(properties: seq<Property>, overrideSettings: map<string, string>): seq<string>
  {
    seq(|properties|, i requires 0 <= i < |properties| => ParameterLine(properties[i], overrideSettings))
  }

  function ArgumentLines(properties: seq<Property>): seq<string>
  {
    seq(|properties|, i requires 0 <= i < |properties| => ArgumentLine(properties[i]))
  }

  /** The parameter list of a struct, one line per property, joined by `,\n`. */
  function Parameters(fs: FixturableStruct): string
  {
    Join(ParameterLines(Properties(fs.members), fs.overrideSettings), ",\n")
  }

  /** The `.init` argument list of a struct, one line per property, joined by `,\n`. */
  function Assignments(fs: FixturableStruct): string
  {
    Join(ArgumentLines(Properties(fs.members)), ",\n")
  }

  /** Both lists are empty exactly when the struct has no eligible property. */
  lemma ListsEmptyIff(fs: FixturableStruct)
    ensures Parameters(fs) == "" <==> |Properties(fs.members)| == 0
    ensures Assignments(fs) == "" <==> |Properties(fs.members)| == 0
  {
    var properties := Properties(fs.members);
    JoinEmptyIff(ParameterLines(properties, fs.overrideSettings), ",\n");
    JoinEmptyIff(ArgumentLines(properties), ",\n");
  }

  // ---------------------------------------------------------------- the fragment

  /** The extension header on the bare struct name, up to the factory's `(`. */
  function Opening(structName: string): string
  {
    "extension " + structName + " {\n" + "    static func fixture("
  }

  /** A list on its own lines: a line break, the list, then `close`, the line
      break and indentation of the closing `)`; nothing for an empty list. */
  function OnOwnLines(list: string, close: string): string
  {
    if list != "" then "\n" + list + close else ""
  }

  /** Between the parameter list and the argument list. */
  const Middle: string := ") -> Self {\n" + "        .init("

  /** After the argument list. */
  const Closing: string := ")\n" + "    }\n" + "}\n"

  /** The fragment for `fs`: the extension header on the bare struct name, the
      parameter list (on its own lines only when non-empty), the `.init` call
      with its argument list (likewise), and the closing braces. */
  function FixtureExtension(fs: FixturableStruct): string
  {
    Opening(fs.name) + OnOwnLines(Parameters(fs), "\n    ") + Middle
    + OnOwnLines(Assignments(fs), "\n        ") + Closing
  }

  /** `buildFixtureExtensionSourceCode(for:)`: the property lists, then the
      text appended piece by piece. */
  method BuildFixtureExtensionSourceCode(fs: FixturableStruct) returns (sourceCode: string)
    ensures sourceCode == FixtureExtension(fs)
  {
    var parameters := Parameters(fs);
    var assignments := Assignments(fs);
    sourceCode := AssembleExtension(fs.name, parameters, assignments);
  }

  /** The appending steps for a struct name and its two joined lists. */
  method AssembleExtension(structName: string, parameters: string, assignments: string)
    returns (sourceCode: string)
    ensures sourceCode == Opening(structName) + OnOwnLines(parameters, "\n    ") + Middle
                          + OnOwnLines(assignments, "\n        ") + Closing
  {
    sourceCode := "extension " + structName + " {\n";
    sourceCode := sourceCode + "    static func fixture(";
    assert sourceCode == Opening(structName);
    sourceCode := AppendOnOwnLines(sourceCode, parameters, "\n    ");

    ghost var head := sourceCode;
    sourceCode := sourceCode + ") -> Self {\n";
    sourceCode := sourceCode + "        .init(";
    assert sourceCode == head + Middle;
    sourceCode := AppendOnOwnLines(sourceCode, assignments, "\n        ");

    ghost var tail := sourceCode;
    sourceCode := sourceCode + ")\n";
    sourceCode := sourceCode + "    }\n";
    sourceCode := sourceCode + "}\n";
    assert sourceCode == tail + Closing;
  }

  /** A non-empty list goes on its own lines, after a line break and before
      `close`, the line break and indentation of the closing parenthesis. */
  method AppendOnOwnLines(sourceCode: string, list: string, close: string) returns (r: string)
    ensures r == sourceCode + OnOwnLines(list, close)
  {
    r := sourceCode;
    if list != "" {
      r := r + "\n";
      r := r + list;
      r := r + close;
    }
  }

  /** A struct without eligible properties gets an empty factory, line by line:
      the header, `fixture() -> Self {`, `.init()` and the two closing braces. */
  lemma NoPropertiesFragment(fs: FixturableStruct)
    requires |Properties(fs.members)| == 0
    ensures FixtureExtension(fs)
         == "extension " + fs.name + " {\n"
            + "    static func fixture() -> Self {\n"
            + "        .init()\n"
            + "    }\n"
            + "}\n"
  {
    ListsEmptyIff(fs);
    assert OnOwnLines(Parameters(fs), "\n    ") == "";
    assert OnOwnLines(Assignments(fs), "\n        ") == "";
    assert "    static func fixture(" + ") -> Self {\n" == "    static func fixture() -> Self {\n";
    assert "        .init(" + ")\n" == "        .init()\n";
    assert FixtureExtension(fs)
        == "extension " + fs.name + " {\n"
           + ("    static func fixture(" + ") -> Self {\n")
           + ("        .init(" + ")\n")
           + "    }\n"
           + "}\n";
  }

  /** A struct with eligible properties gets both lists on their own lines. */
  lemma PropertiesFragment(fs: FixturableStruct)
    requires |Properties(fs.members)| > 0
    ensures FixtureExtension(fs)
         == Opening(fs.name) + ("\n" + Parameters(fs) + "\n    ") + Middle
            + ("\n" + Assignments(fs) + "\n        ") + Closing
  {
    ListsEmptyIff(fs);
    assert OnOwnLines(Parameters(fs), "\n    ") == "\n" + Parameters(fs) + "\n    ";
    assert OnOwnLines(Assignments(fs), "\n        ") == "\n" + Assignments(fs) + "\n        ";
  }

  /** Parameter and argument lines match the properties one to one and in
      order; a parameter takes the override value verbatim when there is one
      and the type's default otherwise, and its type text is the same either way. */
  lemma LinesMatchProperties(fs: FixturableStruct, i: nat)
    requires i < |Properties(fs.members)|
    ensures var p := Properties(fs.members)[i];
      var parameters := ParameterLines(Properties(fs.members), fs.overrideSettings);
      var arguments := ArgumentLines(Properties(fs.members));
      && |parameters| == |arguments| == |Properties(fs.members)|
      && arguments[i] == "            " + p.name + ": " + p.name
      && (p.name in fs.overrideSettings ==>
            parameters[i] == "        " + p.name + ": " + TypeDescription(p.propertyType) + " = " + fs.overrideSettings[p.name])
      && (p.name !in fs.overrideSettings ==>
            parameters[i] == "        " + p.name + ": " + TypeDescription(p.propertyType) + " = " + DefaultValue(p.propertyType, p.name))
  {
  }

  /** The fragment does not depend on the namespace the visitor recorded: the
      extension names the struct by its bare name. */
  lemma NamespaceIgnored(fs: FixturableStruct, namespace: Option<string>)
    ensures FixtureExtension(fs.(namespace := namespace)) == FixtureExtension(fs)
  {
  }

  /** With eligible properties, the fragment opens with the header on the bare
      struct name up to `fixture(`; then, on their own lines, come exactly the
      parameter lines joined by `,\n`, and then the line break and indentation
      before `) -> Self {`. */
  lemma ParameterListPlacement(fs: FixturableStruct)
    requires |Properties(fs.members)| > 0
    ensures var r := FixtureExtension(fs);
      var a := |Opening(fs.name)| + 1;
      var b := a + |Parameters(fs)|;
      var after := "\n    " + Middle;
      && b + |after| <= |r|
      && r[..a] == Opening(fs.name) + "\n"
      && r[a..b] == Join(ParameterLines(Properties(fs.members), fs.overrideSettings), ",\n")
      && r[b..b + |after|] == after
  {
    var head, list, after := Opening(fs.name) + "\n", Parameters(fs), "\n    " + Middle;
    var rest := "\n" + Assignments(fs) + "\n        " + Closing;
    PropertiesFragment(fs);
    Regroup(Opening(fs.name), "\n", list, "\n    ", Middle, "\n", Assignments(fs), "\n        ", Closing);
    ThreePartsThenRest(head, list, after, rest);
  }

  lemma Regroup(o: string, n1: string, p: string, n2: string, m: string,
                n3: string, a: string, n4: string, c: string)
    ensures o + (n1 + p + n2) + m + (n3 + a + n4) + c == (o + n1) + p + (n2 + m) + (n3 + a + n4 + c)
  {
  }

  lemma ThreePartsThenRest(head: string, list: string, after: string, rest: string)
    ensures var r := head + list + after + rest;
      && r[..|head|] == head
      && r[|head|..|head| + |list|] == list
      && r[|head| + |list|..|head| + |list| + |after|] == after
  {
    var r := head + list + after + rest;
    assert r[..|head|] == head;
    assert r[|head|..|head| + |list|] == list;
    assert r[|head| + |list|..|head| + |list| + |after|] == after;
  }
}
