/** Default argument values and parameter type texts of a generated fixture:
    `defaultValue(for:name:)` for a type and for an identifier type,
    `typeDescription(for:)` and `attachEscapingAttribute(for:)`. */
module Defaults {
  import opened Wrappers
  import opened Text
  import opened Syntax

  // ---------------------------------------------------------------- identifier table

  /** The identifier type names the lookup table knows. */
  const KnownIdentifiers: set<string> := {
    "Any", "AnyObject", "Bool", "Character", "Data", "Date", "Double", "Error", "Float",
    "Int", "Int8", "Int16", "Int32", "Int64", "Set", "String", "TimeInterval",
    "UInt", "UInt8", "UInt16", "UInt32", "UInt64", "URL", "UUID"
  }

  /** The identifier names whose default is built from the name hint. */
  const HintedIdentifiers: set<string> := {"Character", "Error", "String"}

  function Quoted(s: string): string { "\"" + s + "\"" }

  /** `defaultValue(for: IdentifierTypeSyntax, name:)`: the table entry for the
      type's name, or nil for a name the table does not know. */
  function IdentifierDefault(name: string, hint: string): (r: Option<string>)
    ensures r.Some? <==> name in KnownIdentifiers
    ensures r.Some? ==> |r.value| > 0
  {
    if name == "Any" then Some("0")
    else if name == "AnyObject" then Some("0 as AnyObject")
    else if name == "Bool" then Some("false")
    else if name == "Character" then Some(Quoted(if |hint| > 0 then [hint[0]] else "a"))
    else if name == "Data" then Some(".init()")
    else if name == "Date" then Some(".init()")
    else if name == "Double" then Some("0.0")
    else if name == "Error" then Some("NSError(domain: " + Quoted(hint) + ", code: 0, userInfo: [:])")
    else if name == "Float" then Some("0.0")
    else if name == "Int" then Some("0")
    else if name == "Int8" then Some("0")
    else if name == "Int16" then Some("0")
    else if name == "Int32" then Some("0")
    else if name == "Int64" then Some("0")
    else if name == "Set" then Some("[]")
    else if name == "String" then Some(Quoted(hint))
    else if name == "TimeInterval" then Some("0.0")
    else if name == "UInt" then Some("0")
    else if name == "UInt8" then Some("0")
    else if name == "UInt16" then Some("0")
    else if name == "UInt32" then Some("0")
    else if name == "UInt64" then Some("0")
    else if name == "URL" then Some(".init(string: \"http://localhost\")!")
    else if name == "UUID" then Some(".init()")
    else None
  }

  /** Only `Character`, `Error` and `String` look at the hint: every other entry
      is the same for all hints. */
  lemma IdentifierDefaultHint(name: string, hint1: string, hint2: string)
    requires name !in HintedIdentifiers
    ensures IdentifierDefault(name, hint1) == IdentifierDefault(name, hint2)
  {
  }

  /** `Character`: the hint's first character in quotes, `"a"` for an empty hint,
      so always a one-character literal. */
  lemma CharacterDefault(hint: string)
    ensures var r := IdentifierDefault("Character", hint).value;
      && |r| == 3 && r[0] == '"' && r[2] == '"'
      && r[1] == (if |hint| > 0 then hint[0] else 'a')
  {
  }

  // ---------------------------------------------------------------- default values

  /** The return type texts for which a closure default has an empty body. */
  const VoidTexts: set<string> := {"Void", "()"}

  function Underscores(n: nat): (r: seq<string>)
    ensures |r| == n
    ensures forall i :: 0 <= i < n ==> r[i] == "_"
  {
    seq(n, _ => "_")
  }

  /** The ` _, _ in` part of a closure default: one `_` per parameter, and
      nothing at all for a closure without parameters. */
  function ClosureParameters(n: nat): (r: string)
    ensures n == 0 <==> r == ""
  {
    var parameters := Join(Underscores(n), ", ");
    JoinEmptyIff(Underscores(n), ", ");
    if parameters != "" then " " + parameters + " in" else ""
  }

  /** `defaultValue(for:name:)`: a default-value expression for a property of
      type `t` named `hint`; never empty, because every branch ends in a literal,
      a table entry or a recursive call. */
  function DefaultValue(t: TypeSyntax, hint: string): (r: string)
    ensures |r| > 0
    decreases t
  {
    match t
    case OptionalType(_, _) => "nil"
    case ImplicitlyUnwrappedOptionalType(wrapped, _) => DefaultValue(wrapped, hint)
    case ArrayType(_, _) => "[]"
    case DictionaryType(_, _, _) => "[:]"
    case TupleType(elements, _) => "(" + Join(TupleEntries(t), ", ") + ")"
    case FunctionType(parameters, returnType, _) =>
      "{" + ClosureParameters(|parameters|)
      + (if returnType.text in VoidTexts then " }" else " " + DefaultValue(returnType, "") + " }")
    case AttributedType(_, baseType, _) => DefaultValue(baseType, hint)
    case IdentifierType(name, _) => IdentifierDefault(name, hint).GetOr(".fixture()")
    case OtherType(_) => ".fixture()"
  }

  /** The entries of a tuple default, one per element and in element order: a
      labelled element gives `label: <default with hint label>`, an unlabelled
      one the default with its position as the hint. */
  function TupleEntries(t: TypeSyntax): (r: seq<string>)
    requires t.TupleType?
    ensures |r| == |t.elements|
    decreases t, 1
  {
    seq(|t.elements|, i requires 0 <= i < |t.elements| => TupleEntry(t, i))
  }

  function TupleEntry(t: TypeSyntax, index: nat): string
    requires t.TupleType? && index < |t.elements|
    decreases t, 0
  {
    var element := t.elements[index];
    assert element in t.elements;
    match element.firstName
    case Some(argumentName) => argumentName + ": " + DefaultValue(element.elementType, argumentName)
    case None => DefaultValue(element.elementType, DecimalString(index))
  }

  /** The innermost type under implicitly-unwrapped-optional and attribute
      layers, which the default value looks through. */
  function Unwrapped(t: TypeSyntax): (r: TypeSyntax)
    ensures !r.ImplicitlyUnwrappedOptionalType? && !r.AttributedType?
  {
    match t
    case ImplicitlyUnwrappedOptionalType(wrapped, _) => Unwrapped(wrapped)
    case AttributedType(_, baseType, _) => Unwrapped(baseType)
    case _ => t
  }

  /** Any stack of `!` and attribute layers leaves the default unchanged. */
  lemma {:induction false} DefaultLooksThrough(t: TypeSyntax, hint: string)
    ensures DefaultValue(t, hint) == DefaultValue(Unwrapped(t), hint)
  {
    match t
    case ImplicitlyUnwrappedOptionalType(wrapped, _) => DefaultLooksThrough(wrapped, hint);
    case AttributedType(_, baseType, _) => DefaultLooksThrough(baseType, hint);
    case _ =>
  }

  /** A type whose default depends on the name hint: under the transparent
      layers, an identifier that the table fills from the hint. */
  predicate UsesHint(t: TypeSyntax)
  {
    var u := Unwrapped(t);
    u.IdentifierType? && u.name in HintedIdentifiers
  }

  /** The default is the same for every hint exactly when the type does not use
      the hint: tuples and closures choose their own hints for their parts. */
  lemma HintIndependence(t: TypeSyntax)
    ensures !UsesHint(t) <==> forall h1, h2 :: DefaultValue(t, h1) == DefaultValue(t, h2)
  {
    if UsesHint(t) {
      DefaultLooksThrough(t, "x");
      DefaultLooksThrough(t, "y");
      var u := Unwrapped(t);
      assert u.name == "Character" || u.name == "Error" || u.name == "String";
      if u.name == "Character" {
        assert DefaultValue(t, "x")[1] == 'x';
        assert DefaultValue(t, "y")[1] == 'y';
      } else if u.name == "Error" {
        assert DefaultValue(t, "x")[17] == 'x';
        assert DefaultValue(t, "y")[17] == 'y';
      } else {
        assert DefaultValue(t, "x")[1] == 'x';
        assert DefaultValue(t, "y")[1] == 'y';
      }
    } else {
      forall h1, h2 ensures DefaultValue(t, h1) == DefaultValue(t, h2) {
        DefaultLooksThrough(t, h1);
        DefaultLooksThrough(t, h2);
      }
    }
  }

  /** An optional under any transparent layers defaults to `nil`, whatever it wraps. */
  lemma OptionalDefaultsToNil(t: TypeSyntax, hint: string)
    requires Unwrapped(t).OptionalType?
    ensures DefaultValue(t, hint) == "nil"
  {
    DefaultLooksThrough(t, hint);
  }

  /** A closure default is a closure literal: it opens with `{`, closes with
      `}`, and has an `in` clause exactly when the closure has parameters. */
  lemma ClosureDefaultShape(t: TypeSyntax, hint: string)
    requires t.FunctionType?
    ensures var r := DefaultValue(t, hint);
      && r[0] == '{' && r[|r| - 1] == '}'
      && r[1..1 + |ClosureParameters(|t.parameters|)|] == ClosureParameters(|t.parameters|)
      && (|t.parameters| == 0 <==> ClosureParameters(|t.parameters|) == "")
  {
  }

  /** A tuple default is parenthesised, with one entry per element. */
  lemma TupleDefaultShape(t: TypeSyntax, hint: string)
    requires t.TupleType?
    ensures var r := DefaultValue(t, hint);
      && r[0] == '(' && r[|r| - 1] == ')'
      && r[1..|r| - 1] == Join(TupleEntries(t), ", ")
      && |TupleEntries(t)| == |t.elements|
  {
  }

  // ---------------------------------------------------------------- type text

  /** `attachEscapingAttribute(for:)`: the function type's text after `@escaping `. */
  function AttachEscapingAttribute(t: TypeSyntax): string
    requires t.FunctionType?
  {
    "@escaping " + t.text
  }

  /** Whether some attribute's raw text, trivia included, is exactly `@escaping`. */
  predicate HasRawEscaping(attributes: seq<Attribute>)
  {
    exists i :: 0 <= i < |attributes| && attributes[i].Description() == "@escaping"
  }

  function TrimmedTexts(attributes: seq<Attribute>): (r: seq<string>)
    ensures |r| == |attributes|
    ensures forall i :: 0 <= i < |attributes| ==> r[i] == attributes[i].trimmed
  {
    seq(|attributes|, i requires 0 <= i < |attributes| => attributes[i].trimmed)
  }

  /** Whether `t` is a closure type that `TypeDescription` marks as escaping. */
  predicate GetsEscaping(t: TypeSyntax)
  {
    || t.FunctionType?
    || (t.AttributedType? && t.baseType.FunctionType? && !HasRawEscaping(t.attributes))
  }

  /** `typeDescription(for:)`: the parameter type text. A bare function type
      gets `@escaping ` in front; an attributed function type whose attributes
      include no raw `@escaping` gets its trimmed attributes, then `@escaping `
      and the function type; every other type keeps its text. */
  function TypeDescription(t: TypeSyntax): (r: string)
    ensures !GetsEscaping(t) ==> r == t.text
  {
    if t.FunctionType? then AttachEscapingAttribute(t)
    else if t.AttributedType? && t.baseType.FunctionType? && !HasRawEscaping(t.attributes) then
      Join(TrimmedTexts(t.attributes), " ") + " " + AttachEscapingAttribute(t.baseType)
    else t.text
  }

  /** The raw texts of the attributes, one after the other. */
  function Concat(attributes: seq<Attribute>): string
  {
    if |attributes| == 0 then "" else Concat(attributes[..|attributes| - 1]) + attributes[|attributes| - 1].Description()
  }

  /** An attributed type's text is its attributes' raw texts followed by the
      base type's text. */
  predicate ConsistentText(t: TypeSyntax)
    requires t.AttributedType?
  {
    t.text == Concat(t.attributes) + t.baseType.text
  }

  /** `part` occurs in `s` starting at position `i`. */
  predicate OccursAt(s: string, part: string, i: nat)
  {
    i + |part| <= |s| && s[i..i + |part|] == part
  }

  ghost predicate Contains(s: string, part: string)
  {
    exists i :: OccursAt(s, part, i)
  }

  lemma {:induction false} ConcatContains(attributes: seq<Attribute>, i: nat)
    requires i < |attributes|
    ensures Contains(Concat(attributes), attributes[i].Description())
  {
    var n := |attributes| - 1;
    var front := Concat(attributes[..n]);
    assert Concat(attributes) == front + attributes[n].Description();
    if i == n {
      assert OccursAt(Concat(attributes), attributes[i].Description(), |front|);
    } else {
      ConcatContains(attributes[..n], i);
      var k: nat :| OccursAt(front, attributes[i].Description(), k);
      assert Concat(attributes)[k..k + |attributes[i].Description()|] == front[k..k + |attributes[i].Description()|];
      assert OccursAt(Concat(attributes), attributes[i].Description(), k);
    }
  }

  /** Every closure property's type text carries `@escaping`: added for a bare
      function type, added after the attributes when none is raw `@escaping`,
      and already present in the text otherwise. */
  lemma ClosureTypesEscape(t: TypeSyntax)
    requires t.FunctionType? || (t.AttributedType? && t.baseType.FunctionType? && ConsistentText(t))
    ensures Contains(TypeDescription(t), "@escaping")
  {
    var r := TypeDescription(t);
    if t.FunctionType? {
      assert OccursAt(r, "@escaping", 0);
    } else if !HasRawEscaping(t.attributes) {
      var front := Join(TrimmedTexts(t.attributes), " ") + " ";
      var attached := AttachEscapingAttribute(t.baseType);
      assert r == front + attached;
      assert r[|front|..|front| + 9] == attached[..9];
      assert OccursAt(r, "@escaping", |front|);
    } else {
      var i :| 0 <= i < |t.attributes| && t.attributes[i].Description() == "@escaping";
      ConcatContains(t.attributes, i);
      var k: nat :| OccursAt(Concat(t.attributes), "@escaping", k);
      assert r[k..k + 9] == Concat(t.attributes)[k..k + 9];
      assert OccursAt(r, "@escaping", k);
    }
  }

  /** A closure type with one attribute whose raw text is not exactly
      `@escaping` is written as the trimmed attribute, then `@escaping` and the
      function type's text. */
  lemma SingleAttributeClosureText(attribute: Attribute, base: TypeSyntax, text: string)
    requires attribute.Description() != "@escaping"
    requires base.FunctionType?
    ensures TypeDescription(AttributedType([attribute], base, text)) == attribute.trimmed + " @escaping " + base.text
  {
    var t := AttributedType([attribute], base, text);
    assert !HasRawEscaping(t.attributes);
    assert TrimmedTexts(t.attributes) == [attribute.trimmed];
    assert Join([attribute.trimmed], " ") == attribute.trimmed;
    assert TypeDescription(t) == attribute.trimmed + " " + ("@escaping " + base.text);
  }

  /** The raw-text comparison misses an `@escaping` attribute that carries
      trivia, such as the space before the function type, so such a type is
      marked a second time: `@escaping @escaping () -> Void`. */
  lemma EscapingWithTriviaIsDoubled(escaping: Attribute, base: TypeSyntax, text: string)
    requires escaping.trimmed == "@escaping" && escaping.Description() != "@escaping"
    requires base.FunctionType?
    ensures TypeDescription(AttributedType([escaping], base, text)) == "@escaping @escaping " + base.text
  {
    SingleAttributeClosureText(escaping, base, text);
    assert "@escaping" + " @escaping " == "@escaping @escaping ";
  }
}
