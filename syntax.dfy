/** The parts of a Swift syntax tree that the generator looks at. Every type
    node carries `text`, its raw source text with surrounding trivia, because
    the generator re-emits `type.description` verbatim. */
module Syntax {
  import opened Wrappers

  /** One attribute of an attributed type, such as `@escaping`, with the trivia
      around its token kept apart from its trimmed text. */
  datatype Attribute = Attribute(leadingTrivia: string, trimmed: string, trailingTrivia: string)
  {
    /** The attribute's `description`: its text with its trivia. */
    function Description(): string { leadingTrivia + trimmed + trailingTrivia }
  }

  datatype TupleTypeElement = TupleTypeElement(firstName: Option<string>, elementType: TypeSyntax)

  /** A type annotation, one case per syntax node kind the generator tells apart. */
  datatype TypeSyntax =
    | OptionalType(wrappedType: TypeSyntax, text: string)
    | ImplicitlyUnwrappedOptionalType(wrappedType: TypeSyntax, text: string)
    | ArrayType(element: TypeSyntax, text: string)
    | DictionaryType(key: TypeSyntax, value: TypeSyntax, text: string)
    | TupleType(elements: seq<TupleTypeElement>, text: string)
    | FunctionType(parameters: seq<TypeSyntax>, returnType: TypeSyntax, text: string)
    | AttributedType(attributes: seq<Attribute>, baseType: TypeSyntax, text: string)
    | IdentifierType(name: string, text: string)
    | OtherType(text: string)

  datatype Pattern = IdentifierPattern(identifier: string) | OtherPattern

  /** One `name: Type = value` binding of a variable declaration; an accessor
      block `{ ... }` makes the variable a computed property. */
  datatype PatternBinding = PatternBinding(
    pattern: Pattern,
    typeAnnotation: Option<TypeSyntax>,
    initializer: Option<string>,
    accessorBlock: Option<string>)

  /** An item of a struct's member block. */
  datatype Member = VariableDecl(bindings: seq<PatternBinding>) | OtherMember

  /** A piece of a declaration's leading trivia; only `///` line comments matter. */
  datatype TriviaPiece = DocLineComment(comment: string) | OtherPiece(text: string)

  datatype DeclKind = StructDecl(name: string) | OtherDecl

  /** A declaration node: a struct or any other node, with its leading trivia,
      its member list and the declaration nodes nested in it. */
  datatype Node = Node(kind: DeclKind, leadingTrivia: seq<TriviaPiece>, members: seq<Member>, children: seq<Node>)

  /** A struct found by the visitor: the struct's name and members, the override
      settings of its marker comment and the qualifier of its enclosing structs. */
  datatype FixturableStruct = FixturableStruct(
    name: string,
    members: seq<Member>,
    overrideSettings: map<string, string>,
    namespace: Option<string>)
}
