# Swifixture in Dafny

Swifixture is a command-line generator. It reads Swift source files, finds every
`struct` declaration marked by a `/// @fixturable` (or `/// @fixtureable`) doc
comment, and writes one Swift file. For each marked struct, that file holds an
`extension` with a static `fixture(...)` factory. The factory has one parameter
per stored property, and each parameter's default is computed from the
property's type or taken from an `(override: key = value, ...)` clause in the
marker comment.

This project models that pipeline, from parsed syntax trees to the text of the
output file, and proves properties of the model. It has these parts:

- **Marker recognition** (`marker.dfy`). The marker pattern
  `^///\s?(?:@fixturable|@fixtureable)\s?(\(.*?\))?$` is written as a recogniser.
  It is proved equivalent to the pattern read as a grammar. The struct's first
  marker comment among its leading doc line comments is then chosen.
- **Override parsing** (`backtrack.dfy`, `overrides.dfy`). The clause pattern
  and the pair pattern are leftmost-first backtracking recognisers. Candidate
  ends are listed in the order the regex engine tries them, and the first
  success is taken. The settings dictionary is filled pair by pair, so a later
  key overwrites an earlier one.
- **What the override parser finds** (`override_parsing.dfy`,
  `clause_parsing.dfy`). A clause written `(override: k1 = v1, k2 = v2)` is
  matched whole, its pairs are found in order with their keys and values as
  written, and a marker comment ending in it has exactly those settings.
- **The visitor** (`visitor.dfy`). `FixturableStructVisitor` is a class whose
  `fixturableStructs` field is only ever appended to. Other parts of the
  visitor:
  - the upward `while` loop that builds the namespace string;
  - a pre-order walk that always descends into children;
  - `Collect`, a specification of the whole walk.
- **Type defaults and type text** (`defaults.dfy`):
  - `defaultValue(for:name:)` and its identifier lookup table;
  - `typeDescription(for:)`;
  - `attachEscapingAttribute(for:)`.
- **The fragment** (`fragment.dfy`). This covers the member filter, the
  parameter and argument lines, and `buildFixtureExtensionSourceCode(for:)`.
  The fragment is built by appending pieces, as the source does, and that method
  is proved against the function `FixtureExtension`.
- **The pipeline** (`pipeline.dfy`, `order.dfy`):
  - the steps that collect, render, sort and join;
  - `buildBody(fixtureString:)`;
  - `run()`, which takes parsed files as its input.

  The sort is an insertion sort, proved sorted and a permutation. Its output
  depends only on the multiset of fragments.
- **Test vectors** (`vectors.dfy`). Concrete cases taken from
  `Tests/SwifixtureTests/Resources/Source.swift` and `Expected.swift`.

### Where the code departs from its expected output and its names

The code is compared here with the test resource `Expected.swift` and with
what its own names announce (`namespace`, `attachEscapingAttribute`). The
model follows the code in all three cases. Only the first makes the
code's output differ from `Expected.swift`, which has no parameter for the
computed property. `Expected.swift:56` itself shows the doubled `@escaping`,
and the test resources have no nested struct.

- **Computed properties are kept.** The member filter
  (`Sources/Swifixture/Swifixture.swift:99-104`) never looks at an accessor
  block. So `var computedProperty: String { ... }` (`Source.swift:73-75`) gets
  a parameter, although `Expected.swift` has none for it. This is
  `Fragment.ComputedPropertyKept`.
- **`@escaping` can appear twice.** The raw-`@escaping` test compares the
  attribute's `description`, trivia included
  (`Sources/Swifixture/Swifixture.swift:155`). An `@escaping ` written before
  the function type therefore fails the test, and a second `@escaping` is added.
  `Expected.swift:56` shows that doubled text. This is
  `Defaults.EscapingWithTriviaIsDoubled`.
- **The namespace is not used.** The visitor computes and stores a namespace,
  but the fragment names the struct by its bare name
  (`Sources/Swifixture/Swifixture.swift:95`). This is
  `Fragment.NamespaceIgnored`.

### Behaviour the code does not have

The following behaviour might be expected of the tool, but the code does not
provide it, and the model follows the code:

- **Only the comment block directly above the struct.** The visitor examines
  every doc line comment in the struct's leading trivia, wherever it stands.
- **Computed properties excluded.** See above.
- **No duplicated `@escaping`.** See above.
- **Qualified extension names.** See above.
- **A set type of its own.** `Set<String>` is an identifier type named `Set`,
  whose default comes from the table (`[]`). Only arrays and dictionaries have
  literal nodes of their own.

## Model

| member | source | states |
|---|---|---|
| Text.JoinEmptyIff | Sources/Swifixture/Swifixture.swift:122 | a `joined(separator:)` of non-empty parts is empty exactly when there are no parts |
| Text.DecimalString | Sources/Swifixture/Swifixture.swift:185 | the printed index is a non-empty run of decimal digits that denotes the index, without a leading zero |
| Backtrack.RunEnd | Sources/Swifixture/FixturableStructVisitor.swift:11-12 | the longest run of a character class: every character before the end is in the class, the one at the end is not |
| Backtrack.Countdown | Sources/Swifixture/FixturableStructVisitor.swift:11-12 | exactly the positions between the bounds, longest first |
| Backtrack.GreedyLongestFirst | Sources/Swifixture/FixturableStructVisitor.swift:11-12 | a greedy quantifier offers every end from the end of the longest run down to `min` repetitions, longest first, and no other |
| Backtrack.GreedyRuns | Sources/Swifixture/FixturableStructVisitor.swift:11-12 | every end a greedy quantifier offers is preceded only by characters of the class |
| Backtrack.FirstOfWitness | Sources/Swifixture/FixturableStructVisitor.swift:11-12 | a success of `FirstOf`, the search over candidates in order, is the outcome of one of the candidates |
| Backtrack.FirstOfIsFirst | Sources/Swifixture/FixturableStructVisitor.swift:11-12 | the search fails exactly when every candidate fails, and otherwise yields the first candidate that succeeds |
| Marker.MarkerForms | Sources/Swifixture/FixturableStructVisitor.swift:7 | both spellings, after `///` with or without one space, with or without one space after, followed by nothing or one parenthesised group, are markers |
| Marker.ShapeAccepted | Sources/Swifixture/FixturableStructVisitor.swift:7 | each string of the pattern's shape (`///`, at most one whitespace, keyword, at most one whitespace, optional group to the end) is accepted |
| Marker.AcceptedHasShape | Sources/Swifixture/FixturableStructVisitor.swift:7 | everything accepted splits into the pattern's parts |
| Marker.MarkerRecognised | Sources/Swifixture/FixturableStructVisitor.swift:7 | the recogniser `IsMarkerComment`, the `contains(fixturableRegex)` test, accepts a comment if and only if the marker pattern matches it |
| Marker.FirstMarkerCommentIsFirst | Sources/Swifixture/FixturableStructVisitor.swift:17-25 | `FirstMarkerComment` gives no comment exactly when no doc line comment is a marker; otherwise the text of the first doc line comment that is one |
| Overrides.SettingsThenClose | Sources/Swifixture/FixturableStructVisitor.swift:11 | a successful `(?:...)*\)` ends past its start, within the text, just after a `)` |
| Overrides.OverrideClauseAt | Sources/Swifixture/FixturableStructVisitor.swift:11 | a clause match begins with `(override:` and ends past its start, just after a `)` |
| Overrides.PairClose | Sources/Swifixture/FixturableStructVisitor.swift:12 | the match captures exactly the key and value slices it was given and ends after a `)` or `,` |
| Overrides.PairValue | Sources/Swifixture/FixturableStructVisitor.swift:12 | a match after `=` keeps its key and captures a non-empty value of `[\(\)\.\w\s]` characters |
| Overrides.PairAfterEquals | Sources/Swifixture/FixturableStructVisitor.swift:12 | the same after the whitespace following `=` |
| Overrides.PairAfterKey | Sources/Swifixture/FixturableStructVisitor.swift:12 | the same after the key and the whitespace before `=` |
| Overrides.PairFromKey | Sources/Swifixture/FixturableStructVisitor.swift:12 | a match from a key captures a word key and a value of the value class |
| Overrides.PairAt | Sources/Swifixture/FixturableStructVisitor.swift:12 | a pair match at a position has both captures of the right shape and ends past that position |
| Overrides.PairMatchesCaptures | Sources/Swifixture/FixturableStructVisitor.swift:30 | every pair that `matches(of:)` yields has a word key and a value-class value |
| Overrides.ClausePairsCaptures | Sources/Swifixture/FixturableStructVisitor.swift:29-30 | so does every pair of every clause |
| Overrides.ExtractOverrideSettings | Sources/Swifixture/FixturableStructVisitor.swift:28-35 | the nested loops build exactly the dictionary of the pairs of all clauses, assigned in order |
| Overrides.AssignPairs | Sources/Swifixture/FixturableStructVisitor.swift:30-34 | assigning pairs one by one to the dictionary of earlier pairs gives the dictionary of all pairs |
| Overrides.PairsToMapKeys | Sources/Swifixture/FixturableStructVisitor.swift:32 | a key is set exactly when some pair carries it |
| Overrides.PairsToMapLastWins | Sources/Swifixture/FixturableStructVisitor.swift:32 | a repeated key keeps the value of its last pair |
| Overrides.PairsToMapEntry | Sources/Swifixture/FixturableStructVisitor.swift:32 | every dictionary entry is one of the pairs |
| Overrides.OverrideSettingsShape | Sources/Swifixture/FixturableStructVisitor.swift:11-12 | every override key is a word, and every value is a non-empty run of value characters with no comma |
| Overrides.NoOpeningNoClauses | Sources/Swifixture/FixturableStructVisitor.swift:29 | without `(override:` there is no clause match |
| Overrides.NoClauseNoSettings | Sources/Swifixture/FixturableStructVisitor.swift:28-35 | a marker without an override clause gives an empty dictionary |
| OverrideParsing.EntryFound | Sources/Swifixture/FixturableStructVisitor.swift:12 | a written `key = value` followed by `,` or a final `)` is matched at its position, capturing exactly that key and that value, and the match ends just after the `,` or `)` |
| OverrideParsing.PairsFound | Sources/Swifixture/FixturableStructVisitor.swift:30 | `PairMatches`, the pairs `matches(of:)` yields from the start of written settings, are exactly those settings in order |
| OverrideParsing.ClausePairsFound | Sources/Swifixture/FixturableStructVisitor.swift:30 | the pairs found in a written clause `(override: k1 = v1, ...)` are its settings in order; nothing is found inside `(override:` |
| ClauseParsing.ClauseMatchesWhole | Sources/Swifixture/FixturableStructVisitor.swift:11 | a written clause running to the end of the text is matched from its opening to that end, the greedy star taking every setting before the `)` |
| ClauseParsing.NoClauseBefore | Sources/Swifixture/FixturableStructVisitor.swift:29 | no clause match starts where no `(` stands |
| ClauseParsing.OnlyClauseAt | Sources/Swifixture/FixturableStructVisitor.swift:29 | when the first `(` opens a clause match that runs to the end, `OverrideClauses` yields that one clause |
| ClauseParsing.WrittenClauseFound | Sources/Swifixture/FixturableStructVisitor.swift:29 | the clause matches of a comment ending in a written clause, with no `(` before it, are that clause alone |
| ClauseParsing.WrittenClauseSettings | Sources/Swifixture/FixturableStructVisitor.swift:28-35 | `OverrideSettings` of such a comment, built by `ClausePairs` and `PairsToMap`, maps each written key to its written value, a later key winning |
| ClauseParsing.SingleSetting | Sources/Swifixture/FixturableStructVisitor.swift:28-35 | `/// @fixturable(override: key = value)` gives exactly the dictionary `[key: value]` |
| Visitor.EnclosingStructNames | Sources/Swifixture/FixturableStructVisitor.swift:40-45 | at most one name per ancestor |
| Visitor.NamespaceOf | Sources/Swifixture/FixturableStructVisitor.swift:37-47 | the upward loop yields nil without an enclosing struct, else the enclosing struct names outermost first, each followed by `.` |
| Visitor.NamespaceNilIff | Sources/Swifixture/FixturableStructVisitor.swift:38-47 | the namespace is nil if and only if no ancestor is a struct |
| Visitor.NamespaceSkipsOthers | Sources/Swifixture/FixturableStructVisitor.swift:40-43 | an ancestor that is not a struct contributes nothing |
| Visitor.ChildRecords | Sources/Swifixture/FixturableStructVisitor.swift:52 | one record list per child |
| Visitor.FixturableStructVisitor.constructor | Sources/Swifixture/FixturableStructVisitor.swift:14 | a new visitor has no records |
| Visitor.FixturableStructVisitor.Visit | Sources/Swifixture/FixturableStructVisitor.swift:16-53 | the visit appends this struct's record when it is marked, leaves earlier records unchanged, and asks for the children |
| Visitor.FixturableStructVisitor.Walk | Sources/Swifixture/FixturableStructVisitor.swift:52 | a walk appends exactly the records of the subtree in visit order |
| Visitor.FixturableStructVisitor.WalkChildren | Sources/Swifixture/FixturableStructVisitor.swift:52 | the children are walked in order, each with the node added to the ancestors |
| Visitor.MarkedDescendantFound | Sources/Swifixture/FixturableStructVisitor.swift:52 | the record of every marked struct in the tree is collected, however deep it is and whether or not its enclosing structs are marked |
| Visitor.CollectedFromMarked | Sources/Swifixture/FixturableStructVisitor.swift:27-52 | every record of `Collect`, the whole walk, is the record `RecordsFor` gives some marked struct the walk reaches: nothing is invented |
| Visitor.RecordIffMarked | Sources/Swifixture/FixturableStructVisitor.swift:27-49 | by `RecordsFor`, a struct appends one record exactly when one of its doc line comments is a marker, and never more than one |
| Defaults.IdentifierDefault | Sources/Swifixture/Swifixture.swift:215-268 | an entry exists exactly for the 24 names of the table, and it is never empty |
| Defaults.IdentifierDefaultHint | Sources/Swifixture/Swifixture.swift:215-268 | only `Character`, `Error` and `String` depend on the name hint |
| Defaults.CharacterDefault | Sources/Swifixture/Swifixture.swift:223-224 | `Character` gives the hint's first character quoted, or `"a"` for an empty hint |
| Defaults.ClosureParameters | Sources/Swifixture/Swifixture.swift:192-195 | the ` _, _ in` part is empty exactly when the closure has no parameters |
| Defaults.DefaultValue | Sources/Swifixture/Swifixture.swift:169-213 | a default is never empty |
| Defaults.TupleEntries | Sources/Swifixture/Swifixture.swift:178-187 | one entry per tuple element |
| Defaults.DefaultLooksThrough | Sources/Swifixture/Swifixture.swift:172-206 | any stack of `!` and attribute layers leaves the default unchanged |
| Defaults.HintIndependence | Sources/Swifixture/Swifixture.swift:169-268 | the default is the same for all hints if and only if, under the transparent layers, the type is not `Character`, `Error` or `String` |
| Defaults.OptionalDefaultsToNil | Sources/Swifixture/Swifixture.swift:170-171 | an optional under any transparent layers defaults to `nil` |
| Defaults.ClosureDefaultShape | Sources/Swifixture/Swifixture.swift:189-204 | a closure default opens with `{`, closes with `}`, and has an `in` part exactly when there are parameters |
| Defaults.TupleDefaultShape | Sources/Swifixture/Swifixture.swift:178-188 | a tuple default is the joined entries in parentheses, one entry per element |
| Defaults.TypeDescription | Sources/Swifixture/Swifixture.swift:148-163 | every type other than a closure that gets marked keeps its text |
| Defaults.ClosureTypesEscape | Sources/Swifixture/Swifixture.swift:148-167 | every closure property's type text contains `@escaping`: it is added, or it was there already |
| Defaults.SingleAttributeClosureText | Sources/Swifixture/Swifixture.swift:153-159 | a closure with one attribute whose raw text is not `@escaping` is written as the trimmed attribute, then ` @escaping ` and the function text |
| Defaults.EscapingWithTriviaIsDoubled | Sources/Swifixture/Swifixture.swift:155 | an `@escaping` attribute that carries trivia gets a second `@escaping` |
| Fragment.EligibleProperty | Sources/Swifixture/Swifixture.swift:98-109 | a property exactly for a variable whose first binding is an identifier with a type annotation and no initializer, and it takes that name and type |
| Fragment.PropertiesAppend | Sources/Swifixture/Swifixture.swift:96-109 | the filter works member by member, keeping declaration order |
| Fragment.PropertiesFromEligible | Sources/Swifixture/Swifixture.swift:96-109 | a property is in `Properties`, the filtered list, exactly when an eligible member gives it |
| Fragment.InitializedMemberSkipped | Sources/Swifixture/Swifixture.swift:104 | a member with an initializer gives no parameter |
| Fragment.ComputedPropertyKept | Sources/Swifixture/Swifixture.swift:99-104 | a computed property with a type annotation passes the filter |
| Fragment.ParameterLine | Sources/Swifixture/Swifixture.swift:115-121 | a parameter line is indented by eight spaces |
| Fragment.ArgumentLine | Sources/Swifixture/Swifixture.swift:133 | an argument line is indented by twelve spaces |
| Fragment.ListsEmptyIff | Sources/Swifixture/Swifixture.swift:123-139 | each joined list is empty exactly when there is no eligible property |
| Fragment.BuildFixtureExtensionSourceCode | Sources/Swifixture/Swifixture.swift:94-146 | the text appended is exactly `FixtureExtension` of the struct, whose lines `LinesMatchProperties` pins down |
| Fragment.AssembleExtension | Sources/Swifixture/Swifixture.swift:111-143 | the appends give the header, the parameter list, the `.init(` call with the argument list, and the closing braces |
| Fragment.AppendOnOwnLines | Sources/Swifixture/Swifixture.swift:123-127 | a non-empty list is appended on its own lines, an empty one not at all |
| Fragment.NoPropertiesFragment | Sources/Swifixture/Swifixture.swift:111-143 | without eligible properties the fragment is `fixture() -> Self {`, `.init()` and the closing braces |
| Fragment.LinesMatchProperties | Sources/Swifixture/Swifixture.swift:114-134 | parameter and argument lines match the properties one to one; an override value is used verbatim, and the computed default otherwise |
| Fragment.NamespaceIgnored | Sources/Swifixture/Swifixture.swift:95 | the fragment does not depend on the recorded namespace |
| Fragment.ParameterListPlacement | Sources/Swifixture/Swifixture.swift:111-128 | with eligible properties the fragment opens with `extension <bare name> {` up to `fixture(`, then a line break, exactly the parameter lines joined by `,\n`, and a line break and indentation before `) -> Self {` |
| Order.LessEqReflexive | Sources/Swifixture/Swifixture.swift:42 | the string order is reflexive |
| Order.LessEqTotal | Sources/Swifixture/Swifixture.swift:42 | the string order is total |
| Order.LessEqAntisymmetric | Sources/Swifixture/Swifixture.swift:42 | the string order is antisymmetric |
| Order.LessEqTransitive | Sources/Swifixture/Swifixture.swift:42 | the string order is transitive |
| Order.Insert | Sources/Swifixture/Swifixture.swift:42 | inserting into a sorted list keeps it sorted and adds exactly that element |
| Order.Sort | Sources/Swifixture/Swifixture.swift:42 | `sorted()` is sorted and a permutation of its input |
| Order.SortedUnique | Sources/Swifixture/Swifixture.swift:42 | two sorted permutations of each other are equal |
| Order.SortPermutationInvariant | Sources/Swifixture/Swifixture.swift:42 | sorting gives the same list for every order of the input |
| Pipeline.RetrieveFixturableStructs | Sources/Swifixture/Swifixture.swift:88-92 | a fresh visitor's walk returns the records of the whole file |
| Pipeline.RenderAll | Sources/Swifixture/Swifixture.swift:41 | rendering each struct in turn gives the fragments in order |
| Pipeline.FixtureStringOrderIrrelevant | Sources/Swifixture/Swifixture.swift:42-43 | `FixtureString`, the fragments sorted and joined by a blank line, is the same for every order of the fragments |
| Pipeline.ConcatenatedPermutation | Sources/Swifixture/Swifixture.swift:40 | reordering the files only reorders the parts they give |
| Pipeline.FileOrderIrrelevant | Sources/Swifixture/Swifixture.swift:37-41 | any reordering of the source files gives the same fragments |
| Pipeline.BuildBody | Sources/Swifixture/Swifixture.swift:270-289 | the body is the header, one import line per module, the optional testable import, two line breaks and the fixture string |
| Pipeline.ImportLinesAppend | Sources/Swifixture/Swifixture.swift:280 | the import lines of two lists are those of the first, then those of the second |
| Pipeline.BodyRecoversFixtures | Sources/Swifixture/Swifixture.swift:270-289 | the fixture string is everything after a prefix that depends on the imports only |
| Pipeline.Run | Sources/Swifixture/Swifixture.swift:33-45 | the output is the body built around the sorted, joined fragments of all files |
| Pipeline.RunOrderIrrelevant | Sources/Swifixture/Swifixture.swift:37-45 | the output is the same for every order of the source files |
| Vectors.CharacterVector | Tests/SwifixtureTests/Resources/Expected.swift:20 | `character: Character` defaults to `"c"` |
| Vectors.ImplicitlyUnwrappedVector | Tests/SwifixtureTests/Resources/Expected.swift:40 | `String!` defaults like `String` |
| Vectors.GenericIdentifierVectors | Tests/SwifixtureTests/Resources/Expected.swift:30-44 | `Array<String>` and `Dictionary<String, Any>` fall back to `.fixture()`, while `Set<String>` gives `[]` |
| Vectors.UnlabelledTupleVector | Tests/SwifixtureTests/Resources/Expected.swift:47 | `(String, Int)` defaults to `("0", 0)` |
| Vectors.LabelledTupleVector | Tests/SwifixtureTests/Resources/Expected.swift:49 | `(name: String, age: Int)` defaults to `(name: "name", age: 0)` |
| Vectors.ClosureVectors | Tests/SwifixtureTests/Resources/Expected.swift:51-53 | `() -> Void` gives `{ }`, and `(Int) -> String` gives `{ _ in "" }` |
| Vectors.BareClosureTypeVector | Tests/SwifixtureTests/Resources/Expected.swift:51 | `() -> Void` is written `@escaping () -> Void` |
| Vectors.AutoclosureTypeVector | Tests/SwifixtureTests/Resources/Expected.swift:55 | `@autoclosure () -> Void` is written `@autoclosure @escaping () -> Void` |
| Vectors.EscapingTypeVector | Tests/SwifixtureTests/Resources/Expected.swift:56 | `@escaping () -> Void` is written `@escaping @escaping () -> Void` |
| Vectors.EscapingOptionalVector | Tests/SwifixtureTests/Resources/Expected.swift:57 | `@escaping (() -> Void)?` keeps its text and defaults to `nil` |
| Vectors.FilterVectors | Tests/SwifixtureTests/Resources/Source.swift:72-75 | the initialized constant gives no parameter, and the computed property gives one |
| Vectors.CustomStructVector | Tests/SwifixtureTests/Resources/Expected.swift:8-12 | `CustomStruct` gets the empty factory |
| Vectors.AcceptedMarkerVector | Tests/SwifixtureTests/Resources/Source.swift:84 | `/// @fixturable` is a marker |
| Vectors.OtherSpellingVector | Sources/Swifixture/FixturableStructVisitor.swift:7 | `/// @fixtureable` is a marker |
| Vectors.ClauseMarkerVector | Sources/Swifixture/FixturableStructVisitor.swift:7 | `///@fixturable(override: id = 1)` is a marker |
| Vectors.ExampleMarkerVector | Example/Example/ContentView.swift:49 | `/// @fixturable(override: role = .user)` is a marker |
| Vectors.ProseVector | Sources/Swifixture/FixturableStructVisitor.swift:7 | `/// Use @fixturable` is not a marker |
| Vectors.TwoSpacesVector | Sources/Swifixture/FixturableStructVisitor.swift:7 | two spaces after `///` are not allowed |
| Vectors.NamespaceVector | Sources/Swifixture/FixturableStructVisitor.swift:37-47 | a struct inside `Inner`, inside an enum, inside `Outer`, has namespace `Outer.Inner.` |
| Vectors.SourceCommentClause | Tests/SwifixtureTests/Resources/Source.swift:19 | the marker comment of `VariousPropertiesStruct` is the marker followed by the written clause of its two settings |
| Vectors.SourceCommentIsMarker | Tests/SwifixtureTests/Resources/Source.swift:19 | that comment is a marker |
| Vectors.SourceCommentSettings | Tests/SwifixtureTests/Resources/Source.swift:19 | parsing that comment gives `customEnumWithOverride` the value `.a` and `customEnumWithOverride2` the value `.b`, and nothing else |
| Vectors.OverrideLineVector | Tests/SwifixtureTests/Resources/Expected.swift:58 | `customEnumWithOverride` takes the value `.a` that the parsed marker comment of `Source.swift:19` gives it |
| Vectors.SecondOverrideLineVector | Tests/SwifixtureTests/Resources/Expected.swift:59 | `customEnumWithOverride2` takes the value `.b` from the same parsed comment |
| Vectors.DefaultLineVector | Tests/SwifixtureTests/Resources/Expected.swift:60 | `otherFixturableStruct: CustomStruct` has no override and defaults to `.fixture()` |

## Left out

- Command-line options, file discovery, reading and writing files
  (`Sources/Swifixture/Swifixture.swift:8-31, 50-86, 291-299`). These are
  ArgumentParser and FileManager I/O. `Pipeline.Run` takes the parsed files and
  the option values as parameters and returns the text it would write.
- Parsing. `Parser.parse` and the SwiftSyntax tree are replaced by the `Syntax`
  datatypes. The trivia of a tuple label's token is not modelled either.
- The `SyntaxVisitor` base class. Its walk is modelled by `Walk`, which calls
  `Visit` on struct declarations only and descends into nested declarations.
- The general regex engine. Only the three fixed patterns are modelled. `\w`
  is modelled as ASCII letters, digits and `_`, which is narrower than Unicode
  word characters. `\s` is modelled as the Unicode White_Space characters, and
  `.` as any character except Swift's newline characters.
- Characters are Unicode scalars. There are no grapheme clusters, so
  `Character`'s `name.first` is the hint's first scalar.
- String comparison. `sorted()` is modelled as lexicographic order on scalars.
  Swift compares strings under Unicode canonical equivalence, which this model
  does not capture.
- The `pair.count >= 3` guard (`FixturableStructVisitor.swift:31`). It always
  holds, because both capture groups of the pair pattern are mandatory, so the
  model has no such branch.
- WrittenClauseSettings: completeness of the override parser is proved for
  clauses in the written layout only. That layout is `(override:`, then for
  each setting one space, the key, ` = ` and the value, with settings separated
  by `,`, then `)` at the end of the comment, with no `(` before the clause.
  Other spacing, several clauses in one comment and text after the clause are
  covered by the soundness lemmas alone (`OverrideSettingsShape`,
  `PairsToMapEntry`), not by a lemma saying which settings are found.
- ClausePairsFound: settings whose value starts with whitespace are not
  covered. The `\s*` after `=` takes that whitespace, so the captured value
  is not the written one.
- `Pipeline.Run` and `Pipeline.RenderAll` use `for` loops. The source uses
  `flatMap` and `map`, but here they map a method over a list, and a method
  cannot be called inside an expression.
- The example app (`Example/Example/ContentView.swift`) is used only as
  evidence of marker syntax. The package manifests contain no logic.
