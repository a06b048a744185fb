/** The generator's pipeline from parsed source files to the text of the output
    file: collect the fixturable structs of every file, render a fragment for
    each, sort and join the fragments, and put the file header in front. */
module Pipeline {
  import opened Wrappers
  import opened Text
  import opened Syntax
  import opened Order
  import opened Visitor
  import opened Fragment

  // ---------------------------------------------------------------- collecting and rendering

  /** `retrieveFixturableStructs(from:)`: a fresh visitor walks the file. */
  method RetrieveFixturableStructs(sourceFile: Node) returns (structs: seq<FixturableStruct>)
    ensures structs == Collect(sourceFile, [])
  {
    var visitor := new FixturableStructVisitor();
    visitor.Walk(sourceFile, []);
    structs := visitor.fixturableStructs;
  }

  /** The fragments of a list of structs, in the same order. */
  function Rendered(structs: seq<FixturableStruct>): seq<string>
  {
    if |structs| == 0 then []
    else Rendered(structs[..|structs| - 1]) + [FixtureExtension(structs[|structs| - 1])]
  }

  /** `flatMap`: the parts `f` gives for each element, in element order. */
  function Concatenated<T>(xs: seq<T>, f: T -> seq<string>): seq<string>
  {
    if |xs| == 0 then [] else Concatenated(xs[..|xs| - 1], f) + f(xs[|xs| - 1])
  }

  /** The fragments of the fixturable structs of one file, in visit order. */
  function FileFragments(sourceFile: Node): seq<string>
  {
    Rendered(Collect(sourceFile, []))
  }

  /** The fragments of every struct of every file, files in the given order. */
  function AllFragments(sourceFiles: seq<Node>): seq<string>
  {
    Concatenated(sourceFiles, FileFragments)
  }

  lemma RenderedSnoc(structs: seq<FixturableStruct>, j: nat)
    requires j < |structs|
    ensures Rendered(structs[..j + 1]) == Rendered(structs[..j]) + [FixtureExtension(structs[j])]
  {
    assert structs[..j + 1][..j] == structs[..j];
  }

  /** `.map(buildFixtureExtensionSourceCode)` over the structs of one file. */
  method RenderAll(structs: seq<FixturableStruct>) returns (fragments: seq<string>)
    ensures fragments == Rendered(structs)
  {
    fragments := [];
    for j := 0 to |structs|
      invariant fragments == Rendered(structs[..j])
    {
      var fragment := BuildFixtureExtensionSourceCode(structs[j]);
      RenderedSnoc(structs, j);
      fragments := fragments + [fragment];
    }
    assert structs[..|structs|] == structs;
  }

  // ---------------------------------------------------------------- the fixture string

  /** `.sorted().joined(separator: "\n\n")`. */
  function FixtureString(fragments: seq<string>): string
  {
    Join(Sort(fragments), "\n\n")
  }

  /** The fixture string is the same for every order of the fragments. */
  lemma FixtureStringOrderIrrelevant(p: seq<string>, q: seq<string>)
    requires multiset(p) == multiset(q)
    ensures FixtureString(p) == FixtureString(q)
  {
    SortPermutationInvariant(p, q);
  }

  lemma {:induction false} ConcatenatedAppend<T>(u: seq<T>, v: seq<T>, f: T -> seq<string>)
    ensures Concatenated(u + v, f) == Concatenated(u, f) + Concatenated(v, f)
    decreases |v|
  {
    if |v| == 0 {
      assert u + v == u;
    } else {
      var n := |v| - 1;
      assert (u + v)[..|u + v| - 1] == u + v[..n];
      assert (u + v)[|u + v| - 1] == v[n];
      ConcatenatedAppend(u, v[..n], f);
    }
  }

  /** Taking one element out takes its parts out, wherever it stands. */
  lemma {:induction false} ConcatenatedRemove<T>(b: seq<T>, j: nat, f: T -> seq<string>)
    requires j < |b|
    ensures multiset(Concatenated(b, f))
         == multiset(Concatenated(b[..j] + b[j + 1..], f)) + multiset(f(b[j]))
  {
    var x, u, v := b[j], b[..j], b[j + 1..];
    assert b == (u + [x]) + v;
    ConcatenatedAppend(u + [x], v, f);
    ConcatenatedAppend(u, [x], f);
    assert [x][..0] == [];
    var front, parts, back := Concatenated(u, f), f(x), Concatenated(v, f);
    assert Concatenated(b, f) == front + parts + back;
    ConcatenatedAppend(u, v, f);
    assert Concatenated(u + v, f) == front + back;
    assert multiset(front + parts + back) == multiset(front) + multiset(parts) + multiset(back);
  }

  /** Reordering the elements reorders the parts and nothing else. */
  lemma {:induction false} ConcatenatedPermutation<T>(a: seq<T>, b: seq<T>, f: T -> seq<string>)
    requires multiset(a) == multiset(b)
    ensures multiset(Concatenated(a, f)) == multiset(Concatenated(b, f))
    decreases |a|
  {
    if |a| == 0 {
      assert |multiset(b)| == 0;
      assert b == [];
    } else {
      var n := |a| - 1;
      var x := a[n];
      assert a == a[..n] + [x];
      assert x in multiset(b);
      var j :| 0 <= j < |b| && b[j] == x;
      assert b == b[..j] + [x] + b[j + 1..];
      assert multiset(a[..n]) == multiset(a) - multiset{x};
      assert multiset(b[..j] + b[j + 1..]) == multiset(b) - multiset{x};
      ConcatenatedPermutation(a[..n], b[..j] + b[j + 1..], f);
      ConcatenatedRemove(b, j, f);
    }
  }

  /** Which files the structs come from matters, the order the files are
      listed in does not: any reordering yields the same fragments. */
  lemma FileOrderIrrelevant(a: seq<Node>, b: seq<Node>)
    requires multiset(a) == multiset(b)
    ensures multiset(AllFragments(a)) == multiset(AllFragments(b))
  {
    ConcatenatedPermutation(a, b, FileFragments);
  }

  // ---------------------------------------------------------------- the output file

  /** The header every output file starts with. */
  const Preamble: string := "///\n" + "///  @Generated by Swifixture\n" + "///\n" + "\n" + "import Foundation\n"

  /** One `import` line per additional module, in the given order. */
  function ImportLines(imports: seq<string>): string
  {
    if |imports| == 0 then ""
    else ImportLines(imports[..|imports| - 1]) + "import " + imports[|imports| - 1] + "\n"
  }

  /** The `@testable import` line, set off by a blank line, when a module is given. */
  function TestableLine(testableImport: Option<string>): string
  {
    match testableImport
    case None => ""
    case Some(moduleName) => "\n@testable import " + moduleName + "\n"
  }

  /** What comes before the fixtures: it depends on the imports only. */
  function BodyPrefix(additionalImports: seq<string>, testableImport: Option<string>): string
  {
    Preamble + ImportLines(additionalImports) + TestableLine(testableImport) + "\n\n"
  }

  /** The output file: the header, the import lines, the optional testable
      import, two line breaks and the fixture string. */
  function BodyText(fixtureString: string, additionalImports: seq<string>, testableImport: Option<string>): string
  {
    Preamble + ImportLines(additionalImports) + TestableLine(testableImport) + "\n\n" + fixtureString
  }

  /** `buildBody(fixtureString:)` with the command's options as parameters. */
  method BuildBody(fixtureString: string, additionalImports: seq<string>, testableImport: Option<string>)
    returns (body: string)
    ensures body == BodyText(fixtureString, additionalImports, testableImport)
  {
    body := "///\n" + "///  @Generated by Swifixture\n" + "///\n" + "\n" + "import Foundation\n";
    for i := 0 to |additionalImports|
      invariant body == Preamble + ImportLines(additionalImports[..i])
    {
      assert additionalImports[..i + 1][..i] == additionalImports[..i];
      body := body + "import " + additionalImports[i] + "\n";
    }
    assert additionalImports[..|additionalImports|] == additionalImports;
    if testableImport.Some? {
      body := body + "\n@testable import " + testableImport.value + "\n";
    }
    body := body + "\n\n" + fixtureString;
  }

  /** The import lines of two lists are those of the first, then those of the second. */
  lemma {:induction false} ImportLinesAppend(a: seq<string>, b: seq<string>)
    ensures ImportLines(a + b) == ImportLines(a) + ImportLines(b)
    decreases |b|
  {
    if |b| == 0 {
      assert a + b == a;
    } else {
      var n := |b| - 1;
      assert (a + b)[..|a + b| - 1] == a + b[..n];
      assert (a + b)[|a + b| - 1] == b[n];
      ImportLinesAppend(a, b[..n]);
    }
  }

  /** The fixture string can be read back from the output file: it is
      everything after the prefix, and the prefix does not depend on it. */
  lemma BodyRecoversFixtures(fixtureString: string, additionalImports: seq<string>, testableImport: Option<string>)
    ensures var body := BodyText(fixtureString, additionalImports, testableImport);
      var prefix := BodyPrefix(additionalImports, testableImport);
      && |prefix| <= |body| && body[..|prefix|] == prefix && body[|prefix|..] == fixtureString
  {
    var body := BodyText(fixtureString, additionalImports, testableImport);
    var prefix := BodyPrefix(additionalImports, testableImport);
    assert body == prefix + fixtureString;
  }

  // ---------------------------------------------------------------- run

  /** `run()` from parsed source files to the output text. */
  method Run(sourceFiles: seq<Node>, additionalImports: seq<string>, testableImport: Option<string>)
    returns (body: string)
    ensures body == BodyText(FixtureString(AllFragments(sourceFiles)), additionalImports, testableImport)
  {
    var fragments: seq<string> := [];
    for i := 0 to |sourceFiles|
      invariant fragments == AllFragments(sourceFiles[..i])
    {
      var structs := RetrieveFixturableStructs(sourceFiles[i]);
      var rendered := RenderAll(structs);
      assert sourceFiles[..i + 1][..i] == sourceFiles[..i];
      assert rendered == FileFragments(sourceFiles[i]);
      fragments := fragments + rendered;
    }
    assert sourceFiles[..|sourceFiles|] == sourceFiles;
    var fixtureString := Join(Sort(fragments), "\n\n");
    body := BuildBody(fixtureString, additionalImports, testableImport);
  }

  /** The output file is the same for every order of the source files. */
  lemma RunOrderIrrelevant(a: seq<Node>, b: seq<Node>, additionalImports: seq<string>, testableImport: Option<string>)
    requires multiset(a) == multiset(b)
    ensures BodyText(FixtureString(AllFragments(a)), additionalImports, testableImport)
         == BodyText(FixtureString(AllFragments(b)), additionalImports, testableImport)
  {
    FileOrderIrrelevant(a, b);
    FixtureStringOrderIrrelevant(AllFragments(a), AllFragments(b));
  }
}
