/** FixturableStructVisitor: visits every struct declaration of a syntax tree
    and records, for each one marked by a `///` marker comment, its override
    settings and the qualifier of its enclosing structs. */
module Visitor {
  import opened Wrappers
  import opened Syntax
  import opened Marker
  import opened Overrides

  /** What a visit tells the walk to do next. */
  datatype ContinueKind = VisitChildren | SkipChildren

  // ---------------------------------------------------------------- namespace

  /** The names of the struct declarations among `ancestors`, outermost first. */
  function EnclosingStructNames(ancestors: seq<Node>): (r: seq<string>)
    ensures |r| <= |ancestors|
  {
    if |ancestors| == 0 then []
    else
      (if ancestors[0].kind.StructDecl? then [ancestors[0].kind.name] else [])
      + EnclosingStructNames(ancestors[1..])
  }

  /** Each name followed by a dot: `A.B.` for `[A, B]`. */
  function Qualifier(names: seq<string>): string
  {
    if |names| == 0 then "" else names[0] + "." + Qualifier(names[1..])
  }

  /** The namespace of a struct nested in `ancestors` (outermost first): nil
      without an enclosing struct, else every enclosing struct's name, outermost
      first, each followed by a dot. */
  function Namespace(ancestors: seq<Node>): Option<string>
  {
    var names := EnclosingStructNames(ancestors);
    if |names| == 0 then None else Some(Qualifier(names))
  }

  /** The visitor's upward walk: from the innermost ancestor to the root, each
      struct prepends `name.` to the namespace built so far; other nodes are
      passed over. */
  method NamespaceOf(ancestors: seq<Node>) returns (namespace: Option<string>)
    ensures namespace == Namespace(ancestors)
  {
    namespace := None;
    var i := |ancestors|;
    while i > 0
      invariant 0 <= i <= |ancestors|
      invariant namespace == Namespace(ancestors[i..])
    {
      var parent := ancestors[i - 1];
      ghost var inner := EnclosingStructNames(ancestors[i..]);
      assert ancestors[i - 1..][1..] == ancestors[i..];
      assert namespace.GetOr("") == Qualifier(inner);
      if parent.kind.StructDecl? {
        assert EnclosingStructNames(ancestors[i - 1..]) == [parent.kind.name] + inner;
        assert ([parent.kind.name] + inner)[1..] == inner;
        assert Qualifier([parent.kind.name] + inner) == parent.kind.name + "." + Qualifier(inner);
        namespace := Some(parent.kind.name + "." + namespace.GetOr(""));
      } else {
        assert EnclosingStructNames(ancestors[i - 1..]) == inner;
      }
      i := i - 1;
    }
    assert ancestors[0..] == ancestors;
  }

  // ---------------------------------------------------------------- records

  /** What visiting `node` appends: one record for a marked struct, nothing otherwise. */
  function RecordsFor(node: Node, ancestors: seq<Node>): seq<FixturableStruct>
  {
    if !node.kind.StructDecl? then []
    else match FirstMarkerComment(node.leadingTrivia)
      case None => []
      case Some(comment) =>
        [FixturableStruct(node.kind.name, node.members, OverrideSettings(comment), Namespace(ancestors))]
  }

  function Flatten(parts: seq<seq<FixturableStruct>>): seq<FixturableStruct>
  {
    if |parts| == 0 then [] else Flatten(parts[..|parts| - 1]) + parts[|parts| - 1]
  }

  /** The records of a whole walk of `node`, in visit order: the node itself,
      then each child's subtree with `node` added to the ancestors. */
  function Collect(node: Node, ancestors: seq<Node>): seq<FixturableStruct>
    decreases node
  {
    RecordsFor(node, ancestors) + Flatten(ChildRecords(node, ancestors))
  }

  function ChildRecords(node: Node, ancestors: seq<Node>): (r: seq<seq<FixturableStruct>>)
    ensures |r| == |node.children|
    decreases node, 0
  {
    seq(|node.children|, i requires 0 <= i < |node.children| =>
      Collect(node.children[i], ancestors + [node]))
  }

  lemma FlattenSnoc(parts: seq<seq<FixturableStruct>>, i: nat)
    requires i < |parts|
    ensures Flatten(parts[..i + 1]) == Flatten(parts[..i]) + parts[i]
  {
    assert parts[..i + 1][..i] == parts[..i];
  }

  lemma NoRecordsOutsideStructs(node: Node, ancestors: seq<Node>)
    requires !node.kind.StructDecl?
    ensures RecordsFor(node, ancestors) == []
  {
  }

  /** Appending a node's own records and then its children's gives its `Collect`. */
  lemma WalkStep(start: seq<FixturableStruct>, visited: seq<FixturableStruct>, final: seq<FixturableStruct>,
                 node: Node, ancestors: seq<Node>)
    requires visited == start + RecordsFor(node, ancestors)
    requires final == visited + Flatten(ChildRecords(node, ancestors))
    ensures final == start + Collect(node, ancestors)
  {
    CollectSplits(node, ancestors);
  }

  lemma CollectSplits(node: Node, ancestors: seq<Node>)
    ensures Collect(node, ancestors) == RecordsFor(node, ancestors) + Flatten(ChildRecords(node, ancestors))
  {
  }

  // ---------------------------------------------------------------- the visitor

  class FixturableStructVisitor {
    /** The records found so far, in visit order; the walk only appends. */
    var fixturableStructs: seq<FixturableStruct>

    constructor ()
      ensures fixturableStructs == []
    {
      fixturableStructs := [];
    }

    /** `visit(_: StructDeclSyntax)`: appends the record of a marked struct and
        always asks for the children to be visited. */
    method Visit(node: Node, ancestors: seq<Node>) returns (kind: ContinueKind)
      requires node.kind.StructDecl?
      modifies this
      ensures kind == VisitChildren
      ensures fixturableStructs == old(fixturableStructs) + RecordsFor(node, ancestors)
    {
      var docComment := FirstMarkerComment(node.leadingTrivia);
      if docComment.Some? {
        var overrideSettings := ExtractOverrideSettings(docComment.value);
        var namespace := NamespaceOf(ancestors);
        fixturableStructs := fixturableStructs
          + [FixturableStruct(node.kind.name, node.members, overrideSettings, namespace)];
      }
      kind := VisitChildren;
    }

    /** `walk(_:)`: a pre-order walk calling `Visit` on every struct declaration
        and descending into the children when the visit asks for it. */
    method Walk(node: Node, ancestors: seq<Node>)
      modifies this
      ensures fixturableStructs == old(fixturableStructs) + Collect(node, ancestors)
      decreases node, 1
    {
      ghost var start := fixturableStructs;
      var kind := Dispatch(node, ancestors);
      ghost var visited := fixturableStructs;
      if kind == VisitChildren {
        WalkChildren(node, ancestors);
      }
      WalkStep(start, visited, fixturableStructs, node, ancestors);
    }

    /** The visit of one node: `Visit` for a struct declaration, and for any
        other node no change and a request to visit the children. */
    method Dispatch(node: Node, ancestors: seq<Node>) returns (kind: ContinueKind)
      modifies this
      ensures kind == VisitChildren
      ensures fixturableStructs == old(fixturableStructs) + RecordsFor(node, ancestors)
    {
      if node.kind.StructDecl? {
        kind := Visit(node, ancestors);
      } else {
        NoRecordsOutsideStructs(node, ancestors);
        kind := VisitChildren;
      }
    }

    /** The walk of each child in turn, with `node` added to the ancestors. */
    method WalkChildren(node: Node, ancestors: seq<Node>)
      modifies this
      ensures fixturableStructs == old(fixturableStructs) + Flatten(ChildRecords(node, ancestors))
      decreases node, 0
    {
      ghost var children := ChildRecords(node, ancestors);
      ghost var start := fixturableStructs;
      for i := 0 to |node.children|
        invariant fixturableStructs == start + Flatten(children[..i])
      {
        ghost var before := fixturableStructs;
        Walk(node.children[i], ancestors + [node]);
        assert fixturableStructs == before + children[i];
        FlattenSnoc(children, i);
        assert start + Flatten(children[..i]) + children[i] == start + Flatten(children[..i + 1]);
      }
      assert children[..|node.children|] == children;
    }
  }

  // ---------------------------------------------------------------- properties

  /** The namespace is nil exactly when no ancestor is a struct. */
  lemma {:induction false} NamespaceNilIff(ancestors: seq<Node>)
    ensures Namespace(ancestors).None? <==> forall i :: 0 <= i < |ancestors| ==> !ancestors[i].kind.StructDecl?
  {
    if |ancestors| > 0 {
      NamespaceNilIff(ancestors[1..]);
      assert forall i :: 1 <= i < |ancestors| ==> ancestors[i] == ancestors[1..][i - 1];
    }
  }

  /** Ancestors that are not structs do not contribute to the namespace. */
  lemma {:induction false} NamespaceSkipsOthers(outer: seq<Node>, other: Node, inner: seq<Node>)
    requires !other.kind.StructDecl?
    ensures EnclosingStructNames(outer + [other] + inner) == EnclosingStructNames(outer + inner)
  {
    if |outer| == 0 {
      assert outer + [other] + inner == [other] + inner;
      assert outer + inner == inner;
      assert ([other] + inner)[1..] == inner;
    } else {
      assert (outer + [other] + inner)[1..] == outer[1..] + [other] + inner;
      assert (outer + inner)[1..] == outer[1..] + inner;
      NamespaceSkipsOthers(outer[1..], other, inner);
    }
  }

  /** `target`, reached under `targetAncestors`, lies in the tree walked from `root`. */
  ghost predicate Reaches(root: Node, ancestors: seq<Node>, target: Node, targetAncestors: seq<Node>)
    decreases root
  {
    || (root == target && ancestors == targetAncestors)
    || exists i :: 0 <= i < |root.children|
                   && Reaches(root.children[i], ancestors + [root], target, targetAncestors)
  }

  lemma {:induction false} FlattenContains(parts: seq<seq<FixturableStruct>>, i: nat, r: FixturableStruct)
    requires i < |parts| && r in parts[i]
    ensures r in Flatten(parts)
  {
    if i < |parts| - 1 {
      FlattenContains(parts[..|parts| - 1], i, r);
    }
  }

  /** The walk reaches every marked struct of the tree, however deeply it is
      nested and whether or not its enclosing structs are marked. */
  lemma {:induction false} MarkedDescendantFound(root: Node, ancestors: seq<Node>, target: Node, targetAncestors: seq<Node>, r: FixturableStruct)
    requires Reaches(root, ancestors, target, targetAncestors)
    requires r in RecordsFor(target, targetAncestors)
    ensures r in Collect(root, ancestors)
    decreases root
  {
    if !(root == target && ancestors == targetAncestors) {
      var i :| 0 <= i < |root.children| && Reaches(root.children[i], ancestors + [root], target, targetAncestors);
      MarkedDescendantFound(root.children[i], ancestors + [root], target, targetAncestors, r);
      FlattenContains(ChildRecords(root, ancestors), i, r);
    }
  }

  lemma {:induction false} FlattenMember(parts: seq<seq<FixturableStruct>>, r: FixturableStruct)
    requires r in Flatten(parts)
    ensures exists i :: 0 <= i < |parts| && r in parts[i]
  {
    var last := |parts| - 1;
    if r !in parts[last] {
      FlattenMember(parts[..last], r);
      var i :| 0 <= i < last && r in parts[..last][i];
      assert r in parts[i];
    }
  }

  /** Every record of the walk is the record of some marked struct in the tree:
      the walk invents nothing. */
  lemma {:induction false} CollectedFromMarked(root: Node, ancestors: seq<Node>, r: FixturableStruct)
    requires r in Collect(root, ancestors)
    ensures exists target, targetAncestors :: Reaches(root, ancestors, target, targetAncestors)
                                              && r in RecordsFor(target, targetAncestors)
    decreases root
  {
    if r !in RecordsFor(root, ancestors) {
      var parts := ChildRecords(root, ancestors);
      FlattenMember(parts, r);
      var i :| 0 <= i < |parts| && r in parts[i];
      CollectedFromMarked(root.children[i], ancestors + [root], r);
      var target, targetAncestors :| Reaches(root.children[i], ancestors + [root], target, targetAncestors)
                                     && r in RecordsFor(target, targetAncestors);
      assert Reaches(root, ancestors, target, targetAncestors);
    } else {
      assert Reaches(root, ancestors, root, ancestors);
    }
  }

  /** A struct appends a record exactly when one of its doc line comments is a marker. */
  lemma RecordIffMarked(node: Node, ancestors: seq<Node>)
    requires node.kind.StructDecl?
    ensures |RecordsFor(node, ancestors)| == 1 <==> exists i :: 0 <= i < |node.leadingTrivia| && IsMarkerPiece(node.leadingTrivia[i])
    ensures |RecordsFor(node, ancestors)| <= 1
  {
    FirstMarkerCommentIsFirst(node.leadingTrivia);
  }
}
