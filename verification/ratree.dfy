/** The intermediate tree of the translator (class `Tree` of sql2ra.py).

    Python builds it from `Tree` objects linked by `left`, `right` and `parent`
    and keeps the current root in a global. Here the nodes live in an arena: a
    node is addressed by its index, its links are indices, and the class `Tree`
    holds the arena together with the root index (the global `ra_tree`). The
    insertion and fold operations are methods of the class that update the
    arena in place; each is proved against a specification function on arena
    values defined in this module. */
module RaTree {
  import opened Wrappers
  import opened RaAst

  /** The node type tags (`tree_types_dict`). */
  datatype Kind = Relation | Selection | Projection | CrossKind

  /** What a node's `root` field holds: an algebra expression, an attribute
      name, a list of attribute references, or the cross-product marker "X". */
  datatype Payload = Ra(e: Expr) | Name(s: string) | Names(attrs: seq<Expr>) | CrossMark

  datatype TreeNode = TreeNode(
    payload: Payload,
    kind: Kind,
    left: Option<nat>,
    right: Option<nat>,
    parent: Option<nat>)

  /** An arena of nodes and the index of the current root (None: no tree yet). */
  datatype Arena = Arena(nodes: seq<TreeNode>, root: Option<nat>)

  /** What the fold returns: a node's payload, Python's implicit None when a
      configuration falls through every branch, or an error. */
  datatype FoldResult = Done(value: Payload) | NoneReturned | Failed(err: Error)

  // ---------------------------------------------------------------------------
  // Well-formedness

  ghost predicate LinksInRange(nodes: seq<TreeNode>, i: nat)
    requires i < |nodes|
  {
    (nodes[i].left.Some? ==> nodes[i].left.value < |nodes|) &&
    (nodes[i].right.Some? ==> nodes[i].right.value < |nodes|) &&
    (nodes[i].parent.Some? ==> nodes[i].parent.value < |nodes|)
  }

  /** `d` gives every node its distance to the top: one more than its parent's.
      Following `parent` links therefore always ends. */
  ghost predicate Acyclic(nodes: seq<TreeNode>, d: seq<nat>) {
    |d| == |nodes| &&
    forall i :: 0 <= i < |nodes| ==>
      LinksInRange(nodes, i) &&
      (nodes[i].parent.Some? ==> d[i] == d[nodes[i].parent.value] + 1)
  }

  /** A node's `left` child was created before it. */
  ghost predicate LeftOrdered(nodes: seq<TreeNode>) {
    forall i :: 0 <= i < |nodes| && nodes[i].left.Some? ==> nodes[i].left.value < i
  }

  ghost predicate WellFormed(nodes: seq<TreeNode>, root: Option<nat>, d: seq<nat>) {
    Acyclic(nodes, d) && LeftOrdered(nodes) &&
    (root.None? <==> nodes == []) &&
    (root.Some? ==> root.value < |nodes| && nodes[root.value].parent.None? && d[root.value] == 0)
  }

  /** Two arenas with the same nodes except possibly for payloads and kinds. */
  ghost predicate SameLinks(a: seq<TreeNode>, b: seq<TreeNode>) {
    |a| == |b| &&
    forall i :: 0 <= i < |a| ==>
      a[i].left == b[i].left && a[i].right == b[i].right && a[i].parent == b[i].parent
  }

  lemma SameLinksAcyclic(a: seq<TreeNode>, b: seq<TreeNode>, d: seq<nat>)
    requires Acyclic(a, d) && SameLinks(a, b)
    ensures Acyclic(b, d)
  {
    forall i | 0 <= i < |b|
      ensures LinksInRange(b, i) && (b[i].parent.Some? ==> d[i] == d[b[i].parent.value] + 1)
    {
      assert LinksInRange(a, i);
    }
  }

  lemma SameLinksWellFormed(a: seq<TreeNode>, b: seq<TreeNode>, root: Option<nat>, d: seq<nat>)
    requires WellFormed(a, root, d) && SameLinks(a, b)
    ensures WellFormed(b, root, d)
  {
    SameLinksAcyclic(a, b, d);
    forall i | 0 <= i < |b| && b[i].left.Some? ensures b[i].left.value < i {
      assert a[i].left == b[i].left;
    }
  }

  /** Overwrite a node's payload and kind in place. */
  function SetCell(nodes: seq<TreeNode>, i: nat, p: Payload, k: Kind): (r: seq<TreeNode>)
    requires i < |nodes|
    ensures SameLinks(nodes, r)
    ensures r[i].payload == p && r[i].kind == k
    ensures forall j :: 0 <= j < |nodes| && j != i ==> r[j] == nodes[j]
  {
    nodes[i := nodes[i].(payload := p, kind := k)]
  }

  /** Overwrite a node's payload in place. */
  function SetPayload(nodes: seq<TreeNode>, i: nat, p: Payload): (r: seq<TreeNode>)
    requires i < |nodes|
    ensures SameLinks(nodes, r)
    ensures r[i].payload == p && r[i].kind == nodes[i].kind
    ensures forall j :: 0 <= j < |nodes| && j != i ==> r[j] == nodes[j]
  {
    nodes[i := nodes[i].(payload := p)]
  }

  // ---------------------------------------------------------------------------
  // Insertion, on arena values

  /** The tree holding one relation node (sql2ra.py:170). */
  function Plant(p: Payload): (r: Arena)
    ensures |r.nodes| == 1 && r.root == Some(0)
    ensures r.nodes[0] == TreeNode(p, Relation, None, None, None)
  {
    Arena([TreeNode(p, Relation, None, None, None)], Some(0))
  }

  /** A new node of kind k wraps the root and becomes the root. */
  function Wrap(a: Arena, p: Payload, k: Kind): (r: Arena)
    requires a.root.Some? && a.root.value < |a.nodes|
    ensures |r.nodes| == |a.nodes| + 1 && r.root == Some(|a.nodes|)
    ensures r.nodes[|a.nodes|] == TreeNode(p, k, a.root, None, None)
    ensures r.nodes[a.root.value] == a.nodes[a.root.value].(parent := Some(|a.nodes|))
    ensures forall i :: 0 <= i < |a.nodes| && i != a.root.value ==> r.nodes[i] == a.nodes[i]
  {
    var r, n := a.root.value, |a.nodes|;
    Arena(a.nodes[r := a.nodes[r].(parent := Some(n))] + [TreeNode(p, k, Some(r), None, None)], Some(n))
  }

  /** A new cross node pairs the root (left) with a new relation node (right). */
  function Cartesian(a: Arena, p: Payload): (r: Arena)
    requires a.root.Some? && a.root.value < |a.nodes|
    ensures |r.nodes| == |a.nodes| + 2 && r.root == Some(|a.nodes| + 1)
    ensures r.nodes[|a.nodes| + 1] == TreeNode(CrossMark, CrossKind, a.root, Some(|a.nodes|), None)
    ensures r.nodes[|a.nodes|] == TreeNode(p, Relation, None, None, Some(|a.nodes| + 1))
    ensures r.nodes[a.root.value] == a.nodes[a.root.value].(parent := Some(|a.nodes| + 1))
    ensures forall i :: 0 <= i < |a.nodes| && i != a.root.value ==> r.nodes[i] == a.nodes[i]
  {
    var r, n := a.root.value, |a.nodes|;
    Arena(a.nodes[r := a.nodes[r].(parent := Some(n + 1))] +
          [TreeNode(p, Relation, None, None, Some(n + 1)), TreeNode(CrossMark, CrossKind, Some(r), Some(n), None)],
          Some(n + 1))
  }

  /** A new relation node fills the empty right slot of the root cross node. */
  function FillRight(a: Arena, p: Payload): (r: Arena)
    requires a.root.Some? && a.root.value < |a.nodes|
    ensures |r.nodes| == |a.nodes| + 1 && r.root == a.root
    ensures r.nodes[|a.nodes|] == TreeNode(p, Relation, None, None, a.root)
    ensures r.nodes[a.root.value] == a.nodes[a.root.value].(right := Some(|a.nodes|))
    ensures forall i :: 0 <= i < |a.nodes| && i != a.root.value ==> r.nodes[i] == a.nodes[i]
  {
    var r, n := a.root.value, |a.nodes|;
    Arena(a.nodes[r := a.nodes[r].(right := Some(n))] + [TreeNode(p, Relation, None, None, Some(r))], a.root)
  }

  function InsertRelationSpec(a: Arena, p: Payload): (r: Arena)
    requires a.root.Some? && a.root.value < |a.nodes|
    ensures r.root.Some? && r.root.value < |r.nodes|
  {
    var top := a.nodes[a.root.value];
    if top.kind == Relation then Cartesian(a, p)
    else if top.kind == CrossKind then (if top.right.None? then FillRight(a, p) else Cartesian(a, p))
    else a
  }

  function InsertSpec(a: Arena, p: Payload, k: Kind): (r: Arena)
    requires a.root.Some? && a.root.value < |a.nodes|
    ensures r.root.Some? && r.root.value < |r.nodes|
  {
    if k == Relation then InsertRelationSpec(a, p) else Wrap(a, p, k)
  }

  /** Distances after the whole tree moves one level down. */
  function Deeper(d: seq<nat>): (r: seq<nat>)
    ensures |r| == |d|
    ensures forall i :: 0 <= i < |d| ==> r[i] == d[i] + 1
  {
    if d == [] then [] else [d[0] + 1] + Deeper(d[1..])
  }

  // ---------------------------------------------------------------------------
  // Insertion keeps the arena well formed

  lemma PlantWellFormed(p: Payload)
    ensures WellFormed(Plant(p).nodes, Plant(p).root, [0])
  {
  }

  lemma WrapWellFormed(a: Arena, d: seq<nat>, p: Payload, k: Kind)
    requires WellFormed(a.nodes, a.root, d) && a.root.Some?
    ensures WellFormed(Wrap(a, p, k).nodes, Wrap(a, p, k).root, Deeper(d) + [0])
  {
    var b, d' := Wrap(a, p, k).nodes, Deeper(d) + [0];
    var r, n := a.root.value, |a.nodes|;
    forall i | 0 <= i < |b|
      ensures LinksInRange(b, i) && (b[i].parent.Some? ==> d'[i] == d'[b[i].parent.value] + 1)
    {
      if i < n { assert LinksInRange(a.nodes, i); }
    }
  }

  lemma CartesianWellFormed(a: Arena, d: seq<nat>, p: Payload)
    requires WellFormed(a.nodes, a.root, d) && a.root.Some?
    ensures WellFormed(Cartesian(a, p).nodes, Cartesian(a, p).root, Deeper(d) + [1, 0])
  {
    var b, d' := Cartesian(a, p).nodes, Deeper(d) + [1, 0];
    var r, n := a.root.value, |a.nodes|;
    forall i | 0 <= i < |b|
      ensures LinksInRange(b, i) && (b[i].parent.Some? ==> d'[i] == d'[b[i].parent.value] + 1)
    {
      if i < n { assert LinksInRange(a.nodes, i); }
    }
  }

  lemma FillRightWellFormed(a: Arena, d: seq<nat>, p: Payload)
    requires WellFormed(a.nodes, a.root, d) && a.root.Some?
    ensures WellFormed(FillRight(a, p).nodes, FillRight(a, p).root, d + [1])
  {
    var b, d' := FillRight(a, p).nodes, d + [1];
    var r, n := a.root.value, |a.nodes|;
    forall i | 0 <= i < |b|
      ensures LinksInRange(b, i) && (b[i].parent.Some? ==> d'[i] == d'[b[i].parent.value] + 1)
    {
      if i < n { assert LinksInRange(a.nodes, i); }
    }
  }
}
