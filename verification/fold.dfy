/** The fold of the intermediate tree into one algebra expression
    (`create_ra_from_ra_tree` and its three `__create_*_parts` helpers), stated
    on arena values. Each function returns what the Python code returns and the
    arena as the code leaves it. The fold climbs from a node to its parent, so
    it ends because the distance to the top shrinks at every step; it
    overwrites payloads and kinds but never a link. */
module RaFold {
  import opened Wrappers
  import opened RaAst
  import opened RaTree

  /** A payload that is a string in Python: an attribute name, or the cross
      marker "X". */
  function AsName(p: Payload): (r: Option<string>)
    ensures r.Some? <==> p.Name? || p.CrossMark?
  {
    match p
    case Name(s) => Some(s)
    case CrossMark => Some("X")
    case _ => None
  }

  /** `create_ra_from_ra_tree(c)`: at the top, return the payload; otherwise
      dispatch on the node's kind (a cross node falls through to None). */
  ghost function Fold(n: seq<TreeNode>, d: seq<nat>, c: nat): (r: (FoldResult, seq<TreeNode>))
    requires Acyclic(n, d) && c < |n|
    ensures SameLinks(n, r.1)
    decreases d[c], 2
  {
    assert LinksInRange(n, c);
    match n[c].parent
    case None => (Done(n[c].payload), n)
    case Some(p) =>
      match n[c].kind
      case Relation => RelationParts(n, d, p, c)
      case Selection => SelectionParts(n, d, p, c)
      case Projection => ProjectionParts(n, d, p, c)
      case CrossKind => (NoneReturned, n)
  }

  /** The parent p of c becomes `Select(cond = p's payload, input = c's payload)`
      and the fold goes on from p. */
  ghost function SelectInto(n: seq<TreeNode>, d: seq<nat>, p: nat, c: nat): (r: (FoldResult, seq<TreeNode>))
    requires Acyclic(n, d) && c < |n| && n[c].parent == Some(p)
    ensures SameLinks(n, r.1)
    decreases d[c], 0
  {
    assert LinksInRange(n, c);
    var cond, input := n[p].payload, n[c].payload;
    if cond.Ra? && input.Ra? then
      var n2 := SetPayload(n, p, Ra(Select(cond.e, input.e)));
      SameLinksAcyclic(n, n2, d);
      Fold(n2, d, p)
    else (Failed(NotAnExpression), n)
  }

  /** `__create_relation_parts(p, c)` for a relation node c under p. */
  ghost function RelationParts(n: seq<TreeNode>, d: seq<nat>, p: nat, c: nat): (r: (FoldResult, seq<TreeNode>))
    requires Acyclic(n, d) && c < |n| && n[c].parent == Some(p)
    ensures SameLinks(n, r.1)
    decreases d[c], 1
  {
    assert LinksInRange(n, c) && LinksInRange(n, p);
    var pn := n[p];
    if pn.kind == CrossKind then
      // both operands of the cross are read through the parent's links
      if pn.left.None? || pn.right.None? then (Failed(AttributeError), n)
      else
        var l, rt := n[pn.left.value].payload, n[pn.right.value].payload;
        if l.Ra? && rt.Ra? then
          var n2 := SetCell(n, p, Ra(Cross(l.e, rt.e)), Relation);
          SameLinksAcyclic(n, n2, d);
          Fold(n2, d, p)
        else (Failed(NotAnExpression), n)
    else if pn.kind == Selection then
      if pn.parent.Some? && n[pn.parent.value].kind == Selection then
        // two selections in a row: their conditions are conjoined into the
        // grandparent, and the parent takes over the child's resolved payload
        var g := pn.parent.value;
        if pn.payload.Ra? && n[g].payload.Ra? then
          var n2 := SetPayload(n, g, Ra(Conj(pn.payload.e, n[g].payload.e)));
          var n3 := SetCell(n2, p, n2[c].payload, n2[c].kind);
          SameLinksAcyclic(n, n2, d);
          SameLinksAcyclic(n2, n3, d);
          Fold(n3, d, p)
        else (Failed(NotAnExpression), n)
      else SelectInto(n, d, p, c)
    else ProjectionParts(n, d, p, c)
  }

  /** `__create_selection_parts(p, c)` for a selection node c under p. */
  ghost function SelectionParts(n: seq<TreeNode>, d: seq<nat>, p: nat, c: nat): (r: (FoldResult, seq<TreeNode>))
    requires Acyclic(n, d) && c < |n| && n[c].parent == Some(p)
    ensures SameLinks(n, r.1)
    decreases d[c], 1
  {
    assert LinksInRange(n, c);
    if n[p].kind == Selection then SelectInto(n, d, p, c)
    else if n[p].kind == Projection then ProjectionParts(n, d, p, c)
    else (NoneReturned, n)
  }

  /** `__create_projection_parts(p, c)`: at the top, the projection over p's
      attribute (or attribute list) of c's payload; under another projection,
      the two attribute names are merged into a list in the grandparent and the
      parent takes over the child's resolved payload. */
  ghost function ProjectionParts(n: seq<TreeNode>, d: seq<nat>, p: nat, c: nat): (r: (FoldResult, seq<TreeNode>))
    requires Acyclic(n, d) && c < |n| && n[c].parent == Some(p)
    ensures SameLinks(n, r.1)
    decreases d[c], 0
  {
    assert LinksInRange(n, c) && LinksInRange(n, p);
    var pn := n[p];
    if pn.parent.None? then
      var input := n[c].payload;
      if !input.Ra? then (Failed(NotAnExpression), n)
      else
        var name := AsName(pn.payload);
        if pn.payload.Names? then (Done(Ra(Project(pn.payload.attrs, input.e))), n)
        else if name.Some? then (Done(Ra(Project([AttrRef(None, name.value)], input.e))), n)
        else (Failed(NotAnExpression), n)
    else if n[pn.parent.value].kind == Projection then
      var g := pn.parent.value;
      if AsName(pn.payload).Some? && AsName(n[g].payload).Some? then
        var n2 := SetPayload(n, g, Names([AttrRef(None, AsName(pn.payload).value), AttrRef(None, AsName(n[g].payload).value)]));
        var n3 := SetCell(n2, p, n2[c].payload, n2[c].kind);
        SameLinksAcyclic(n, n2, d);
        SameLinksAcyclic(n2, n3, d);
        Fold(n3, d, p)
      else (Failed(NotAnExpression), n)
    else (NoneReturned, n)
  }
}
