/** The translator's mutable tree object: insertion (`insert_node`,
    `__insert_relations`, `__insert_cartesian`), the leftmost leaf
    (`get_last_left_child`) and the fold (`create_ra_from_ra_tree` and its
    helpers), each updating the arena in place and proved against the
    specification functions of RaTree and RaFold. */
module Assembler {
  import opened Wrappers
  import opened RaAst
  import opened RaTree
  import opened RaFold

  /** The leaf reached by following `left` links down from node i. */
  function LastLeft(nodes: seq<TreeNode>, i: nat): (r: nat)
    requires LeftOrdered(nodes) && i < |nodes|
    ensures r <= i && nodes[r].left.None?
    decreases i
  {
    if nodes[i].left.Some? then LastLeft(nodes, nodes[i].left.value) else i
  }

  class Tree {
    /** The arena of nodes. */
    var nodes: seq<TreeNode>
    /** The current root: the global `ra_tree` (None before the first relation). */
    var root: Option<nat>
    /** Every node's distance to the root. */
    ghost var dist: seq<nat>

    ghost predicate Valid()
      reads this
    {
      WellFormed(nodes, root, dist)
    }

    ghost function Value(): Arena
      reads this
    {
      Arena(nodes, root)
    }

    /** A fresh, empty tree: every translation starts from one. */
    constructor ()
      ensures Valid() && Value() == Arena([], None)
    {
      nodes, root, dist := [], None, [];
    }

    /** `ra_tree = Tree(r, relation)`: the first relation becomes the tree. */
    method Plant(p: Payload)
      requires Valid() && root.None?
      modifies this
      ensures Valid() && Value() == RaTree.Plant(p)
    {
      nodes := [TreeNode(p, Relation, None, None, None)];
      root := Some(0);
      dist := [0];
      PlantWellFormed(p);
    }

    /** `insert_node`: a relation goes through the relation-insertion rules;
        a selection or projection node wraps the root and becomes the root. */
    method InsertNode(p: Payload, k: Kind)
      requires Valid() && root.Some?
      modifies this
      ensures Valid() && Value() == InsertSpec(old(Value()), p, k)
    {
      if k == Relation {
        InsertRelations(p);
      } else {
        WrapWellFormed(Value(), dist, p, k);
        var r, n := root.value, |nodes|;
        nodes := nodes[r := nodes[r].(parent := Some(n))] + [TreeNode(p, k, Some(r), None, None)];
        root := Some(n);
        dist := Deeper(dist) + [0];
      }
    }

    /** `__insert_relations`: onto a relation node, pair it in a new cross node;
        onto a cross node, fill its right slot when empty and pair otherwise;
        onto any other node, do nothing. */
    method InsertRelations(p: Payload)
      requires Valid() && root.Some?
      modifies this
      ensures Valid() && Value() == InsertRelationSpec(old(Value()), p)
    {
      var top := nodes[root.value];
      if top.kind == Relation {
        InsertCartesian(p);
      } else if top.kind == CrossKind {
        if top.right.None? {
          FillRightWellFormed(Value(), dist, p);
          var r, n := root.value, |nodes|;
          nodes := nodes[r := nodes[r].(right := Some(n))] + [TreeNode(p, Relation, None, None, Some(r))];
          dist := dist + [1];
        } else {
          InsertCartesian(p);
        }
      }
    }

    /** `__insert_cartesian`: a new cross node holding the old root (left) and
        a new relation node (right) becomes the root. */
    method InsertCartesian(p: Payload)
      requires Valid() && root.Some?
      modifies this
      ensures Valid() && Value() == Cartesian(old(Value()), p)
    {
      CartesianWellFormed(Value(), dist, p);
      var r, n := root.value, |nodes|;
      nodes := nodes[r := nodes[r].(parent := Some(n + 1))] +
               [TreeNode(p, Relation, None, None, Some(n + 1)), TreeNode(CrossMark, CrossKind, Some(r), Some(n), None)];
      root := Some(n + 1);
      dist := Deeper(dist) + [1, 0];
    }

    /** `get_last_left_child` called on the root. */
    function LastLeftChild(): (r: nat)
      reads this
      requires Valid() && root.Some?
      ensures r < |nodes| && nodes[r].left.None?
    {
      LastLeft(nodes, root.value)
    }

    /** `create_ra_from_ra_tree(c)`. */
    method CreateRa(c: nat) returns (r: FoldResult)
      requires Valid() && c < |nodes|
      modifies this
      ensures Valid() && root == old(root) && dist == old(dist)
      ensures (r, nodes) == Fold(old(nodes), dist, c)
      decreases dist[c], 2
    {
      assert LinksInRange(nodes, c);
      if nodes[c].parent.None? {
        return Done(nodes[c].payload);
      }
      var p := nodes[c].parent.value;
      if nodes[c].kind == Relation {
        r := CreateRelationParts(p, c);
      } else if nodes[c].kind == Selection {
        r := CreateSelectionParts(p, c);
      } else if nodes[c].kind == Projection {
        r := CreateProjectionParts(p, c);
      } else {
        r := NoneReturned;
      }
    }

    /** `__create_relation_parts(p, c)`. */
    method CreateRelationParts(p: nat, c: nat) returns (r: FoldResult)
      requires Valid() && c < |nodes| && nodes[c].parent == Some(p)
      modifies this
      ensures Valid() && root == old(root) && dist == old(dist)
      ensures (r, nodes) == RelationParts(old(nodes), dist, p, c)
      decreases dist[c], 1
    {
      assert LinksInRange(nodes, c) && LinksInRange(nodes, p);
      var pn := nodes[p];
      if pn.kind == CrossKind {
        if pn.left.None? || pn.right.None? {
          return Failed(AttributeError);
        }
        var l, rt := nodes[pn.left.value].payload, nodes[pn.right.value].payload;
        if !(l.Ra? && rt.Ra?) {
          return Failed(NotAnExpression);
        }
        SameLinksWellFormed(nodes, SetCell(nodes, p, Ra(Cross(l.e, rt.e)), Relation), root, dist);
        nodes := SetCell(nodes, p, Ra(Cross(l.e, rt.e)), Relation);
        r := CreateRa(p);
      } else if pn.kind == Selection {
        if pn.parent.Some? && nodes[pn.parent.value].kind == Selection {
          var g := pn.parent.value;
          if !(pn.payload.Ra? && nodes[g].payload.Ra?) {
            return Failed(NotAnExpression);
          }
          SameLinksWellFormed(nodes, SetPayload(nodes, g, Ra(Conj(pn.payload.e, nodes[g].payload.e))), root, dist);
          nodes := SetPayload(nodes, g, Ra(Conj(pn.payload.e, nodes[g].payload.e)));
          SameLinksWellFormed(nodes, SetCell(nodes, p, nodes[c].payload, nodes[c].kind), root, dist);
          nodes := SetCell(nodes, p, nodes[c].payload, nodes[c].kind);
          r := CreateRa(p);
        } else {
          if !(pn.payload.Ra? && nodes[c].payload.Ra?) {
            return Failed(NotAnExpression);
          }
          SameLinksWellFormed(nodes, SetPayload(nodes, p, Ra(Select(pn.payload.e, nodes[c].payload.e))), root, dist);
          nodes := SetPayload(nodes, p, Ra(Select(pn.payload.e, nodes[c].payload.e)));
          r := CreateRa(p);
        }
      } else {
        r := CreateProjectionParts(p, c);
      }
    }

    /** `__create_selection_parts(p, c)`. */
    method CreateSelectionParts(p: nat, c: nat) returns (r: FoldResult)
      requires Valid() && c < |nodes| && nodes[c].parent == Some(p)
      modifies this
      ensures Valid() && root == old(root) && dist == old(dist)
      ensures (r, nodes) == SelectionParts(old(nodes), dist, p, c)
      decreases dist[c], 1
    {
      assert LinksInRange(nodes, c);
      if nodes[p].kind == Selection {
        var cond, input := nodes[p].payload, nodes[c].payload;
        if !(cond.Ra? && input.Ra?) {
          return Failed(NotAnExpression);
        }
        SameLinksWellFormed(nodes, SetPayload(nodes, p, Ra(Select(cond.e, input.e))), root, dist);
        nodes := SetPayload(nodes, p, Ra(Select(cond.e, input.e)));
        r := CreateRa(p);
      } else if nodes[p].kind == Projection {
        r := CreateProjectionParts(p, c);
      } else {
        r := NoneReturned;
      }
    }

    /** `__create_projection_parts(p, c)`. */
    method CreateProjectionParts(p: nat, c: nat) returns (r: FoldResult)
      requires Valid() && c < |nodes| && nodes[c].parent == Some(p)
      modifies this
      ensures Valid() && root == old(root) && dist == old(dist)
      ensures (r, nodes) == ProjectionParts(old(nodes), dist, p, c)
      decreases dist[c], 0
    {
      assert LinksInRange(nodes, c) && LinksInRange(nodes, p);
      var pn := nodes[p];
      if pn.parent.None? {
        var input := nodes[c].payload;
        if !input.Ra? {
          return Failed(NotAnExpression);
        }
        var name := AsName(pn.payload);
        if pn.payload.Names? {
          r := Done(Ra(Project(pn.payload.attrs, input.e)));
        } else if name.Some? {
          r := Done(Ra(Project([AttrRef(None, name.value)], input.e)));
        } else {
          r := Failed(NotAnExpression);
        }
      } else if nodes[pn.parent.value].kind == Projection {
        var g := pn.parent.value;
        var first, second := AsName(pn.payload), AsName(nodes[g].payload);
        if !(first.Some? && second.Some?) {
          return Failed(NotAnExpression);
        }
        SameLinksWellFormed(nodes, SetPayload(nodes, g, Names([AttrRef(None, first.value), AttrRef(None, second.value)])), root, dist);
        nodes := SetPayload(nodes, g, Names([AttrRef(None, first.value), AttrRef(None, second.value)]));
        SameLinksWellFormed(nodes, SetCell(nodes, p, nodes[c].payload, nodes[c].kind), root, dist);
        nodes := SetCell(nodes, p, nodes[c].payload, nodes[c].kind);
        r := CreateRa(p);
      } else {
        r := NoneReturned;
      }
    }
  }
}
