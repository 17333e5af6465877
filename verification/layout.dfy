/** The shape of the tree the translator builds, and what the fold makes of it.

    Inserting relations R1..Rn, then selection conditions c1..ck, then
    projected names a1..am, lays the arena out as follows (N = 2n - 1):
      node 0            R1
      node 2j-1, 2j     R(j+1) and the cross node pairing it with node 2j-2
      node N+i          the i-th wrapper (selection, then projection) around node N+i-1
    `Built` states this layout. The lemmas prove that each insertion keeps it,
    that the fold starts at R1, and that the fold yields the canonical
    expression. */
module Layout {
  import opened Wrappers
  import opened RaAst
  import opened RaTree
  import opened RaFold
  import opened Assembler

  /** A selection or projection node waiting above the relations. */
  datatype Wrapper = Wrapper(payload: Payload, kind: Kind)

  function SelWrappers(conds: seq<Expr>): (r: seq<Wrapper>)
    ensures |r| == |conds|
    ensures forall i :: 0 <= i < |conds| ==> r[i] == Wrapper(Ra(conds[i]), Selection)
  {
    if conds == [] then [] else [Wrapper(Ra(conds[0]), Selection)] + SelWrappers(conds[1..])
  }

  function ProjWrappers(names: seq<string>): (r: seq<Wrapper>)
    ensures |r| == |names|
    ensures forall i :: 0 <= i < |names| ==> r[i] == Wrapper(Name(names[i]), Projection)
  {
    if names == [] then [] else [Wrapper(Name(names[0]), Projection)] + ProjWrappers(names[1..])
  }

  /** The parent of the topmost relation-level node. */
  function Top(rels: seq<Expr>, ws: seq<Wrapper>): Option<nat>
    requires |rels| >= 1
  {
    if ws == [] then None else Some(2 * |rels| - 1)
  }

  /** The topmost relation-level node: R1 or the last cross node. */
  function Base(rels: seq<Expr>): nat
    requires |rels| >= 1
  {
    2 * |rels| - 2
  }

  /** Nodes 2j-1 (the relation rels[j]) and 2j (the cross node over it). */
  ghost predicate CrossLayer(nodes: seq<TreeNode>, rels: seq<Expr>, j: nat, top: Option<nat>) {
    1 <= j < |rels| && 2 * j < |nodes| &&
    nodes[2 * j - 1] == TreeNode(Ra(rels[j]), Relation, None, None, Some(2 * j)) &&
    nodes[2 * j] == TreeNode(CrossMark, CrossKind, Some(2 * j - 2), Some(2 * j - 1),
                             if j + 1 < |rels| then Some(2 * j + 2) else top)
  }

  /** Node base+1+i: the i-th wrapper, around node base+i. */
  ghost predicate WrapLayer(nodes: seq<TreeNode>, base: nat, ws: seq<Wrapper>, i: nat) {
    i < |ws| && base + 1 + i < |nodes| &&
    nodes[base + 1 + i] == TreeNode(ws[i].payload, ws[i].kind, Some(base + i), None,
                                    if i + 1 < |ws| then Some(base + 2 + i) else None)
  }

  ghost predicate Built(a: Arena, rels: seq<Expr>, ws: seq<Wrapper>) {
    |rels| >= 1 && |a.nodes| == 2 * |rels| - 1 + |ws| && a.root == Some(|a.nodes| - 1) &&
    a.nodes[0] == TreeNode(Ra(rels[0]), Relation, None, None, if |rels| > 1 then Some(2) else Top(rels, ws)) &&
    (forall j :: 1 <= j < |rels| ==> CrossLayer(a.nodes, rels, j, Top(rels, ws))) &&
    (forall i :: 0 <= i < |ws| ==> WrapLayer(a.nodes, Base(rels), ws, i))
  }

  // ---------------------------------------------------------------------------
  // Insertion builds the layout

  lemma BuiltPlant(r: Expr)
    ensures Built(Plant(Ra(r)), [r], [])
  {
  }

  /** A relation inserted after R1..Rn becomes R(n+1), paired by a new cross
      node with the left-deep chain so far. */
  lemma {:induction false} BuiltRelation(a: Arena, rels: seq<Expr>, r: Expr)
    requires Built(a, rels, [])
    ensures a.root.Some? && a.root.value < |a.nodes|
    ensures Built(InsertSpec(a, Ra(r), Relation), rels + [r], [])
  {
    var n := |rels|;
    var rels' := rels + [r];
    var b := InsertSpec(a, Ra(r), Relation);
    if n > 1 {
      assert CrossLayer(a.nodes, rels, n - 1, Top(rels, []));
    }
    assert a.nodes[a.root.value].kind == (if n == 1 then Relation else CrossKind);
    assert b == Cartesian(a, Ra(r));
    forall j | 1 <= j < |rels'| ensures CrossLayer(b.nodes, rels', j, Top(rels', [])) {
      if j < n {
        assert CrossLayer(a.nodes, rels, j, Top(rels, []));
      }
    }
  }

  /** A selection or projection inserted after the wrappers ws becomes the
      new outermost wrapper. */
  lemma {:induction false} BuiltWrap(a: Arena, rels: seq<Expr>, ws: seq<Wrapper>, w: Wrapper)
    requires Built(a, rels, ws) && w.kind != Relation
    ensures a.root.Some? && a.root.value < |a.nodes|
    ensures Built(InsertSpec(a, w.payload, w.kind), rels, ws + [w])
  {
    var n := |rels|;
    var ws' := ws + [w];
    var b := InsertSpec(a, w.payload, w.kind);
    assert b == Wrap(a, w.payload, w.kind);
    forall j | 1 <= j < n ensures CrossLayer(b.nodes, rels, j, Top(rels, ws')) {
      assert CrossLayer(a.nodes, rels, j, Top(rels, ws));
    }
    forall i | 0 <= i < |ws'| ensures WrapLayer(b.nodes, Base(rels), ws', i) {
      if i < |ws| {
        assert WrapLayer(a.nodes, Base(rels), ws, i);
      }
    }
  }

  // ---------------------------------------------------------------------------
  // Sequences of insertions

  ghost predicate RootInRange(a: Arena) {
    a.root.Some? ==> a.root.value < |a.nodes|
  }

  /** The relations inserted in order: the first one planted when there is no
      tree yet, each later one inserted as a relation node. */
  function AddRelations(a: Arena, rels: seq<Expr>): (r: Arena)
    requires RootInRange(a)
    ensures RootInRange(r)
    ensures rels != [] ==> r.root.Some?
  {
    if rels == [] then a
    else
      var b := AddRelations(a, rels[..|rels| - 1]);
      var x := Ra(rels[|rels| - 1]);
      if b.root.None? then Plant(x) else InsertSpec(b, x, Relation)
  }

  /** One more relation: planted when there is no tree, inserted otherwise. */
  lemma AddRelationsStep(a: Arena, rels: seq<Expr>, i: nat)
    requires RootInRange(a) && i < |rels|
    ensures var b := AddRelations(a, rels[..i]);
            AddRelations(a, rels[..i + 1]) ==
              if b.root.None? then Plant(Ra(rels[i])) else InsertSpec(b, Ra(rels[i]), Relation)
  {
    assert rels[..i + 1][..i] == rels[..i];
  }

  /** The wrappers inserted in order, each around the root. */
  function WrapAll(a: Arena, ws: seq<Wrapper>): (r: Arena)
    requires a.root.Some? && a.root.value < |a.nodes|
    ensures r.root.Some? && r.root.value < |r.nodes|
  {
    if ws == [] then a
    else
      var w := ws[|ws| - 1];
      InsertSpec(WrapAll(a, ws[..|ws| - 1]), w.payload, w.kind)
  }

  lemma WrapAllSnoc(a: Arena, ws: seq<Wrapper>, w: Wrapper)
    requires a.root.Some? && a.root.value < |a.nodes|
    ensures WrapAll(a, ws + [w]) == InsertSpec(WrapAll(a, ws), w.payload, w.kind)
  {
    assert (ws + [w])[..|ws|] == ws;
  }

  lemma SelWrapStep(a: Arena, conds: seq<Expr>, c: Expr)
    requires a.root.Some? && a.root.value < |a.nodes|
    ensures WrapAll(a, SelWrappers(conds + [c])) == InsertSpec(WrapAll(a, SelWrappers(conds)), Ra(c), Selection)
  {
    var w := Wrapper(Ra(c), Selection);
    assert SelWrappers(conds + [c]) == SelWrappers(conds) + [w];
    WrapAllSnoc(a, SelWrappers(conds), w);
  }

  lemma ProjWrapStep(a: Arena, names: seq<string>, v: string)
    requires a.root.Some? && a.root.value < |a.nodes|
    ensures WrapAll(a, ProjWrappers(names + [v])) == InsertSpec(WrapAll(a, ProjWrappers(names)), Name(v), Projection)
  {
    var w := Wrapper(Name(v), Projection);
    assert ProjWrappers(names + [v]) == ProjWrappers(names) + [w];
    WrapAllSnoc(a, ProjWrappers(names), w);
  }

  /** Inserting relations into no tree lays them out as a left-deep chain. */
  lemma {:induction false} BuiltRelations(rels: seq<Expr>)
    requires rels != []
    ensures Built(AddRelations(Arena([], None), rels), rels, [])
  {
    var init, r := rels[..|rels| - 1], rels[|rels| - 1];
    assert init + [r] == rels;
    if init == [] {
      BuiltPlant(r);
    } else {
      BuiltRelations(init);
      BuiltRelation(AddRelations(Arena([], None), init), init, r);
    }
  }

  /** Inserting selections and projections stacks them above the relations,
      in order. */
  lemma {:induction false} BuiltWrapAll(a: Arena, rels: seq<Expr>, ws: seq<Wrapper>, more: seq<Wrapper>)
    requires Built(a, rels, ws)
    requires forall i :: 0 <= i < |more| ==> more[i].kind != Relation
    ensures a.root.Some? && a.root.value < |a.nodes|
    ensures Built(WrapAll(a, more), rels, ws + more)
    decreases |more|
  {
    if more == [] {
      assert ws + more == ws;
    } else {
      var init, w := more[..|more| - 1], more[|more| - 1];
      BuiltWrapAll(a, rels, ws, init);
      BuiltWrap(WrapAll(a, init), rels, ws + init, w);
      assert ws + init + [w] == ws + more;
    }
  }

  // ---------------------------------------------------------------------------
  // The fold starts at the first relation

  lemma {:induction false} LastLeftCrosses(nodes: seq<TreeNode>, rels: seq<Expr>, top: Option<nat>, j: nat)
    requires LeftOrdered(nodes) && |rels| >= 1 && j < |rels| && 2 * j < |nodes|
    requires nodes[0].left.None?
    requires forall j' :: 1 <= j' < |rels| ==> CrossLayer(nodes, rels, j', top)
    ensures LastLeft(nodes, 2 * j) == 0
  {
    if j > 0 {
      assert CrossLayer(nodes, rels, j, top);
      LastLeftCrosses(nodes, rels, top, j - 1);
    }
  }

  lemma {:induction false} LastLeftWrappers(nodes: seq<TreeNode>, base: nat, ws: seq<Wrapper>, i: nat)
    requires LeftOrdered(nodes) && i < |ws| && base + 1 + i < |nodes|
    requires forall i' :: 0 <= i' < |ws| ==> WrapLayer(nodes, base, ws, i')
    ensures LastLeft(nodes, base + 1 + i) == LastLeft(nodes, base)
  {
    assert WrapLayer(nodes, base, ws, i);
    if i > 0 {
      LastLeftWrappers(nodes, base, ws, i - 1);
    }
  }

  /** Following `left` from the root of a built tree reaches R1, node 0. */
  lemma LastLeftIsFirstRelation(a: Arena, rels: seq<Expr>, ws: seq<Wrapper>)
    requires Built(a, rels, ws) && LeftOrdered(a.nodes)
    ensures LastLeft(a.nodes, a.root.value) == 0
  {
    LastLeftCrosses(a.nodes, rels, Top(rels, ws), |rels| - 1);
    if ws != [] {
      LastLeftWrappers(a.nodes, Base(rels), ws, |ws| - 1);
    }
  }

  // ---------------------------------------------------------------------------
  // The fold of a built tree

  function Pending(conds: seq<Expr>, names: seq<string>): seq<Wrapper> {
    SelWrappers(conds) + ProjWrappers(names)
  }

  /** What the fold yields over `inner` with the projected names: `inner`
      itself for `*`, a projection on one or two names, and a failure for more
      (the two-element merge then meets a list where it expects a name). */
  function WithProjection(names: seq<string>, inner: Expr): FoldResult {
    if names == [] then Done(Ra(inner))
    else if |names| <= 2 then Done(Ra(Project(AttrList(names), inner)))
    else Failed(NotAnExpression)
  }

  /** Under a projection node, a resolved relation or selection node hands
      over to `__create_projection_parts`. */
  lemma ProjDispatch(n: seq<TreeNode>, d: seq<nat>, p: nat, c: nat)
    requires Acyclic(n, d) && c < |n| && n[c].parent == Some(p)
    requires n[c].kind == Relation || n[c].kind == Selection
    requires p < |n| && n[p].kind == Projection
    ensures Fold(n, d, c) == ProjectionParts(n, d, p, c)
  {
    if n[c].kind == Relation {
      assert Fold(n, d, c) == RelationParts(n, d, p, c);
    } else {
      assert Fold(n, d, c) == SelectionParts(n, d, p, c);
    }
  }

  /** The fold state when the projections are reached: node base+|conds| is
      a resolved relation or selection holding `inner`, and the projection
      wrappers above it are still as inserted. */
  ghost predicate ProjState(n: seq<TreeNode>, base: nat, conds: seq<Expr>, names: seq<string>, inner: Expr) {
    |n| == base + 1 + |conds| + |names| &&
    n[base + |conds|].payload == Ra(inner) &&
    (n[base + |conds|].kind == Relation || n[base + |conds|].kind == Selection) &&
    n[base + |conds|].parent == (if names == [] then None else Some(base + |conds| + 1)) &&
    forall i :: |conds| <= i < |conds| + |names| ==> WrapLayer(n, base, Pending(conds, names), i)
  }

  /** The projection wrappers above node c (a resolved relation or selection
      holding `inner`) fold into the projection on the names. */
  lemma ProjPhase(n: seq<TreeNode>, d: seq<nat>, base: nat, conds: seq<Expr>, names: seq<string>, inner: Expr)
    requires Acyclic(n, d) && ProjState(n, base, conds, names, inner)
    ensures Fold(n, d, base + |conds|).0 == WithProjection(names, inner)
  {
    var ws := Pending(conds, names);
    var c, k := base + |conds|, n[base + |conds|].kind;
    if names == [] {
      return;
    }
    assert WrapLayer(n, base, ws, |conds|);
    assert ws[|conds|] == Wrapper(Name(names[0]), Projection);
    ProjDispatch(n, d, c + 1, c);
    if |names| == 1 {
      assert AttrList(names) == [AttrRef(None, names[0])];
    } else {
      ProjTwo(n, d, base, conds, names, inner);
    }
  }

  /** Two or more projection names: the first two are merged into a list in
      the second node, which then either closes the projection or meets a
      third name where a name is expected. */
  lemma ProjTwo(n: seq<TreeNode>, d: seq<nat>, base: nat, conds: seq<Expr>, names: seq<string>, inner: Expr)
    requires Acyclic(n, d)
    requires |n| == base + 1 + |conds| + |names| && |names| >= 2
    requires n[base + |conds|].payload == Ra(inner)
    requires n[base + |conds|].kind == Relation || n[base + |conds|].kind == Selection
    requires n[base + |conds|].parent == Some(base + |conds| + 1)
    requires forall i :: |conds| <= i < |conds| + |names| ==> WrapLayer(n, base, Pending(conds, names), i)
    ensures ProjectionParts(n, d, base + |conds| + 1, base + |conds|).0 == WithProjection(names, inner)
  {
    var ws := Pending(conds, names);
    var c, k := base + |conds|, n[base + |conds|].kind;
    assert WrapLayer(n, base, ws, |conds|);
    assert ws[|conds|] == Wrapper(Name(names[0]), Projection);
    assert WrapLayer(n, base, ws, |conds| + 1);
    assert ws[|conds| + 1] == Wrapper(Name(names[1]), Projection);
    var n2 := SetPayload(n, c + 2, Names([AttrRef(None, names[0]), AttrRef(None, names[1])]));
    var n3 := SetCell(n2, c + 1, Ra(inner), k);
    SameLinksAcyclic(n, n2, d);
    SameLinksAcyclic(n2, n3, d);
    assert ProjectionParts(n, d, c + 1, c) == Fold(n3, d, c + 1);
    ProjDispatch(n3, d, c + 2, c + 1);
    if |names| == 2 {
      assert AttrList(names) == [AttrRef(None, names[0]), AttrRef(None, names[1])];
    } else {
      assert WrapLayer(n, base, ws, |conds| + 2);
    }
  }

  /** The fold state while the selections are merged: node base+i is
      resolved (holding B) and sits under the selection node base+i+1, which
      holds the conjunction of the first i+1 conditions; the wrappers above
      are still as inserted. */
  ghost predicate SelState(n: seq<TreeNode>, base: nat, conds: seq<Expr>, names: seq<string>, i: nat, b: Expr) {
    |n| == base + 1 + |conds| + |names| && i < |conds| &&
    n[base + i].payload == Ra(b) && n[base + i].kind == Relation &&
    n[base + i].parent == Some(base + i + 1) &&
    n[base + i + 1].payload == Ra(AndChain(conds[..i + 1])) && n[base + i + 1].kind == Selection &&
    n[base + i + 1].parent == (if i + 1 < |conds| + |names| then Some(base + i + 2) else None) &&
    forall j :: i + 1 <= j < |conds| + |names| ==> WrapLayer(n, base, Pending(conds, names), j)
  }

  /** One merge: the next selection's condition is conjoined into its node,
      and the fold moves one node up. */
  lemma SelMerge(n: seq<TreeNode>, d: seq<nat>, base: nat, conds: seq<Expr>, names: seq<string>, i: nat, b: Expr)
    returns (n3: seq<TreeNode>)
    requires Acyclic(n, d) && SelState(n, base, conds, names, i, b) && i + 1 < |conds|
    ensures Acyclic(n3, d) && SelState(n3, base, conds, names, i + 1, b)
    ensures Fold(n, d, base + i).0 == Fold(n3, d, base + i + 1).0
  {
    var ws := Pending(conds, names);
    var c := base + i;
    assert Fold(n, d, c) == RelationParts(n, d, c + 1, c);
    assert WrapLayer(n, base, ws, i + 1);
    assert ws[i + 1] == Wrapper(Ra(conds[i + 1]), Selection);
    var both := Conj(AndChain(conds[..i + 1]), conds[i + 1]);
    assert conds[..i + 2][..i + 1] == conds[..i + 1];
    assert both == AndChain(conds[..i + 2]);
    var n2 := SetPayload(n, c + 2, Ra(both));
    n3 := SetCell(n2, c + 1, Ra(b), Relation);
    SameLinksAcyclic(n, n2, d);
    SameLinksAcyclic(n2, n3, d);
    assert RelationParts(n, d, c + 1, c) == Fold(n3, d, c + 1);
    forall j | i + 2 <= j < |conds| + |names| ensures WrapLayer(n3, base, ws, j) {
      assert WrapLayer(n, base, ws, j);
    }
  }

  /** A resolved relation node under a selection that is not itself under a
      selection: the selection takes `Select(condition, input)` and the fold
      moves up to it. */
  lemma SelectOnce(n: seq<TreeNode>, d: seq<nat>, p: nat, c: nat)
    requires Acyclic(n, d) && c < |n| && n[c].parent == Some(p) && n[c].kind == Relation
    requires p < |n| && n[p].kind == Selection && n[p].payload.Ra? && n[c].payload.Ra?
    requires n[p].parent.Some? ==> n[p].parent.value < |n| && n[n[p].parent.value].kind != Selection
    ensures var n2 := SetPayload(n, p, Ra(Select(n[p].payload.e, n[c].payload.e)));
            Acyclic(n2, d) && Fold(n, d, c) == Fold(n2, d, p)
  {
    var n2 := SetPayload(n, p, Ra(Select(n[p].payload.e, n[c].payload.e)));
    SameLinksAcyclic(n, n2, d);
    assert Fold(n, d, c) == RelationParts(n, d, p, c) == SelectInto(n, d, p, c);
  }

  /** The last selection becomes one Select over B, and the fold moves on to
      the projections. */
  lemma SelClose(n: seq<TreeNode>, d: seq<nat>, base: nat, conds: seq<Expr>, names: seq<string>, b: Expr)
    returns (n2: seq<TreeNode>)
    requires conds != [] && Acyclic(n, d) && SelState(n, base, conds, names, |conds| - 1, b)
    ensures Acyclic(n2, d) && ProjState(n2, base, conds, names, Select(AndChain(conds), b))
    ensures Fold(n, d, base + |conds| - 1).0 == Fold(n2, d, base + |conds|).0
  {
    var ws := Pending(conds, names);
    var c := base + |conds| - 1;
    assert conds[..|conds|] == conds;
    n2 := SetPayload(n, c + 1, Ra(Select(AndChain(conds), b)));
    SameLinksAcyclic(n, n2, d);
    if names != [] {
      assert WrapLayer(n, base, ws, |conds|);
      assert ws[|conds|] == Wrapper(Name(names[0]), Projection);
    }
    SelectOnce(n, d, c + 1, c);
    forall j | |conds| <= j < |conds| + |names| ensures WrapLayer(n2, base, ws, j) {
      assert WrapLayer(n, base, ws, j);
    }
  }

  /** The selection wrappers fold, from node base+i, into one Select holding
      the left-nested conjunction of every condition. */
  lemma {:induction false} SelPhase(n: seq<TreeNode>, d: seq<nat>, base: nat, conds: seq<Expr>, names: seq<string>,
                                    i: nat, b: Expr)
    requires Acyclic(n, d) && SelState(n, base, conds, names, i, b)
    ensures Fold(n, d, base + i).0 == WithProjection(names, Select(AndChain(conds), b))
    decreases |conds| - i
  {
    if i + 1 < |conds| {
      var n3 := SelMerge(n, d, base, conds, names, i, b);
      SelPhase(n3, d, base, conds, names, i + 1, b);
    } else {
      var n2 := SelClose(n, d, base, conds, names, b);
      ProjPhase(n2, d, base, conds, names, Select(AndChain(conds), b));
    }
  }

  /** Above the resolved relation-level node (holding B), the wrappers fold
      into at most one selection and at most one projection. */
  lemma AboveRelations(n: seq<TreeNode>, d: seq<nat>, base: nat, conds: seq<Expr>, names: seq<string>, b: Expr)
    requires Acyclic(n, d)
    requires |n| == base + 1 + |conds| + |names|
    requires n[base].payload == Ra(b) && n[base].kind == Relation
    requires n[base].parent == (if |conds| + |names| == 0 then None else Some(base + 1))
    requires forall j :: 0 <= j < |conds| + |names| ==> WrapLayer(n, base, Pending(conds, names), j)
    ensures Fold(n, d, base).0 == WithProjection(names, if conds == [] then b else Select(AndChain(conds), b))
  {
    var ws := Pending(conds, names);
    if conds == [] {
      assert base + |conds| == base;
      ProjPhase(n, d, base, conds, names, b);
    } else {
      assert WrapLayer(n, base, ws, 0);
      assert ws[0] == Wrapper(Ra(conds[0]), Selection);
      assert AndChain(conds[..1]) == conds[0];
      SelPhase(n, d, base, conds, names, 0, b);
    }
  }

  /** The cross nodes: node 2j holds the chain of the first j+1 relations;
      each parent cross node in turn pairs it with the next relation. */
  lemma {:induction false} CrossPhase(n: seq<TreeNode>, d: seq<nat>, rels: seq<Expr>, conds: seq<Expr>,
                                      names: seq<string>, j: nat)
    requires Acyclic(n, d)
    requires |rels| >= 1 && j < |rels| && |n| == 2 * |rels| - 1 + |conds| + |names|
    requires n[2 * j].payload == Ra(CrossChain(rels[..j + 1])) && n[2 * j].kind == Relation
    requires n[2 * j].parent == (if j + 1 < |rels| then Some(2 * j + 2) else Top(rels, Pending(conds, names)))
    requires forall j' :: j < j' < |rels| ==> CrossLayer(n, rels, j', Top(rels, Pending(conds, names)))
    requires forall i :: 0 <= i < |conds| + |names| ==> WrapLayer(n, Base(rels), Pending(conds, names), i)
    ensures Fold(n, d, 2 * j).0 ==
            WithProjection(names, if conds == [] then CrossChain(rels) else Select(AndChain(conds), CrossChain(rels)))
    decreases |rels| - j
  {
    if j + 1 == |rels| {
      assert rels[..j + 1] == rels;
      AboveRelations(n, d, Base(rels), conds, names, CrossChain(rels));
    } else {
      var n2 := CrossStep(n, d, rels, conds, names, j);
      CrossPhase(n2, d, rels, conds, names, j + 1);
    }
  }

  /** One cross node takes the chain so far (left) and the next relation
      (right) and becomes a relation node holding their cross product. */
  lemma CrossStep(n: seq<TreeNode>, d: seq<nat>, rels: seq<Expr>, conds: seq<Expr>, names: seq<string>, j: nat)
    returns (n2: seq<TreeNode>)
    requires Acyclic(n, d)
    requires |rels| >= 1 && j + 1 < |rels| && |n| == 2 * |rels| - 1 + |conds| + |names|
    requires n[2 * j].payload == Ra(CrossChain(rels[..j + 1])) && n[2 * j].kind == Relation
    requires n[2 * j].parent == Some(2 * j + 2)
    requires forall j' :: j < j' < |rels| ==> CrossLayer(n, rels, j', Top(rels, Pending(conds, names)))
    requires forall i :: 0 <= i < |conds| + |names| ==> WrapLayer(n, Base(rels), Pending(conds, names), i)
    ensures Acyclic(n2, d) && |n2| == |n|
    ensures n2[2 * j + 2].payload == Ra(CrossChain(rels[..j + 2])) && n2[2 * j + 2].kind == Relation
    ensures n2[2 * j + 2].parent == (if j + 2 < |rels| then Some(2 * j + 4) else Top(rels, Pending(conds, names)))
    ensures forall j' :: j + 1 < j' < |rels| ==> CrossLayer(n2, rels, j', Top(rels, Pending(conds, names)))
    ensures forall i :: 0 <= i < |conds| + |names| ==> WrapLayer(n2, Base(rels), Pending(conds, names), i)
    ensures Fold(n, d, 2 * j).0 == Fold(n2, d, 2 * j + 2).0
  {
    var ws := Pending(conds, names);
    var top := Top(rels, ws);
    assert CrossLayer(n, rels, j + 1, top);
    var chain := Cross(CrossChain(rels[..j + 1]), rels[j + 1]);
    assert rels[..j + 2][..j + 1] == rels[..j + 1];
    assert chain == CrossChain(rels[..j + 2]);
    n2 := SetCell(n, 2 * j + 2, Ra(chain), Relation);
    SameLinksAcyclic(n, n2, d);
    assert Fold(n, d, 2 * j) == RelationParts(n, d, 2 * j + 2, 2 * j) == Fold(n2, d, 2 * j + 2);
    forall j' | j + 1 < j' < |rels| ensures CrossLayer(n2, rels, j', top) {
      assert CrossLayer(n, rels, j', top);
    }
    forall i | 0 <= i < |conds| + |names| ensures WrapLayer(n2, Base(rels), ws, i) {
      assert WrapLayer(n, Base(rels), ws, i);
    }
  }

  /** The fold of a tree built from relations, conditions and projected names,
      started at the first relation, yields the canonical expression: the
      left-deep cross chain, one selection with the conjunction of all
      conditions, one projection on the names in order. */
  lemma FoldBuilt(a: Arena, d: seq<nat>, rels: seq<Expr>, conds: seq<Expr>, names: seq<string>)
    requires Built(a, rels, Pending(conds, names)) && Acyclic(a.nodes, d)
    ensures |rels| >= 1
    ensures Fold(a.nodes, d, 0).0 ==
            if |names| <= 2 then Done(Ra(Canonical(rels, conds, names))) else Failed(NotAnExpression)
  {
    assert rels[..1] == [rels[0]];
    CrossPhase(a.nodes, d, rels, conds, names, 0);
  }
}
