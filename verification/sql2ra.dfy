/** The translator's stages and its entry point `translate` (sql2ra.py): the
    statement's tokens are split into projection, selection and relation
    tokens; the relations, then the conditions, then the projected names are
    inserted into a fresh tree; the tree is folded from its leftmost leaf.
    Each stage is proved against the reference definitions of QuerySpec, and
    `Translate` against the canonical translation. */
module Sql2Ra {
  import opened Wrappers
  import opened Tokens
  import opened RaAst
  import opened RaTree
  import opened RaFold
  import opened Assembler
  import opened Layout
  import opened QuerySpec

  // ---------------------------------------------------------------------------
  // Token classification

  /** `__get_all_relation_tokens__`: the children of the first relation token,
      each flattened one level. */
  method GetAllRelationTokens(raw: seq<Token>) returns (r: Result<seq<Token>>)
    ensures r == RelationTokens(raw)
  {
    if raw == [] {
      return Failure(IndexError);
    }
    if !raw[0].isGroup {
      return Failure(AttributeError);
    }
    var children := raw[0].children;
    var tokens := [];
    for i := 0 to |children|
      invariant tokens == FlattenOnce(children[..i])
    {
      assert children[..i + 1][..i] == children[..i];
      var t := children[i];
      if t.isGroup {
        tokens := tokens + t.children;
      } else {
        tokens := tokens + [t];
      }
    }
    assert children[..|children|] == children;
    return Success(tokens);
  }

  /** `__separate_tokens`: one pass over the statement's tokens with an
      "inside FROM" flag. */
  method SeparateTokens(ts: seq<Token>) returns (r: Result<Parts>)
    ensures r == Classify(ts)
  {
    var inFrom := false;
    var relation, selection, projection := [], [], [];
    for i := 0 to |ts|
      invariant Scanned(ts, i, inFrom, relation, selection, projection)
    {
      var t := ts[i];
      if t.isWhitespace {
        ScanSkip(ts, i, inFrom, relation, selection, projection);
      } else if t.isKeyword {
        if IsFromKeyword(t) && !inFrom {
          ScanFrom(ts, i, relation, selection, projection);
          inFrom := true;
        } else {
          ScanSkip(ts, i, inFrom, relation, selection, projection);
        }
      } else {
        if !inFrom {
          ScanProjection(ts, i, relation, selection, projection);
          projection := projection + [t];
        } else if IsWhereGroup(t) {
          ScanWhere(ts, i, relation, selection, projection);
          selection := selection + [t];
        } else {
          ScanRelation(ts, i, relation, selection, projection);
          relation := relation + [t];
        }
      }
    }
    ScanDone(ts, inFrom, relation, selection, projection);
    var rel := GetAllRelationTokens(relation);
    if rel.Failure? {
      return Failure(rel.error);
    }
    return Success(Parts(rel.value, selection, projection));
  }

  /** What the scan of `__separate_tokens` holds after the first i tokens:
      the flag is set once the first FROM keyword has been passed, the
      projection holds the kept tokens before it, and the tokens kept after it
      are split between selection and relation. */
  ghost predicate Scanned(ts: seq<Token>, i: nat, inFrom: bool,
                          relation: seq<Token>, selection: seq<Token>, projection: seq<Token>)
    requires i <= |ts|
  {
    var f := FromIndex(ts);
    var after := Kept(if f < i then ts[f + 1..i] else []);
    (inFrom <==> f < i) &&
    projection == Kept(ts[..if f < i then f else i]) &&
    relation == NonWhere(after) && selection == WhereGroups(after)
  }

  /** Whitespace, and keywords other than the first FROM, change nothing. */
  lemma ScanSkip(ts: seq<Token>, i: nat, inFrom: bool, relation: seq<Token>, selection: seq<Token>, projection: seq<Token>)
    requires i < |ts| && Scanned(ts, i, inFrom, relation, selection, projection)
    requires ts[i].isWhitespace || (ts[i].isKeyword && (inFrom || !IsFromKeyword(ts[i])))
    ensures Scanned(ts, i + 1, inFrom, relation, selection, projection)
  {
    var f, t := FromIndex(ts), ts[i];
    if f < i {
      SliceSnoc(ts, f + 1, i);
      KeptSnoc(ts[f + 1..i], t);
      assert Kept(ts[f + 1..i + 1]) == Kept(ts[f + 1..i]);
    } else {
      SliceSnoc(ts, 0, i);
      KeptSnoc(ts[..i], t);
      assert Kept(ts[..i + 1]) == Kept(ts[..i]);
    }
  }

  /** The first FROM keyword sets the flag. */
  lemma ScanFrom(ts: seq<Token>, i: nat, relation: seq<Token>, selection: seq<Token>, projection: seq<Token>)
    requires i < |ts| && Scanned(ts, i, false, relation, selection, projection)
    requires IsFromKeyword(ts[i])
    ensures Scanned(ts, i + 1, true, relation, selection, projection)
  {
    assert FromIndex(ts) == i;
  }

  /** Any other token goes to the projection before FROM, and after it to
      the selection when it is a WHERE clause and to the relation otherwise. */
  lemma ScanProjection(ts: seq<Token>, i: nat, relation: seq<Token>, selection: seq<Token>, projection: seq<Token>)
    requires i < |ts| && Scanned(ts, i, false, relation, selection, projection)
    requires !ts[i].isWhitespace && !ts[i].isKeyword
    ensures Scanned(ts, i + 1, false, relation, selection, projection + [ts[i]])
  {
    SliceSnoc(ts, 0, i);
    KeptSnoc(ts[..i], ts[i]);
  }

  lemma ScanWhere(ts: seq<Token>, i: nat, relation: seq<Token>, selection: seq<Token>, projection: seq<Token>)
    requires i < |ts| && Scanned(ts, i, true, relation, selection, projection)
    requires !ts[i].isWhitespace && !ts[i].isKeyword && IsWhereGroup(ts[i])
    ensures Scanned(ts, i + 1, true, relation, selection + [ts[i]], projection)
  {
    var f := FromIndex(ts);
    SliceSnoc(ts, f + 1, i);
    KeptSnoc(ts[f + 1..i], ts[i]);
    WhereSnoc(Kept(ts[f + 1..i]), ts[i]);
  }

  lemma ScanRelation(ts: seq<Token>, i: nat, relation: seq<Token>, selection: seq<Token>, projection: seq<Token>)
    requires i < |ts| && Scanned(ts, i, true, relation, selection, projection)
    requires !ts[i].isWhitespace && !ts[i].isKeyword && !IsWhereGroup(ts[i])
    ensures Scanned(ts, i + 1, true, relation + [ts[i]], selection, projection)
  {
    var f := FromIndex(ts);
    SliceSnoc(ts, f + 1, i);
    KeptSnoc(ts[f + 1..i], ts[i]);
    WhereSnoc(Kept(ts[f + 1..i]), ts[i]);
  }

  lemma ScanDone(ts: seq<Token>, inFrom: bool, relation: seq<Token>, selection: seq<Token>, projection: seq<Token>)
    requires Scanned(ts, |ts|, inFrom, relation, selection, projection)
    ensures var rel := RelationTokens(relation);
            Classify(ts) == if rel.Failure? then Failure(rel.error) else Success(Parts(rel.value, selection, projection))
  {
    assert ts[..|ts|] == ts;
    assert relation == NonWhere(Kept(AfterFrom(ts))) && selection == WhereGroups(Kept(AfterFrom(ts)));
  }

  lemma SliceSnoc(ts: seq<Token>, lo: nat, i: nat)
    requires lo <= i < |ts|
    ensures ts[lo..i + 1] == ts[lo..i] + [ts[i]]
    ensures lo == 0 ==> ts[..i + 1] == ts[..i] + [ts[i]]
  {
  }

  // ---------------------------------------------------------------------------
  // Relations

  /** The first loop of `__create_relation`: each name after a comma (or at
      the start) opens a relation, each further name renames it. */
  method RelationList(tokens: seq<Token>) returns (rels: seq<Expr>)
    ensures rels == RelationsOf(tokens)
  {
    rels := [];
    var isRename := false;
    for i := 0 to |tokens|
      invariant Listed(tokens, i, rels, isRename)
    {
      var t := tokens[i];
      if t.isWhitespace {
        ListSkip(tokens, i, rels, isRename);
      } else if t.value == "," {
        ListComma(tokens, i, rels, isRename);
        isRename := false;
      } else if isRename {
        ListRename(tokens, i, rels);
        rels := rels[|rels| - 1 := Rename(None, [t.value + ": *"], rels[|rels| - 1])];
      } else {
        ListFresh(tokens, i, rels);
        rels := rels + [RelRef(t.value)];
        isRename := true;
      }
    }
    assert tokens[..|tokens|] == tokens;
  }

  /** What the loop of `__create_relation` holds after the first i tokens:
      the list is built from the comma-separated entries so far, and the flag
      says whether the current entry has begun. */
  ghost predicate Listed(tokens: seq<Token>, i: nat, rels: seq<Expr>, isRename: bool)
    requires i <= |tokens|
  {
    var segs := SplitCommas(NonWsValues(tokens[..i]));
    |segs| >= 1 && rels == BuildRelations(segs) && (isRename <==> segs[|segs| - 1] != [])
  }

  /** Whitespace changes nothing. */
  lemma ListSkip(tokens: seq<Token>, i: nat, rels: seq<Expr>, isRename: bool)
    requires i < |tokens| && Listed(tokens, i, rels, isRename) && tokens[i].isWhitespace
    ensures Listed(tokens, i + 1, rels, isRename)
  {
    SegmentsStep(tokens, i);
  }

  /** A comma closes the current entry. */
  lemma ListComma(tokens: seq<Token>, i: nat, rels: seq<Expr>, isRename: bool)
    requires i < |tokens| && Listed(tokens, i, rels, isRename)
    requires !tokens[i].isWhitespace && tokens[i].value == ","
    ensures Listed(tokens, i + 1, rels, false)
  {
    SegmentsStep(tokens, i);
    BuildCommaStep(SplitCommas(NonWsValues(tokens[..i])));
  }

  /** The first value of an entry appends a relation reference. */
  lemma ListFresh(tokens: seq<Token>, i: nat, rels: seq<Expr>)
    requires i < |tokens| && Listed(tokens, i, rels, false)
    requires !tokens[i].isWhitespace && tokens[i].value != ","
    ensures Listed(tokens, i + 1, rels + [RelRef(tokens[i].value)], true)
  {
    SegmentsStep(tokens, i);
    BuildValueFresh(SplitCommas(NonWsValues(tokens[..i])), tokens[i].value);
  }

  /** A later value of an entry renames the last relation. */
  lemma ListRename(tokens: seq<Token>, i: nat, rels: seq<Expr>)
    requires i < |tokens| && Listed(tokens, i, rels, true)
    requires !tokens[i].isWhitespace && tokens[i].value != ","
    ensures rels != []
    ensures Listed(tokens, i + 1, rels[|rels| - 1 := Rename(None, [tokens[i].value + ": *"], rels[|rels| - 1])], true)
  {
    SegmentsStep(tokens, i);
    BuildValueRename(SplitCommas(NonWsValues(tokens[..i])), tokens[i].value);
  }

  lemma SegmentsStep(tokens: seq<Token>, i: nat)
    requires i < |tokens|
    ensures var segs, t := SplitCommas(NonWsValues(tokens[..i])), tokens[i];
            SplitCommas(NonWsValues(tokens[..i + 1])) == if t.isWhitespace then segs else SplitStep(segs, t.value)
  {
    var t, vs := tokens[i], NonWsValues(tokens[..i]);
    assert tokens[..i + 1] == tokens[..i] + [t];
    NonWsSnoc(tokens[..i], t);
    if t.isWhitespace {
      assert NonWsValues(tokens[..i + 1]) == vs;
    } else {
      assert NonWsValues(tokens[..i + 1]) == vs + [t.value];
      SplitSnoc(vs, t.value);
    }
  }

  /** `__create_relation`: the relations inserted into the tree in order, the
      first one planted when there is no tree yet. */
  method CreateRelation(tree: Tree, tokens: seq<Token>)
    requires tree.Valid()
    modifies tree
    ensures tree.Valid() && tree.Value() == AddRelations(old(tree.Value()), RelationsOf(tokens))
  {
    var rels := RelationList(tokens);
    for i := 0 to |rels|
      invariant tree.Valid() && tree.Value() == AddRelations(old(tree.Value()), rels[..i])
    {
      AddRelationsStep(old(tree.Value()), rels, i);
      if tree.root.None? {
        tree.Plant(Ra(rels[i]));
      } else {
        tree.InsertNode(Ra(rels[i]), Relation);
      }
    }
    assert rels[..|rels|] == rels;
  }

  // ---------------------------------------------------------------------------
  // Selection

  /** `__create_valexprbinaryop`: the first non-whitespace token is the
      attribute, the second the operator (an unknown one fails the lookup),
      the third the literal; the scan stops there. */
  method CreateValExprBinaryOp(tokens: seq<Token>) returns (r: Result<Expr>)
    ensures r == Comparison(NonWsValues(tokens))
  {
    var leftDone, opDone := false, false;
    var left: Option<Expr>, op: Option<Op> := None, None;
    var i := 0;
    while i < |tokens|
      invariant 0 <= i <= |tokens|
      invariant var vs := NonWsValues(tokens[..i]);
                |vs| <= 2 && (leftDone <==> |vs| >= 1) && (opDone <==> |vs| == 2) &&
                left == (if |vs| >= 1 then Some(AttrRef(None, vs[0])) else None) &&
                op == (if |vs| == 2 then LookupCond(vs[1]) else None) &&
                (|vs| == 2 ==> op.Some?)
    {
      var t := tokens[i];
      ghost var vs := NonWsValues(tokens[..i]);
      assert tokens[..i + 1] == tokens[..i] + [t];
      NonWsSnoc(tokens[..i], t);
      if !t.isWhitespace {
        ghost var vs' := vs + [t.value];
        assert tokens == tokens[..i + 1] + tokens[i + 1..];
        NonWsAppend(tokens[..i + 1], tokens[i + 1..]);
        if !leftDone {
          left := Some(AttrRef(None, t.value));
          leftDone := true;
        } else if !opDone {
          var o := LookupCond(t.value);
          if o.None? {
            ComparisonIgnoresRest(vs', NonWsValues(tokens[i + 1..]));
            return Failure(KeyError(t.value));
          }
          op := o;
          opDone := true;
        } else {
          ComparisonIgnoresRest(vs', NonWsValues(tokens[i + 1..]));
          return Success(BinOp(op, left, Some(Number(t.value))));
        }
      }
      i := i + 1;
    }
    assert tokens[..i] == tokens;
    return Success(BinOp(op, left, None));
  }

  /** `__create_selection`: every comparison of the first WHERE group becomes
      a selection node wrapped around the tree, in clause order. With no tree,
      the first comparison fails: its operator lookup, or else the insertion. */
  method CreateSelection(tree: Tree, sel: seq<Token>) returns (err: Option<Error>)
    requires tree.Valid()
    modifies tree
    ensures tree.Valid()
    ensures ConditionsOf(sel).Failure? && old(tree.root).Some? ==> err == Some(ConditionsOf(sel).error)
    ensures ConditionsOf(sel).Success? && old(tree.root).Some? ==>
              err == None && tree.Value() == WrapAll(old(tree.Value()), SelWrappers(ConditionsOf(sel).value))
    ensures old(tree.root).None? ==>
              err == SelectionErrorWithoutTree(sel) && (err.None? ==> tree.Value() == old(tree.Value()))
  {
    if sel == [] {
      assert SelWrappers([]) == [];
      return None;
    }
    var children := sel[0].children;
    ghost var a0 := tree.Value();
    for i := 0 to |children|
      invariant tree.Valid()
      invariant CondsIn(children[..i]).Success?
      invariant a0.root.Some? ==> tree.Value() == WrapAll(a0, SelWrappers(CondsIn(children[..i]).value))
      invariant a0.root.None? ==> FirstComparison(children[..i]).None? && tree.Value() == a0
    {
      var t := children[i];
      ghost var done := CondsIn(children[..i]).value;
      CondsInStep(children, i);
      if a0.root.None? {
        FirstComparisonStep(children, i);
        if IsConditionToken(t) {
          FirstComparisonPrefix(children, i + 1);
        }
      }
      if !t.isWhitespace && t.normalized != "WHERE" && t.isComparison {
        var cond := CreateValExprBinaryOp(t.children);
        CondsInPrefix(children, i + 1);
        if cond.Failure? {
          return Some(cond.error);
        }
        if tree.root.None? {
          return Some(AttributeError);
        }
        SelWrapStep(a0, done, cond.value);
        tree.InsertNode(Ra(cond.value), Selection);
      }
    }
    assert children[..|children|] == children;
    return None;
  }

  // ---------------------------------------------------------------------------
  // Projection

  /** The comma scan of `__create_projection`: true when no child is ",". */
  method OnlyOneProjection(ts: seq<Token>) returns (onlyOne: bool)
    ensures onlyOne <==> !HasComma(ts)
  {
    onlyOne := true;
    var i := 0;
    while i < |ts|
      invariant 0 <= i <= |ts|
      invariant onlyOne && forall j :: 0 <= j < i ==> ts[j].value != ","
    {
      if ts[i].value == "," {
        onlyOne := false;
        assert HasComma(ts);
        break;
      }
      i := i + 1;
    }
  }

  /** The insertion loop of `__create_projection`: one projection node per
      token that is neither whitespace nor ",", in order. */
  method InsertProjections(tree: Tree, ts: seq<Token>) returns (err: Option<Error>)
    requires tree.Valid()
    modifies tree
    ensures tree.Valid()
    ensures old(tree.root).Some? ==> err == None && tree.Value() == WrapAll(old(tree.Value()), ProjWrappers(AttrNames(ts)))
    ensures old(tree.root).None? ==>
              err == (if AttrNames(ts) == [] then None else Some(AttributeError)) &&
              (err.None? ==> tree.Value() == old(tree.Value()))
  {
    ghost var a0 := tree.Value();
    for k := 0 to |ts|
      invariant tree.Valid()
      invariant a0.root.Some? ==> tree.Value() == WrapAll(a0, ProjWrappers(AttrNames(ts[..k])))
      invariant a0.root.None? ==> AttrNames(ts[..k]) == [] && tree.Value() == a0
    {
      var t := ts[k];
      ghost var done := AttrNames(ts[..k]);
      AttrNamesStep(ts, k);
      if t.isWhitespace || t.value == "," {
        assert AttrNames(ts[..k + 1]) == done;
      } else {
        assert AttrNames(ts[..k + 1]) == done + [t.value];
        if tree.root.None? {
          AttrNamesPrefix(ts, k + 1);
          return Some(AttributeError);
        }
        ProjWrapStep(a0, done, t.value);
        tree.InsertNode(Name(t.value), Projection);
      }
    }
    assert ts[..|ts|] == ts;
    return None;
  }

  /** `__create_projection`: nothing for `*`; one projection node on the whole
      first token when its children hold no comma; otherwise one projection
      node per child that is neither whitespace nor a comma, in order. */
  method CreateProjection(tree: Tree, proj: seq<Token>) returns (err: Option<Error>)
    requires tree.Valid()
    modifies tree
    ensures tree.Valid()
    ensures NamesOf(proj).Failure? ==> err == Some(NamesOf(proj).error)
    ensures NamesOf(proj).Success? && old(tree.root).Some? ==>
              err == None && tree.Value() == WrapAll(old(tree.Value()), ProjWrappers(NamesOf(proj).value))
    ensures old(tree.root).None? ==>
              err == ProjectionErrorWithoutTree(proj) && (err.None? ==> tree.Value() == old(tree.Value()))
  {
    if proj == [] {
      return Some(IndexError);
    }
    if proj[0].value == "*" {
      assert ProjWrappers([]) == [];
      return None;
    }
    if !proj[0].isGroup {
      return Some(AttributeError);
    }
    var children := proj[0].children;
    var onlyOne := OnlyOneProjection(children);
    ghost var a0 := tree.Value();
    if onlyOne {
      if tree.root.None? {
        return Some(AttributeError);
      }
      assert ProjWrappers([proj[0].value]) == [] + [Wrapper(Name(proj[0].value), Projection)];
      WrapAllSnoc(a0, [], Wrapper(Name(proj[0].value), Projection));
      tree.InsertNode(Name(proj[0].value), Projection);
      return None;
    }
    err := InsertProjections(tree, children);
  }

  lemma AttrNamesStep(ts: seq<Token>, k: nat)
    requires k < |ts|
    ensures AttrNames(ts[..k + 1]) ==
            AttrNames(ts[..k]) + (if ts[k].isWhitespace || ts[k].value == "," then [] else [ts[k].value])
  {
    assert ts[..k + 1][..k] == ts[..k];
  }

  // ---------------------------------------------------------------------------
  // Folding and the entry point

  /** `__create_ra_from_ra_tree`: the fold started at the leftmost leaf below
      the root; with no tree there is nothing to call it on. */
  method CreateRaFromRaTree(tree: Tree) returns (r: FoldResult)
    requires tree.Valid()
    modifies tree
    ensures tree.Valid() && tree.root == old(tree.root) && tree.dist == old(tree.dist)
    ensures old(tree.root).None? ==> r == Failed(AttributeError)
    ensures old(tree.root).Some? ==>
              (r, tree.nodes) == Fold(old(tree.nodes), tree.dist, LastLeft(old(tree.nodes), old(tree.root).value))
  {
    if tree.root.None? {
      return Failed(AttributeError);
    }
    var leaf := tree.LastLeftChild();
    r := tree.CreateRa(leaf);
  }

  /** What `translate` returns for the three token groups. With relations:
      the first error of the condition or the projection stage, or the fold of
      the tree they build. Without: the first stage error raised on the
      missing tree, or the fold's own on it. */
  function Translation(parts: Parts): (r: FoldResult)
    ensures !r.NoneReturned?
    ensures RelationsOf(parts.relation) == [] ==> r.Failed?
    ensures r.Done? ==> r.value.Ra?
  {
    if RelationsOf(parts.relation) == [] then
      match NoTreeError(parts)
      case Some(e) => Failed(e)
      case None => Failed(AttributeError)
    else
      match ConditionsOf(parts.selection)
      case Failure(e) => Failed(e)
      case Success(conds) =>
        match NamesOf(parts.projection)
        case Failure(e) => Failed(e)
        case Success(names) =>
          if |names| <= 2 then Done(Ra(Canonical(RelationsOf(parts.relation), conds, names)))
          else Failed(NotAnExpression)
  }

  /** The first error the selection and projection stages raise on no tree. */
  function NoTreeError(parts: Parts): (r: Option<Error>)
    ensures r.None? <==> ConditionsOf(parts.selection) == Success([]) && NamesOf(parts.projection) == Success([])
  {
    var s := SelectionErrorWithoutTree(parts.selection);
    if s.Some? then s else ProjectionErrorWithoutTree(parts.projection)
  }

  /** The three building stages of `translate` on a fresh tree: relations,
      then conditions, then projected names. With relations, the first error
      is that of the conditions, then that of the projection; without one,
      the tree is the layout the fold turns into the canonical expression.
      Without relations, the first error raised on the missing tree, and
      otherwise the tree stays empty. */
  method BuildTree(tree: Tree, parts: Parts) returns (err: Option<Error>)
    requires tree.Valid() && tree.root.None?
    modifies tree
    ensures tree.Valid()
    ensures RelationsOf(parts.relation) == [] ==> err == NoTreeError(parts) && (err.None? ==> tree.root.None?)
    ensures RelationsOf(parts.relation) != [] ==>
              match ConditionsOf(parts.selection)
              case Failure(e) => err == Some(e)
              case Success(conds) =>
                match NamesOf(parts.projection)
                case Failure(e) => err == Some(e)
                case Success(names) => err == None && Built(tree.Value(), RelationsOf(parts.relation), Pending(conds, names))
  {
    ghost var rels := RelationsOf(parts.relation);
    CreateRelation(tree, parts.relation);
    assert rels != [] ==> Built(tree.Value(), rels, []) by {
      if rels != [] {
        BuiltRelations(rels);
      }
    }
    ghost var a1 := tree.Value();
    err := CreateSelection(tree, parts.selection);
    if err.Some? {
      return;
    }
    ghost var conds := ConditionsOf(parts.selection).value;
    assert rels != [] ==> Built(tree.Value(), rels, SelWrappers(conds)) by {
      if rels != [] {
        BuiltWrapAll(a1, rels, [], SelWrappers(conds));
        assert [] + SelWrappers(conds) == SelWrappers(conds);
      }
    }
    ghost var a2 := tree.Value();
    err := CreateProjection(tree, parts.projection);
    if err.Some? {
      return;
    }
    if rels != [] {
      BuiltWrapAll(a2, rels, SelWrappers(conds), ProjWrappers(NamesOf(parts.projection).value));
    }
  }

  /** `translate`: every call starts from a fresh tree, so the result depends
      on the statement alone. A statement with relations translates to the
      canonical expression (or the first error); one whose FROM list yields no
      relation always fails, with the first error raised on the missing tree. */
  method Translate(ts: seq<Token>) returns (r: FoldResult)
    ensures Classify(ts).Failure? ==> r == Failed(Classify(ts).error)
    ensures Classify(ts).Success? ==> r == Translation(Classify(ts).value)
  {
    var tree := new Tree();
    var sep := SeparateTokens(ts);
    if sep.Failure? {
      return Failed(sep.error);
    }
    var parts := sep.value;
    var err := BuildTree(tree, parts);
    if err.Some? {
      return Failed(err.value);
    }
    ghost var rels := RelationsOf(parts.relation);
    if rels != [] {
      var conds, names := ConditionsOf(parts.selection).value, NamesOf(parts.projection).value;
      LastLeftIsFirstRelation(tree.Value(), rels, Pending(conds, names));
      FoldBuilt(tree.Value(), tree.dist, rels, conds, names);
    }
    r := CreateRaFromRaTree(tree);
  }
}
