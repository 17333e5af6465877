/** Reference definitions of what each stage of the translator extracts from
    the token stream: the three token groups, the relations with their
    aliases, the WHERE conditions and the projected names. The imperative
    stages in module Sql2Ra are proved to compute exactly these. */
module QuerySpec {
  import opened Wrappers
  import opened Tokens
  import opened RaAst

  // ---------------------------------------------------------------------------
  // Token classification

  predicate IsFromKeyword(t: Token) {
    !t.isWhitespace && t.isKeyword && Lower(t.value) == "from"
  }

  /** The position of the first FROM keyword (any case), or |ts|. */
  function FromIndex(ts: seq<Token>): (r: nat)
    ensures r <= |ts|
    ensures forall i :: 0 <= i < r ==> !IsFromKeyword(ts[i])
    ensures r < |ts| ==> IsFromKeyword(ts[r])
  {
    if ts == [] then 0
    else if IsFromKeyword(ts[0]) then 0
    else 1 + FromIndex(ts[1..])
  }

  /** The tokens after the first FROM keyword. */
  function AfterFrom(ts: seq<Token>): seq<Token> {
    var f := FromIndex(ts);
    if f < |ts| then ts[f + 1..] else []
  }

  /** The tokens that are neither whitespace nor keywords, in order. */
  function Kept(ts: seq<Token>): (r: seq<Token>)
    ensures |r| <= |ts|
  {
    if ts == [] then []
    else
      var t := ts[|ts| - 1];
      assert ts == ts[..|ts| - 1] + [t];
      Kept(ts[..|ts| - 1]) + (if t.isWhitespace || t.isKeyword then [] else [t])
  }

  /** A WHERE clause: a group whose text starts with "where" in any case. */
  predicate IsWhereGroup(t: Token) {
    t.isGroup && Lower(Prefix(t.value, 5)) == "where"
  }

  function WhereGroups(ts: seq<Token>): seq<Token>
  {
    if ts == [] then []
    else WhereGroups(ts[..|ts| - 1]) + (if IsWhereGroup(ts[|ts| - 1]) then [ts[|ts| - 1]] else [])
  }

  function NonWhere(ts: seq<Token>): seq<Token>
  {
    if ts == [] then []
    else NonWhere(ts[..|ts| - 1]) + (if IsWhereGroup(ts[|ts| - 1]) then [] else [ts[|ts| - 1]])
  }

  /** WhereGroups and NonWhere split a token list between them. */
  lemma {:induction false} WherePartition(ts: seq<Token>)
    ensures multiset(WhereGroups(ts)) + multiset(NonWhere(ts)) == multiset(ts)
  {
    if ts != [] {
      var init, t := ts[..|ts| - 1], ts[|ts| - 1];
      assert ts == init + [t];
      WherePartition(init);
      WhereStep(init, t);
      assert multiset(ts) == multiset(init) + multiset{t};
    }
  }

  lemma WhereStep(init: seq<Token>, t: Token)
    ensures multiset(WhereGroups(init + [t])) + multiset(NonWhere(init + [t])) ==
            multiset(WhereGroups(init)) + multiset(NonWhere(init)) + multiset{t}
  {
    WhereSnoc(init, t);
  }

  lemma KeptSnoc(ts: seq<Token>, t: Token)
    ensures Kept(ts + [t]) == Kept(ts) + (if t.isWhitespace || t.isKeyword then [] else [t])
  {
    assert (ts + [t])[..|ts|] == ts;
  }

  lemma WhereSnoc(ts: seq<Token>, t: Token)
    ensures WhereGroups(ts + [t]) == WhereGroups(ts) + (if IsWhereGroup(t) then [t] else [])
    ensures NonWhere(ts + [t]) == NonWhere(ts) + (if IsWhereGroup(t) then [] else [t])
  {
    assert (ts + [t])[..|ts|] == ts;
  }

  /** Each token replaced by its children when it has any, one level deep. */
  function FlattenOnce(ts: seq<Token>): (r: seq<Token>)
    ensures (forall i :: 0 <= i < |ts| ==> !ts[i].isGroup) ==> r == ts
  {
    if ts == [] then []
    else
      var t := ts[|ts| - 1];
      assert ts == ts[..|ts| - 1] + [t];
      FlattenOnce(ts[..|ts| - 1]) + (if t.isGroup then t.children else [t])
  }

  /** `__get_all_relation_tokens__`: the children of the first relation token,
      each flattened one level; the other relation tokens are not looked at. */
  function RelationTokens(raw: seq<Token>): (r: Result<seq<Token>>)
    ensures raw == [] ==> r == Failure(IndexError)
    ensures raw != [] && !raw[0].isGroup ==> r == Failure(AttributeError)
  {
    if raw == [] then Failure(IndexError)
    else if !raw[0].isGroup then Failure(AttributeError)
    else Success(FlattenOnce(raw[0].children))
  }

  datatype Parts = Parts(relation: seq<Token>, selection: seq<Token>, projection: seq<Token>)

  /** `__separate_tokens`: projection tokens before FROM, WHERE groups and the
      flattened relation tokens after it. */
  function Classify(ts: seq<Token>): (r: Result<Parts>)
    ensures FromIndex(ts) == |ts| ==> r == Failure(IndexError)
    ensures r.Failure? ==> r.error == IndexError || r.error == AttributeError
  {
    var after := Kept(AfterFrom(ts));
    match RelationTokens(NonWhere(after))
    case Failure(e) => Failure(e)
    case Success(rel) => Success(Parts(rel, WhereGroups(after), Kept(ts[..FromIndex(ts)])))
  }

  // ---------------------------------------------------------------------------
  // Relations

  /** One value added to the segments: a "," opens a new segment, any other
      value extends the last one. */
  function SplitStep(s: seq<seq<string>>, v: string): (r: seq<seq<string>>)
    requires |s| >= 1
    ensures |r| >= 1
  {
    if v == "," then s + [[]] else s[..|s| - 1] + [s[|s| - 1] + [v]]
  }

  /** The non-whitespace values cut at every ",": one segment per relation
      entry (an empty segment where two commas meet). */
  function SplitCommas(vs: seq<string>): (r: seq<seq<string>>)
    ensures |r| >= 1
  {
    if vs == [] then [[]] else SplitStep(SplitCommas(vs[..|vs| - 1]), vs[|vs| - 1])
  }

  /** A relation under the aliases that follow it, innermost first. */
  function Aliased(name: string, aliases: seq<string>): (r: Expr)
    ensures aliases == [] ==> r == RelRef(name)
    ensures aliases != [] ==> r.Rename? && r.relname == None && r.attrnames == [aliases[|aliases| - 1] + ": *"]
  {
    if aliases == [] then RelRef(name)
    else Rename(None, [aliases[|aliases| - 1] + ": *"], Aliased(name, aliases[..|aliases| - 1]))
  }

  /** One relation per non-empty segment: its first value renamed by the others. */
  function BuildRelations(segs: seq<seq<string>>): seq<Expr> {
    if segs == [] then []
    else
      var seg := segs[|segs| - 1];
      BuildRelations(segs[..|segs| - 1]) + (if seg == [] then [] else [Aliased(seg[0], seg[1..])])
  }

  function RelationsOf(tokens: seq<Token>): (r: seq<Expr>)
    ensures NonWsValues(tokens) == [] ==> r == []
  {
    BuildCommaStep([]);
    BuildRelations(SplitCommas(NonWsValues(tokens)))
  }

  lemma SplitSnoc(vs: seq<string>, v: string)
    ensures SplitCommas(vs + [v]) == SplitStep(SplitCommas(vs), v)
  {
    assert (vs + [v])[..|vs|] == vs;
  }

  lemma SplitStepAppend(sa: seq<seq<string>>, sb: seq<seq<string>>, v: string)
    requires |sb| >= 1
    ensures SplitStep(sa + sb, v) == sa + SplitStep(sb, v)
  {
    var s := sa + sb;
    if v != "," {
      assert s[..|s| - 1] == sa + sb[..|sb| - 1];
    }
  }

  /** A comma ends one relation entry and starts the next. */
  lemma {:induction false} SplitCommasAppend(a: seq<string>, b: seq<string>)
    ensures SplitCommas(a + [","] + b) == SplitCommas(a) + SplitCommas(b)
    decreases |b|
  {
    if b == [] {
      assert a + [","] + b == a + [","];
      SplitSnoc(a, ",");
    } else {
      var b', v := b[..|b| - 1], b[|b| - 1];
      assert a + [","] + b == (a + [","] + b') + [v];
      assert b == b' + [v];
      SplitCommasAppend(a, b');
      SplitSnoc(a + [","] + b', v);
      SplitSnoc(b', v);
      SplitStepAppend(SplitCommas(a), SplitCommas(b'), v);
    }
  }

  /** Relations are built segment by segment. */
  lemma {:induction false} BuildRelationsAppend(x: seq<seq<string>>, y: seq<seq<string>>)
    ensures BuildRelations(x + y) == BuildRelations(x) + BuildRelations(y)
    decreases |y|
  {
    if y == [] {
      assert x + y == x;
    } else {
      var y', seg := y[..|y| - 1], y[|y| - 1];
      assert (x + y)[..|x + y| - 1] == x + y';
      assert (x + y)[|x + y| - 1] == seg;
      BuildRelationsAppend(x, y');
    }
  }

  /** The relations of a FROM list are those of the part before a comma
      followed by those of the part after it. */
  lemma RelationsAtComma(t1: seq<Token>, comma: Token, t2: seq<Token>)
    requires comma.value == "," && !comma.isWhitespace
    ensures RelationsOf(t1 + [comma] + t2) == RelationsOf(t1) + RelationsOf(t2)
  {
    NonWsAppend(t1 + [comma], t2);
    NonWsAppend(t1, [comma]);
    assert NonWsValues([comma]) == [","] by {
      assert [comma][..0] == [];
    }
    SplitCommasAppend(NonWsValues(t1), NonWsValues(t2));
    BuildRelationsAppend(SplitCommas(NonWsValues(t1)), SplitCommas(NonWsValues(t2)));
  }

  lemma {:induction false} SplitNoComma(vs: seq<string>)
    requires forall i :: 0 <= i < |vs| ==> vs[i] != ","
    ensures SplitCommas(vs) == [vs]
    decreases |vs|
  {
    if vs != [] {
      SplitNoComma(vs[..|vs| - 1]);
      assert vs[..|vs| - 1] + [vs[|vs| - 1]] == vs;
    }
  }

  /** One entry without a comma, `name alias1 alias2 ...`, is one relation:
      the named relation under its aliases. */
  lemma RelationEntry(tokens: seq<Token>, name: string, aliases: seq<string>)
    requires NonWsValues(tokens) == [name] + aliases && name != ","
    requires forall i :: 0 <= i < |aliases| ==> aliases[i] != ","
    ensures RelationsOf(tokens) == [Aliased(name, aliases)]
  {
    var vs := [name] + aliases;
    assert forall i :: 0 <= i < |vs| ==> vs[i] != "," by {
      forall i | 0 <= i < |vs| ensures vs[i] != "," {
        if i > 0 { assert vs[i] == aliases[i - 1]; }
      }
    }
    SplitNoComma(vs);
    BuildSingle(vs);
    assert vs[0] == name && vs[1..] == aliases;
  }

  lemma BuildSingle(seg: seq<string>)
    requires seg != []
    ensures BuildRelations([seg]) == [Aliased(seg[0], seg[1..])]
  {
    assert [seg][..0] == [];
  }

  /** A "," closes the current entry without adding a relation. */
  lemma BuildCommaStep(segs: seq<seq<string>>)
    ensures BuildRelations(segs + [[]]) == BuildRelations(segs)
  {
    assert (segs + [[]])[..|segs|] == segs;
  }

  /** Any other value starts a relation when the current entry is empty... */
  lemma BuildValueFresh(segs: seq<seq<string>>, v: string)
    requires |segs| >= 1 && v != "," && segs[|segs| - 1] == []
    ensures var s := SplitStep(segs, v); s[|s| - 1] != []
    ensures BuildRelations(SplitStep(segs, v)) == BuildRelations(segs) + [RelRef(v)]
  {
    var init := segs[..|segs| - 1];
    var segs' := SplitStep(segs, v);
    assert segs'[..|segs'| - 1] == init && segs'[|segs'| - 1] == [v];
    assert segs == init + [[]];
    BuildCommaStep(init);
  }

  /** ... and renames the last relation otherwise. */
  lemma BuildValueRename(segs: seq<seq<string>>, v: string)
    requires |segs| >= 1 && v != "," && segs[|segs| - 1] != []
    ensures var s := SplitStep(segs, v); s[|s| - 1] != []
    ensures var b := BuildRelations(segs);
            b != [] && BuildRelations(SplitStep(segs, v)) == b[|b| - 1 := Rename(None, [v + ": *"], b[|b| - 1])]
  {
    var init, last := segs[..|segs| - 1], segs[|segs| - 1];
    var segs' := SplitStep(segs, v);
    assert segs'[..|segs'| - 1] == init && segs'[|segs'| - 1] == last + [v];
    var b := BuildRelations(segs);
    assert b == BuildRelations(init) + [Aliased(last[0], last[1..])];
    assert (last + [v])[1..] == last[1..] + [v];
    assert (last[1..] + [v])[..|last[1..]|] == last[1..];
    assert b[|b| - 1 := Rename(None, [v + ": *"], b[|b| - 1])] ==
           BuildRelations(init) + [Rename(None, [v + ": *"], Aliased(last[0], last[1..]))];
  }

  // ---------------------------------------------------------------------------
  // Conditions

  /** A comparison from its non-whitespace parts: the first is the attribute,
      the second the operator looked up in the condition table, the third the
      literal; later parts are ignored and missing ones stay unset. */
  function Comparison(parts: seq<string>): (r: Result<Expr>)
    ensures r.Failure? <==> |parts| >= 2 && LookupCond(parts[1]).None?
    ensures r.Failure? ==> r.error == KeyError(parts[1])
    ensures r.Success? ==>
              r.value == BinOp(if |parts| >= 2 then LookupCond(parts[1]) else None,
                               if |parts| >= 1 then Some(AttrRef(None, parts[0])) else None,
                               if |parts| >= 3 then Some(Number(parts[2])) else None)
  {
    if parts == [] then Success(BinOp(None, None, None))
    else if |parts| == 1 then Success(BinOp(None, Some(AttrRef(None, parts[0])), None))
    else
      match LookupCond(parts[1])
      case None => Failure(KeyError(parts[1]))
      case Some(op) =>
        if |parts| == 2 then Success(BinOp(Some(op), Some(AttrRef(None, parts[0])), None))
        else Success(BinOp(Some(op), Some(AttrRef(None, parts[0])), Some(Number(parts[2]))))
  }

  /** A WHERE child that yields a condition. */
  predicate IsConditionToken(t: Token) {
    !t.isWhitespace && t.normalized != "WHERE" && t.isComparison
  }

  /** The conditions of the comparison children, in order; the first failing
      comparison decides the error. */
  function CondsIn(ts: seq<Token>): (r: Result<seq<Expr>>)
    ensures r.Success? ==> |r.value| <= |ts|
    ensures r.Failure? ==> r.error.KeyError?
  {
    if ts == [] then Success([])
    else
      var t := ts[|ts| - 1];
      var prev := CondsIn(ts[..|ts| - 1]);
      if prev.Failure? || !IsConditionToken(t) then prev
      else
        match Comparison(NonWsValues(t.children))
        case Failure(e) => Failure(e)
        case Success(c) => Success(prev.value + [c])
  }

  /** `__create_selection`: only the first WHERE group is read. */
  function ConditionsOf(sel: seq<Token>): (r: Result<seq<Expr>>)
    ensures sel == [] ==> r == Success([])
    ensures r.Failure? ==> r.error.KeyError?
  {
    if sel == [] then Success([]) else CondsIn(sel[0].children)
  }

  /** The comparison of the first condition child, if there is one. Before
      any tree exists, it decides what `__create_selection` raises. */
  function FirstComparison(ts: seq<Token>): (r: Option<Result<Expr>>)
    ensures r.None? <==> CondsIn(ts) == Success([])
    ensures r.Some? && r.value.Failure? ==> CondsIn(ts) == Failure(r.value.error)
  {
    if ts == [] then None
    else
      var t := ts[|ts| - 1];
      var prev := FirstComparison(ts[..|ts| - 1]);
      if prev.Some? then prev
      else if IsConditionToken(t) then Some(Comparison(NonWsValues(t.children)))
      else None
  }

  /** What `__create_selection` raises when there is no tree: the first
      comparison's lookup error, or else the failed insertion's. */
  function SelectionErrorWithoutTree(sel: seq<Token>): (r: Option<Error>)
    ensures r.None? <==> ConditionsOf(sel) == Success([])
    ensures r.Some? ==> r.value == AttributeError || r.value.KeyError?
  {
    if sel == [] then None
    else
      match FirstComparison(sel[0].children)
      case None => None
      case Some(Failure(e)) => Some(e)
      case Some(Success(_)) => Some(AttributeError)
  }

  lemma FirstComparisonStep(ts: seq<Token>, i: nat)
    requires i < |ts| && FirstComparison(ts[..i]).None?
    ensures FirstComparison(ts[..i + 1]) ==
            if IsConditionToken(ts[i]) then Some(Comparison(NonWsValues(ts[i].children))) else None
  {
    assert ts[..i + 1][..i] == ts[..i];
  }

  /** Once a condition child has been met, the rest of the scan does not
      change the first comparison. */
  lemma {:induction false} FirstComparisonPrefix(ts: seq<Token>, i: nat)
    requires i <= |ts| && FirstComparison(ts[..i]).Some?
    ensures FirstComparison(ts) == FirstComparison(ts[..i])
    decreases |ts| - i
  {
    if i == |ts| {
      assert ts[..i] == ts;
    } else {
      var init := ts[..|ts| - 1];
      assert init[..i] == ts[..i];
      FirstComparisonPrefix(init, i);
    }
  }

  /** A comparison is decided by its first three parts; once the operator
      lookup has failed, later parts do not matter either. */
  lemma ComparisonIgnoresRest(parts: seq<string>, more: seq<string>)
    requires |parts| >= 3 || (|parts| == 2 && LookupCond(parts[1]).None?)
    ensures Comparison(parts + more) == Comparison(parts)
  {
    assert (parts + more)[0] == parts[0] && (parts + more)[1] == parts[1];
    if |parts| >= 3 {
      assert (parts + more)[2] == parts[2];
    }
  }

  lemma CondsInStep(ts: seq<Token>, i: nat)
    requires i < |ts| && CondsIn(ts[..i]).Success?
    ensures !IsConditionToken(ts[i]) ==> CondsIn(ts[..i + 1]) == CondsIn(ts[..i])
    ensures IsConditionToken(ts[i]) ==>
              CondsIn(ts[..i + 1]) == match Comparison(NonWsValues(ts[i].children))
                                      case Failure(e) => Failure(e)
                                      case Success(c) => Success(CondsIn(ts[..i]).value + [c])
  {
    assert ts[..i + 1][..i] == ts[..i];
  }

  /** Scanning further never revokes a failure and only adds conditions. */
  lemma {:induction false} CondsInPrefix(ts: seq<Token>, i: nat)
    requires i <= |ts|
    ensures CondsIn(ts[..i]).Failure? ==> CondsIn(ts) == CondsIn(ts[..i])
    ensures CondsIn(ts[..i]).Success? && CondsIn(ts).Success? ==> CondsIn(ts[..i]).value <= CondsIn(ts).value
    decreases |ts| - i
  {
    if i == |ts| {
      assert ts[..i] == ts;
    } else {
      var init := ts[..|ts| - 1];
      assert init[..i] == ts[..i];
      CondsInPrefix(init, i);
    }
  }

  // ---------------------------------------------------------------------------
  // Projection

  predicate HasComma(ts: seq<Token>) {
    exists i :: 0 <= i < |ts| && ts[i].value == ","
  }

  /** The values of the tokens that are neither whitespace nor ",". */
  function AttrNames(ts: seq<Token>): (r: seq<string>)
    ensures |r| <= |ts|
  {
    if ts == [] then []
    else
      var t := ts[|ts| - 1];
      AttrNames(ts[..|ts| - 1]) + (if t.isWhitespace || t.value == "," then [] else [t.value])
  }

  /** `__create_projection`: no name for `*`, the whole first token's text when
      its children hold no comma, and otherwise every child that is neither
      whitespace nor a comma. */
  function NamesOf(proj: seq<Token>): (r: Result<seq<string>>)
    ensures proj == [] ==> r == Failure(IndexError)
    ensures proj != [] && proj[0].value == "*" ==> r == Success([])
    ensures r.Failure? ==> r.error == IndexError || r.error == AttributeError
    ensures r.Success? && r.value != [] ==> proj[0].isGroup && (|r.value| == 1 || HasComma(proj[0].children))
  {
    if proj == [] then Failure(IndexError)
    else if proj[0].value == "*" then Success([])
    else if !proj[0].isGroup then Failure(AttributeError)
    else if !HasComma(proj[0].children) then Success([proj[0].value])
    else Success(AttrNames(proj[0].children))
  }

  /** What `__create_projection` raises when there is no tree: its own
      index or attribute error, or else the failed insertion of the first
      name. */
  function ProjectionErrorWithoutTree(proj: seq<Token>): (r: Option<Error>)
    ensures r.None? <==> NamesOf(proj) == Success([])
    ensures r.Some? ==> r.value == IndexError || r.value == AttributeError
  {
    match NamesOf(proj)
    case Failure(e) => Some(e)
    case Success(names) => if names == [] then None else Some(AttributeError)
  }

  lemma {:induction false} AttrNamesPrefix(ts: seq<Token>, i: nat)
    requires i <= |ts|
    ensures AttrNames(ts[..i]) <= AttrNames(ts)
    decreases |ts| - i
  {
    if i == |ts| {
      assert ts[..i] == ts;
    } else {
      var init := ts[..|ts| - 1];
      assert init[..i] == ts[..i];
      AttrNamesPrefix(init, i);
    }
  }
}
