/** The relational-algebra nodes the translator builds (the vocabulary of the
    external algebra library), the condition-operator table, and the canonical
    translation of a query, against which the tree assembler is proved. */
module RaAst {
  import opened Wrappers

  /** Binary operators of conditions. */
  datatype Op = Eq | And

  /** An algebra expression. A condition leaves an operator or operand unset
      (Python's None) when its comparison had fewer than three parts. */
  datatype Expr =
    | RelRef(rel: string)
    | Rename(relname: Option<string>, attrnames: seq<string>, input: Expr)
    | Cross(left: Expr, right: Expr)
    | Select(cond: Expr, input: Expr)
    | Project(attrs: seq<Expr>, input: Expr)
    | AttrRef(qualifier: Option<string>, name: string)
    | BinOp(op: Option<Op>, lhs: Option<Expr>, rhs: Option<Expr>)
    | Number(literal: string)

  /** The opcode the algebra library gives each operator. */
  function Code(op: Op): (c: int)
    ensures c == 43 <==> op == Eq
    ensures c == 11 <==> op == And
  {
    match op
    case Eq => 43
    case And => 11
  }

  /** The condition table: only "=" and "and" are known; any other key is a
      lookup failure. */
  function LookupCond(key: string): (r: Option<Op>)
    ensures r.Some? <==> key == "=" || key == "and"
    ensures r == Some(Eq) <==> key == "="
    ensures r.Some? ==> Code(r.value) == (if key == "=" then 43 else 11)
  {
    if key == "=" then Some(Eq)
    else if key == "and" then Some(And)
    else None
  }

  /** The conjunction of two conditions. */
  function Conj(l: Expr, r: Expr): Expr {
    BinOp(Some(And), Some(l), Some(r))
  }

  /** The left-deep cross product of the relations, in order:
      `(((R1 x R2) x R3) x ...)`. */
  function CrossChain(rels: seq<Expr>): (r: Expr)
    requires |rels| >= 1
    ensures |rels| == 1 ==> r == rels[0]
    ensures |rels| > 1 ==> r.Cross? && r.right == rels[|rels| - 1]
  {
    if |rels| == 1 then rels[0]
    else Cross(CrossChain(rels[..|rels| - 1]), rels[|rels| - 1])
  }

  /** The left-nested conjunction of the conditions, in clause order:
      `((c1 and c2) and c3) ...`. */
  function AndChain(conds: seq<Expr>): (r: Expr)
    requires |conds| >= 1
    ensures |conds| == 1 ==> r == conds[0]
    ensures |conds| > 1 ==> r.BinOp? && r.op == Some(And) && r.rhs == Some(conds[|conds| - 1])
  {
    if |conds| == 1 then conds[0]
    else Conj(AndChain(conds[..|conds| - 1]), conds[|conds| - 1])
  }

  /** The attribute list of a projection over the given names. */
  function AttrList(names: seq<string>): (r: seq<Expr>)
    ensures |r| == |names|
    ensures forall i :: 0 <= i < |names| ==> r[i] == AttrRef(None, names[i])
  {
    if names == [] then [] else [AttrRef(None, names[0])] + AttrList(names[1..])
  }

  /** The canonical translation of `SELECT DISTINCT names FROM rels WHERE conds`:
      one selection holding the conjunction of every condition (none when there
      is no condition) over the cross product of the relations, under one
      projection on the names (none for `*`). */
  function Canonical(rels: seq<Expr>, conds: seq<Expr>, names: seq<string>): Expr
    requires |rels| >= 1
  {
    var body := if conds == [] then CrossChain(rels) else Select(AndChain(conds), CrossChain(rels));
    if names == [] then body else Project(AttrList(names), body)
  }
}
