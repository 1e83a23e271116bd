/** The expression forms the evaluator dispatches on. The language has no statements:
    declarations, blocks and assignments are expressions that produce a value. */
module Ast {

  /** The binary operator tokens `visit(BinaryOpExpr)` switches on; `Assign` is `=`. */
  datatype BinaryOp = Plus | Minus | Times | Divide | EqEq | BangEq | AndAnd | OrOr | Assign

  /** The prefix operator tokens `visit(PrefixExpr)` switches on. */
  datatype PrefixOp = Positive | Negative | Not

  datatype Expr =
    | NumberLit(n: int)
    | StringLit(s: string)
    | BooleanLit(b: bool)
    | NullLit
    | Name(name: string)
    | Binary(op: BinaryOp, left: Expr, right: Expr)
    | Prefix(prefixOp: PrefixOp, operand: Expr)
      /** `var target = init`; the target is a bare name or a member path `a.b`. */
    | VarDecl(target: Expr, init: Expr, mutable: bool)
      /** A member path `receiver.member`. */
    | Select(receiver: Expr, member: string)
    | Def(defName: string, defParams: seq<string>, defBody: Expr)
    | Block(lines: seq<Expr>)
    | Tuple(items: seq<Expr>)
    | Lambda(params: seq<string>, body: Expr)
    | Call(callee: Expr, args: seq<Expr>)
      /** Indexing `left[items]`, dispatched to the receiver's `get` member. */
    | Get(indexed: Expr, indices: seq<Expr>)
      /** A record literal; the fields in the order the parser's map yields them. */
    | Record(fields: seq<(string, Expr)>)
    | ClassDecl(className: string, classParams: seq<string>, classBody: seq<Expr>)

  /** The forms whose evaluation involves no subexpression. */
  predicate IsLeaf(e: Expr)
  {
    e.NumberLit? || e.StringLit? || e.BooleanLit? || e.NullLit? || e.Name? || e.Lambda?
  }

  /** The member an arithmetic or logical binary operator dispatches to, if it dispatches at all. */
  function BinaryMember(op: BinaryOp): (m: Option<string>)
    ensures m.Some? <==> op in {Plus, Minus, Times, Divide, AndAnd, OrOr}
    ensures m == Some("plus") <==> op == Plus
    ensures m == Some("minus") <==> op == Minus
    ensures m == Some("times") <==> op == Times
    ensures m == Some("divide") <==> op == Divide
    ensures m == Some("and") <==> op == AndAnd
    ensures m == Some("or") <==> op == OrOr
  {
    match op
    case Plus => Some("plus")
    case Minus => Some("minus")
    case Times => Some("times")
    case Divide => Some("divide")
    case AndAnd => Some("and")
    case OrOr => Some("or")
    case _ => None
  }

  /** The member a prefix operator dispatches to. */
  function PrefixMember(op: PrefixOp): (m: string)
    ensures m == "plus" <==> op == Positive
    ensures m == "minus" <==> op == Negative
    ensures m == "not" <==> op == Not
  {
    match op
    case Positive => "plus"
    case Negative => "minus"
    case Not => "not"
  }

  datatype Option<T> = None | Some(value: T)
}
