/**
 * The fragment of Go's syntax tree (package go/ast) that the argument check
 * looks at. Every node shape the check does not distinguish (parenthesised
 * expressions, index expressions, composite literals, statements, ...) is
 * folded into `Other`. Positions are abstract integers.
 */
module Ast {

  /** The token kind of a basic literal. */
  datatype LitKind = INT | FLOAT | IMAG | CHAR | STRING

  /** A basic literal: its position, its kind and its raw source text. */
  datatype BasicLit = BasicLit(pos: int, kind: LitKind, value: string)

  /** A binary expression `x op y`. */
  datatype BinaryExpr = BinaryExpr(x: Expr, op: string, y: Expr)

  /** A selector expression `x.sel`; `sel` is the selected identifier's name. */
  datatype SelectorExpr = SelectorExpr(x: Expr, sel: string)

  /** A call expression `fun(args...)`. */
  datatype CallExpr = CallExpr(fun: Expr, args: seq<Expr>)

  /** A syntax-tree node, as far as the argument check can tell them apart. */
  datatype Expr =
    | Lit(lit: BasicLit)
    | Binary(bin: BinaryExpr)
    | Selector(selector: SelectorExpr)
    | Ident(name: string)
    | Call(call: CallExpr)
    | Other

  /** The dynamic type of a node, as a traversal driver filters on it. */
  datatype NodeKind = BasicLitKind | BinaryExprKind | SelectorExprKind | IdentKind | CallExprKind | OtherKind

  function KindOf(n: Expr): NodeKind {
    match n
    case Lit(_) => BasicLitKind
    case Binary(_) => BinaryExprKind
    case Selector(_) => SelectorExprKind
    case Ident(_) => IdentKind
    case Call(_) => CallExprKind
    case Other => OtherKind
  }
}
