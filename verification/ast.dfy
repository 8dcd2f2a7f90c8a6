/**
 * An abstract rendering of the parts of Go's syntax tree, type information and
 * control-flow graphs that the analyzers read.
 *
 * Identifier resolution (the type checker's Uses/Defs tables) is an input: an
 * `Info` maps the position of an identifier occurrence to the object it names.
 * A control-flow graph is a sequence of blocks; a block's successors are
 * indices into that sequence.
 */
module Ast {
  import opened Wrappers

  /** A source position; 0 stands for "no position". */
  type Pos = nat

  /** An identifier occurrence; its position identifies the occurrence. */
  datatype Ident = Ident(name: string, pos: Pos)

  /** A resolved object: the position of its declaration, its name and its type rendered as a string. */
  datatype Object = Object(pos: Pos, name: string, typ: string)

  /** Identifier resolution, keyed by the position of the identifier occurrence. */
  datatype Info = Info(uses: map<Pos, Object>, defs: map<Pos, Object>)

  /** `And` is the address-of operator `&`. */
  datatype UnaryOp = And | OtherUnaryOp

  /** `Assign` is `=`, `Define` is `:=`, `OpAssign` covers `+=`, `-=` and the other compound forms. */
  datatype AssignTok = Assign | Define | OpAssign

  datatype DeclTok = Var | Const | Type

  /** The kinds a basic literal can have. */
  datatype LitKind = STRING | CHAR | INT | FLOAT | IMAG

  datatype Expr =
    | Name(id: Ident)
    | BasicLit(kind: LitKind, pos: Pos)
    | Unary(op: UnaryOp, x: Expr)
    | Selector(x: Expr, sel: Ident)
    | Call(fun: Expr, args: seq<Expr>)
    | KeyValue(key: Expr, value: Expr)
    | FuncLitExpr(lit: FuncLit)
      /** Every other expression (binary, index, star, paren, composite literal, type
          expressions, ...), given by its sub-expressions in source order. */
    | OtherExpr(parts: seq<Expr>)

  /** One entry of a parameter or result list: `a, b int` has two names. */
  datatype Field = Field(names: seq<Ident>, typ: Expr)

  datatype FuncType = FuncType(params: seq<Field>, results: seq<Field>)

  /** A function literal: its signature, its body, and the control-flow graph built for it. */
  datatype FuncLit = FuncLit(typ: FuncType, body: seq<Stmt>, flow: seq<Block>)

  /** `var a, b = x, y` (no values for a bare declaration). */
  datatype ValueSpec = ValueSpec(names: seq<Ident>, values: seq<Expr>)

  datatype Spec = VSpec(vs: ValueSpec) | TSpec(name: Ident, typ: Expr)

  /** The left-hand side of a `range` clause: none, `k, v :=`, or `k, v =`. */
  datatype RangeVars =
    | NoVars
    | Defines(defKey: Ident, defValue: Option<Ident>)
    | Assigns(key: Expr, value: Option<Expr>)

  datatype Stmt =
    | DeclStmt(declTok: DeclTok, specs: seq<Spec>)
    | AssignStmt(lhs: seq<Expr>, tok: AssignTok, rhs: seq<Expr>)
    | GoStmt(fun: Expr, args: seq<Expr>)
    | DeferStmt(fun: Expr, args: seq<Expr>)
    | ExprStmt(x: Expr)
    | ReturnStmt(results: seq<Expr>)
    | RangeStmt(vars: RangeVars, x: Expr, body: seq<Stmt>)
      /** Every other statement (if, for, switch, block, inc/dec, ...), given by its
          child statements and expressions in source order. */
    | OtherStmt(parts: seq<Node>)

  /** What a control-flow block holds: statements, expressions and value specs. */
  datatype Node = StmtNode(s: Stmt) | ExprNode(e: Expr) | SpecNode(vs: ValueSpec)

  /**
   * A top-level declaration of a file: a function or method, or a declaration group.
   * A function declared without a body (implemented outside Go) has `body == None`.
   */
  datatype TopDecl =
    | FuncDecl(recv: seq<Field>, name: Ident, typ: FuncType, body: Option<seq<Stmt>>)
    | GenDeclTop(tok: DeclTok, specs: seq<Spec>)

  /** Only the two loop kinds matter to the analyses. */
  datatype BlockKind = KindForLoop | KindForBody | KindOther

  /**
   * A control-flow block: its kind, whether it is reachable, its successors (indices),
   * its nodes, and the position and label (`else`, `case 3`, ...) identifying the branch.
   */
  datatype Block = Block(kind: BlockKind, live: bool, succs: seq<nat>, nodes: seq<Node>, pos: Pos, comment: string)
}
