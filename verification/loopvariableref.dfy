/**
 * The `loopvariableref` check: a variable declared by a `for ... := range` clause must
 * not escape an iteration, neither by having its address taken nor by being captured
 * by a function literal.
 *
 * The walk keeps a stack of layers. A range clause adds its variables to the top layer;
 * a function literal and a `return` statement each push a layer for their extent. A
 * use is judged by scanning the layers from the top down to the one declaring the
 * variable: crossing a function layer makes the use risky, crossing a `return` layer
 * makes it safe again (the loop will not iterate past a return), and the crossing
 * nearest the declaring layer decides. Taking an address is risky from the start.
 */
module LoopVariableRef {
  import opened Wrappers
  import opened Ast

  datatype LayerKind = BaseLayer | FuncLayer | ReturnLayer

  /** A layer and the declaration positions of the loop variables added to it. */
  datatype Layer = Layer(kind: LayerKind, decls: seq<Pos>)

  datatype Context = ReferenceTo | ReferenceToChildOf | CaptureOf

  datatype Report = Report(pos: Pos, name: string, context: Context)

  /** The walk's state: the layer stack, the uses already judged, and the reports so far. */
  datatype State = State(stack: seq<Layer>, seen: set<Pos>, reports: seq<Report>)

  /** The risky flag after scanning past a layer of this kind. */
  function After(kind: LayerKind, risky: bool): bool {
    match kind
    case FuncLayer => true
    case ReturnLayer => false
    case BaseLayer => risky
  }

  /** Scans the layers `n-1` down to `0` for `decl`: the risky flag at the declaring layer, or none. */
  function Scan(stack: seq<Layer>, decl: Pos, n: nat, risky: bool): (r: Option<bool>)
    requires n <= |stack|
    ensures r.Some? <==> exists i :: 0 <= i < n && decl in stack[i].decls
  {
    if n == 0 then None
    else if decl in stack[n - 1].decls then Some(risky)
    else Scan(stack, decl, n - 1, After(stack[n - 1].kind, risky))
  }

  /** `at` is the highest layer below `n` declaring `decl`. */
  predicate DeclaredAt(stack: seq<Layer>, decl: Pos, n: nat, at: nat) {
    at < n <= |stack| && decl in stack[at].decls && forall k :: at < k < n ==> decl !in stack[k].decls
  }

  /** Only plain layers lie strictly between `lo` and `hi`. */
  predicate OnlyBase(stack: seq<Layer>, lo: nat, hi: nat)
    requires hi <= |stack|
  {
    forall m :: lo < m < hi ==> stack[m].kind == BaseLayer
  }

  /**
   * A use at the top of `stack[..n]` of a variable declared at layer `at` is risky: the
   * nearest function or return layer above `at` is a function layer, or there is none
   * and the use started risky.
   */
  predicate RiskyBetween(stack: seq<Layer>, at: nat, n: nat, risky: bool)
    requires n <= |stack|
  {
    || (exists k :: at < k < n && stack[k].kind == FuncLayer && OnlyBase(stack, at, k))
    || (risky && OnlyBase(stack, at, n))
  }

  /** The scan's verdict is the nearest crossing rule. */
  lemma {:induction false} ScanRisk(stack: seq<Layer>, decl: Pos, n: nat, risky: bool)
    requires n <= |stack|
    ensures Scan(stack, decl, n, risky).Some? ==>
      exists at :: DeclaredAt(stack, decl, n, at) && (Scan(stack, decl, n, risky).value <==> RiskyBetween(stack, at, n, risky))
    decreases n
  {
    if n > 0 && decl !in stack[n - 1].decls && Scan(stack, decl, n, risky).Some? {
      var top := stack[n - 1];
      var risky' := After(top.kind, risky);
      ScanRisk(stack, decl, n - 1, risky');
      var at :| DeclaredAt(stack, decl, n - 1, at)
        && (Scan(stack, decl, n - 1, risky').value <==> RiskyBetween(stack, at, n - 1, risky'));
      assert DeclaredAt(stack, decl, n, at);
      match top.kind
      case BaseLayer =>
        assert RiskyBetween(stack, at, n - 1, risky') <==> RiskyBetween(stack, at, n, risky);
      case FuncLayer =>
        if OnlyBase(stack, at, n - 1) {
          assert RiskyBetween(stack, at, n, risky);
        }
        assert RiskyBetween(stack, at, n - 1, risky') <==> RiskyBetween(stack, at, n, risky);
      case ReturnLayer =>
        assert !OnlyBase(stack, at, n);
        assert RiskyBetween(stack, at, n - 1, risky') <==> RiskyBetween(stack, at, n, risky);
    } else if n > 0 && decl in stack[n - 1].decls {
      assert DeclaredAt(stack, decl, n, n - 1);
    }
  }

  /** Some layer declares `decl`. */
  ghost predicate Declared(stack: seq<Layer>, decl: Pos) {
    exists i :: 0 <= i < |stack| && decl in stack[i].decls
  }

  /** A use of `decl` starting with flag `risky` is risky at the layer declaring it. */
  ghost predicate RiskyUse(stack: seq<Layer>, decl: Pos, risky: bool) {
    exists at :: DeclaredAt(stack, decl, |stack|, at) && RiskyBetween(stack, at, |stack|, risky)
  }

  /**
   * Judges a use of `ident`. An unresolved identifier is ignored; a use of a variable
   * no layer declares is neither reported nor remembered; otherwise the use is
   * remembered, and reported when it is risky at the declaring layer.
   */
  function Check(info: Info, initialRisky: bool, context: Context, ident: Ident, st: State): (r: State)
    ensures r.stack == st.stack
    ensures ident.pos !in info.uses ==> r == st
    ensures ident.pos in info.uses ==>
      var decl := info.uses[ident.pos].pos;
      && (r.seen == if Declared(st.stack, decl) then st.seen + {ident.pos} else st.seen)
      && (r.reports == if Declared(st.stack, decl) && RiskyUse(st.stack, decl, initialRisky)
                       then st.reports + [Report(ident.pos, ident.name, context)] else st.reports)
  {
    if ident.pos !in info.uses then st
    else
      var decl := info.uses[ident.pos].pos;
      var found := Scan(st.stack, decl, |st.stack|, initialRisky);
      ScanRisk(st.stack, decl, |st.stack|, initialRisky);
      assert found.Some? ==> (found.value <==> RiskyUse(st.stack, decl, initialRisky)) by {
        if found.Some? {
          var at :| DeclaredAt(st.stack, decl, |st.stack|, at) && (found.value <==> RiskyBetween(st.stack, at, |st.stack|, initialRisky));
          forall at' | DeclaredAt(st.stack, decl, |st.stack|, at')
            ensures at' == at
          {
          }
        }
      }
      match found
      case None => st
      case Some(risky) =>
        var reports := if risky then st.reports + [Report(ident.pos, ident.name, context)] else st.reports;
        st.(seen := st.seen + {ident.pos}, reports := reports)
  }

  /** The positions of some identifiers. */
  ghost function IdentsAt(ids: seq<Ident>, i: nat): set<Pos>
    requires i <= |ids|
    decreases |ids| - i
  {
    if i == |ids| then {} else {ids[i].pos} + IdentsAt(ids, i + 1)
  }

  /** The positions of the identifier occurrences the walk meets in an expression, function literals included. */
  ghost function ExprIdents(e: Expr): set<Pos>
    decreases e, 1
  {
    match e
    case Name(id) => {id.pos}
    case BasicLit(_, _) => {}
    case Unary(_, x) => ExprIdents(x)
    case Selector(x, sel) => ExprIdents(x) + {sel.pos}
    case Call(fun, args) => ExprIdents(fun) + ExprsIdents(args, 0)
    case KeyValue(k, v) => ExprIdents(k) + ExprIdents(v)
    case FuncLitExpr(lit) => FieldsIdents(lit.typ.params, 0) + FieldsIdents(lit.typ.results, 0) + StmtsIdents(lit.body, 0)
    case OtherExpr(parts) => ExprsIdents(parts, 0)
  }

  ghost function ExprsIdents(es: seq<Expr>, i: nat): set<Pos>
    requires i <= |es|
    decreases es, 0, |es| - i
  {
    if i == |es| then {} else ExprIdents(es[i]) + ExprsIdents(es, i + 1)
  }

  ghost function FieldIdents(f: Field): set<Pos>
    decreases f, 1
  {
    IdentsAt(f.names, 0) + ExprIdents(f.typ)
  }

  ghost function FieldsIdents(fs: seq<Field>, i: nat): set<Pos>
    requires i <= |fs|
    decreases fs, 0, |fs| - i
  {
    if i == |fs| then {} else FieldIdents(fs[i]) + FieldsIdents(fs, i + 1)
  }

  ghost function SpecIdents(spec: Spec): set<Pos>
    decreases spec, 1
  {
    match spec
    case VSpec(vs) => IdentsAt(vs.names, 0) + ExprsIdents(vs.values, 0)
    case TSpec(name, typ) => {name.pos} + ExprIdents(typ)
  }

  ghost function SpecsIdents(specs: seq<Spec>, i: nat): set<Pos>
    requires i <= |specs|
    decreases specs, 0, |specs| - i
  {
    if i == |specs| then {} else SpecIdents(specs[i]) + SpecsIdents(specs, i + 1)
  }

  ghost function RangeIdents(vars: RangeVars): set<Pos>
    decreases vars, 1
  {
    match vars
    case NoVars => {}
    case Defines(k, v) => {k.pos} + (if v.Some? then {v.value.pos} else {})
    case Assigns(k, v) => ExprIdents(k) + (if v.Some? then ExprIdents(v.value) else {})
  }

  ghost function StmtIdents(s: Stmt): set<Pos>
    decreases s, 1
  {
    match s
    case DeclStmt(_, specs) => SpecsIdents(specs, 0)
    case AssignStmt(lhs, _, rhs) => ExprsIdents(lhs, 0) + ExprsIdents(rhs, 0)
    case GoStmt(fun, args) => ExprIdents(fun) + ExprsIdents(args, 0)
    case DeferStmt(fun, args) => ExprIdents(fun) + ExprsIdents(args, 0)
    case ExprStmt(x) => ExprIdents(x)
    case ReturnStmt(results) => ExprsIdents(results, 0)
    case RangeStmt(vars, x, body) => RangeIdents(vars) + ExprIdents(x) + StmtsIdents(body, 0)
    case OtherStmt(parts) => NodesIdents(parts, 0)
  }

  ghost function StmtsIdents(ss: seq<Stmt>, i: nat): set<Pos>
    requires i <= |ss|
    decreases ss, 0, |ss| - i
  {
    if i == |ss| then {} else StmtIdents(ss[i]) + StmtsIdents(ss, i + 1)
  }

  ghost function NodeIdents(n: Node): set<Pos>
    decreases n, 1
  {
    match n
    case StmtNode(s) => StmtIdents(s)
    case ExprNode(e) => ExprIdents(e)
    case SpecNode(vs) => IdentsAt(vs.names, 0) + ExprsIdents(vs.values, 0)
  }

  ghost function NodesIdents(ns: seq<Node>, i: nat): set<Pos>
    requires i <= |ns|
    decreases ns, 0, |ns| - i
  {
    if i == |ns| then {} else NodeIdents(ns[i]) + NodesIdents(ns, i + 1)
  }

  ghost function DeclIdents(d: TopDecl): set<Pos> {
    match d
    case FuncDecl(recv, name, typ, body) =>
      FieldsIdents(recv, 0) + {name.pos} + FieldsIdents(typ.params, 0) + FieldsIdents(typ.results, 0)
        + (if body.Some? then StmtsIdents(body.value, 0) else {})
    case GenDeclTop(_, specs) => SpecsIdents(specs, 0)
  }

  ghost function DeclsIdents(ds: seq<TopDecl>, i: nat): set<Pos>
    requires i <= |ds|
    decreases |ds| - i
  {
    if i == |ds| then {} else DeclIdents(ds[i]) + DeclsIdents(ds, i + 1)
  }

  /**
   * A walk from `st` to `r` over the identifier occurrences `ps` judged them: the uses it
   * remembers and the uses it reports are among `ps`, and every use in `ps` of a variable
   * that some layer of `st` already declares is remembered.
   */
  ghost predicate Judged(info: Info, st: State, ps: set<Pos>, r: State) {
    && OnlyFrom(st, ps, r)
    && forall p :: p in ps && p in info.uses && Declared(st.stack, info.uses[p].pos) ==> p in r.seen
  }

  /** What a walk from `st` to `r` newly remembers or reports lies among `ps`. */
  ghost predicate OnlyFrom(st: State, ps: set<Pos>, r: State) {
    && r.seen <= st.seen + ps
    && forall k :: |st.reports| <= k < |r.reports| ==> r.reports[k].pos in ps
  }

  /** `b` follows from `a` by a walk: same height, lower layers untouched, the top layer only grows, nothing forgotten. */
  predicate Step(a: State, b: State) {
    && |a.stack| > 0
    && |b.stack| == |a.stack|
    && b.stack[..|a.stack| - 1] == a.stack[..|a.stack| - 1]
    && b.stack[|a.stack| - 1].kind == a.stack[|a.stack| - 1].kind
    && a.stack[|a.stack| - 1].decls <= b.stack[|a.stack| - 1].decls
    && a.seen <= b.seen
    && a.reports <= b.reports
  }

  lemma StepTrans(a: State, b: State, c: State)
    requires Step(a, b) && Step(b, c)
    ensures Step(a, c)
  {
  }

  /** A walk step keeps every declaration: lower layers are untouched and the top layer only grows. */
  lemma StepKeepsDeclared(a: State, b: State)
    requires Step(a, b)
    ensures forall d :: Declared(a.stack, d) ==> Declared(b.stack, d)
  {
    forall d | Declared(a.stack, d)
      ensures Declared(b.stack, d)
    {
      var i :| 0 <= i < |a.stack| && d in a.stack[i].decls;
      if i < |a.stack| - 1 {
        assert a.stack[i] == a.stack[..|a.stack| - 1][i] == b.stack[..|a.stack| - 1][i] == b.stack[i];
      } else {
        assert d in b.stack[i].decls;
      }
    }
  }

  /** Judging `A` then `B` in two walk steps judges `A + B`. */
  lemma JudgedTrans(info: Info, a: State, b: State, c: State, A: set<Pos>, B: set<Pos>)
    requires Step(a, b) && Step(b, c)
    requires Judged(info, a, A, b) && Judged(info, b, B, c)
    ensures Judged(info, a, A + B, c)
  {
    StepKeepsDeclared(a, b);
    forall k | |a.reports| <= k < |c.reports|
      ensures c.reports[k].pos in A + B
    {
      if k < |b.reports| {
        assert c.reports[k] == b.reports[k];
      }
    }
  }

  /** A step that only touches `A`, followed by a walk judging `B`, judges `B` when `A` lies within it. */
  lemma JudgedAfter(info: Info, a: State, b: State, c: State, A: set<Pos>, B: set<Pos>)
    requires Step(a, b) && Step(b, c) && A <= B
    requires OnlyFrom(a, A, b) && Judged(info, b, B, c)
    ensures Judged(info, a, B, c)
  {
    StepKeepsDeclared(a, b);
    forall k | |a.reports| <= k < |c.reports|
      ensures c.reports[k].pos in B
    {
      if k < |b.reports| {
        assert c.reports[k] == b.reports[k];
      }
    }
  }

  /** The three walks of a function literal under its own layer judge the literal's identifiers. */
  lemma FuncLitJudged(info: Info, st: State, e: Expr, st1: State, st2: State, st3: State)
    requires |st.stack| > 0 && e.FuncLitExpr?
    requires Step(Push(st, FuncLayer), st1) && Step(st1, st2) && Step(st2, st3)
    requires Judged(info, Push(st, FuncLayer), FieldsIdents(e.lit.typ.params, 0), st1)
    requires Judged(info, st1, FieldsIdents(e.lit.typ.results, 0), st2)
    requires Judged(info, st2, StmtsIdents(e.lit.body, 0), st3)
    ensures |st3.stack| == |st.stack| + 1 && Judged(info, st, ExprIdents(e), Pop(st3))
  {
    var inner := Push(st, FuncLayer);
    JudgedTrans(info, inner, st1, st2, FieldsIdents(e.lit.typ.params, 0), FieldsIdents(e.lit.typ.results, 0));
    StepTrans(inner, st1, st2);
    JudgedTrans(info, inner, st2, st3, FieldsIdents(e.lit.typ.params, 0) + FieldsIdents(e.lit.typ.results, 0), StmtsIdents(e.lit.body, 0));
    JudgedPush(info, st, FuncLayer, ExprIdents(e), st3);
  }

  /** A walk under a pushed layer judges, once the layer is popped, what it judged for the enclosing stack. */
  lemma JudgedPush(info: Info, st: State, kind: LayerKind, ps: set<Pos>, r: State)
    requires |st.stack| > 0 && |r.stack| == |st.stack| + 1
    requires Judged(info, Push(st, kind), ps, r)
    ensures Judged(info, st, ps, Pop(r))
  {
    var inner := Push(st, kind);
    forall d | Declared(st.stack, d)
      ensures Declared(inner.stack, d)
    {
      var i :| 0 <= i < |st.stack| && d in st.stack[i].decls;
      assert inner.stack[i] == inner.stack[..|st.stack|][i] == st.stack[i];
    }
  }

  function Push(st: State, kind: LayerKind): (r: State)
    ensures |r.stack| == |st.stack| + 1 && r.stack[..|st.stack|] == st.stack
  {
    st.(stack := st.stack + [Layer(kind, [])])
  }

  function Pop(st: State): (r: State)
    requires |st.stack| > 0
    ensures r.stack == st.stack[..|st.stack| - 1]
  {
    st.(stack := st.stack[..|st.stack| - 1])
  }

  /** Adds a loop variable to the top layer. */
  function Watch(st: State, pos: Pos): (r: State)
    requires |st.stack| > 0
    ensures Step(st, r)
    ensures pos in r.stack[|r.stack| - 1].decls
    ensures r.seen == st.seen && r.reports == st.reports
  {
    var top := st.stack[|st.stack| - 1];
    st.(stack := st.stack[..|st.stack| - 1] + [top.(decls := top.decls + [pos])])
  }

  /** A plain identifier occurrence: a first, resolved use is judged as a capture. */
  function VisitIdent(info: Info, st: State, id: Ident): (r: State)
    requires |st.stack| > 0
    ensures Step(st, r)
    ensures id.pos in st.seen || id.pos !in info.uses ==> r == st
    ensures id.pos !in st.seen ==> r == Check(info, false, CaptureOf, id, st)
    ensures Judged(info, st, {id.pos}, r)
  {
    if id.pos in st.seen then st
    else if id.pos !in info.uses then st
    else Check(info, false, CaptureOf, id, st)
  }

  /** Visits identifiers in order: each is judged as `VisitIdent` judges it. */
  function VisitIdents(info: Info, st: State, ids: seq<Ident>, i: nat): (r: State)
    requires |st.stack| > 0 && i <= |ids|
    ensures Step(st, r)
    ensures r.stack == st.stack
    ensures Judged(info, st, IdentsAt(ids, i), r)
    decreases |ids| - i
  {
    if i == |ids| then st
    else
      var st1 := VisitIdent(info, st, ids[i]);
      var r := VisitIdents(info, st1, ids, i + 1);
      JudgedTrans(info, st, st1, r, {ids[i].pos}, IdentsAt(ids, i + 1));
      r
  }

  /** `&x` judges `x`, and `&x.f` judges `x`, as risky uses; other operands are not judged here. */
  function Reference(info: Info, st: State, x: Expr): (r: State)
    requires |st.stack| > 0
    ensures Step(st, r)
    ensures r.stack == st.stack
    ensures x.Name? ==> r == Check(info, true, ReferenceTo, x.id, st)
    ensures x.Selector? && x.x.Name? ==> r == Check(info, true, ReferenceToChildOf, x.x.id, st)
    ensures !x.Name? && !(x.Selector? && x.x.Name?) ==> r == st
    ensures OnlyFrom(st, ExprIdents(x), r)
  {
    match x
    case Name(id) => Check(info, true, ReferenceTo, id, st)
    case Selector(Name(id), _) =>
      assert id.pos in ExprIdents(x) by { assert ExprIdents(x.x) == {id.pos}; }
      Check(info, true, ReferenceToChildOf, id, st)
    case _ => st
  }

  /**
   * An expression leaves the layer stack as it found it: the only layers it pushes are
   * those of function literals, and the loop variables of a range clause inside a literal
   * go to the literal's own layer, which is popped with it. Every identifier in it is
   * judged.
   */
  function WalkExpr(info: Info, st: State, e: Expr): (r: State)
    requires |st.stack| > 0
    ensures Step(st, r)
    ensures r.stack == st.stack
    ensures e.Name? ==> r == VisitIdent(info, st, e.id)
    ensures Judged(info, st, ExprIdents(e), r)
    decreases e, 1
  {
    match e
    case Name(id) => VisitIdent(info, st, id)
    case BasicLit(_, _) => st
    case Unary(op, x) =>
      var st1 := if op == And then Reference(info, st, x) else st;
      var r := WalkExpr(info, st1, x);
      JudgedAfter(info, st, st1, r, ExprIdents(x), ExprIdents(x));
      r
    case Selector(x, sel) =>
      var st1 := WalkExpr(info, st, x);
      var r := VisitIdent(info, st1, sel);
      JudgedTrans(info, st, st1, r, ExprIdents(x), {sel.pos});
      r
    case Call(fun, args) =>
      var st1 := WalkExpr(info, st, fun);
      var r := WalkExprs(info, st1, args, 0);
      JudgedTrans(info, st, st1, r, ExprIdents(fun), ExprsIdents(args, 0));
      r
    case KeyValue(k, v) =>
      var st1 := WalkExpr(info, st, k);
      var r := WalkExpr(info, st1, v);
      JudgedTrans(info, st, st1, r, ExprIdents(k), ExprIdents(v));
      r
    case FuncLitExpr(lit) => WalkFuncLit(info, st, e)
    case OtherExpr(parts) => WalkExprs(info, st, parts, 0)
  }

  /**
   * A function literal: its signature and body are walked under a function layer of its
   * own, pushed on the enclosing stack and popped at the literal's end.
   */
  function WalkFuncLit(info: Info, st: State, e: Expr): (r: State)
    requires |st.stack| > 0 && e.FuncLitExpr?
    ensures Step(st, r)
    ensures r.stack == st.stack
    ensures var head := WalkFields(info, WalkFields(info, Push(st, FuncLayer), e.lit.typ.params, 0), e.lit.typ.results, 0);
      && head.stack == st.stack + [Layer(FuncLayer, [])]
      && var body := WalkStmts(info, head, e.lit.body, 0);
      r.seen == body.seen && r.reports == body.reports
    ensures Judged(info, st, ExprIdents(e), r)
    decreases e, 0
  {
    var inner := Push(st, FuncLayer);
    var st1 := WalkFields(info, inner, e.lit.typ.params, 0);
    var st2 := WalkFields(info, st1, e.lit.typ.results, 0);
    var st3 := WalkStmts(info, st2, e.lit.body, 0);
    FuncLitJudged(info, st, e, st1, st2, st3);
    Pop(st3)
  }

  function WalkExprs(info: Info, st: State, es: seq<Expr>, i: nat): (r: State)
    requires |st.stack| > 0 && i <= |es|
    ensures Step(st, r)
    ensures r.stack == st.stack
    ensures Judged(info, st, ExprsIdents(es, i), r)
    decreases es, 0, |es| - i
  {
    if i == |es| then st
    else
      var st1 := WalkExpr(info, st, es[i]);
      var r := WalkExprs(info, st1, es, i + 1);
      JudgedTrans(info, st, st1, r, ExprIdents(es[i]), ExprsIdents(es, i + 1));
      r
  }

  function WalkField(info: Info, st: State, f: Field): (r: State)
    requires |st.stack| > 0
    ensures Step(st, r)
    ensures r.stack == st.stack
    ensures Judged(info, st, FieldIdents(f), r)
    decreases f, 1
  {
    var st1 := VisitIdents(info, st, f.names, 0);
    var r := WalkExpr(info, st1, f.typ);
    JudgedTrans(info, st, st1, r, IdentsAt(f.names, 0), ExprIdents(f.typ));
    r
  }

  function WalkFields(info: Info, st: State, fs: seq<Field>, i: nat): (r: State)
    requires |st.stack| > 0 && i <= |fs|
    ensures Step(st, r)
    ensures r.stack == st.stack
    ensures Judged(info, st, FieldsIdents(fs, i), r)
    decreases fs, 0, |fs| - i
  {
    if i == |fs| then st
    else
      var st1 := WalkField(info, st, fs[i]);
      var r := WalkFields(info, st1, fs, i + 1);
      JudgedTrans(info, st, st1, r, FieldIdents(fs[i]), FieldsIdents(fs, i + 1));
      r
  }

  function WalkSpec(info: Info, st: State, spec: Spec): (r: State)
    requires |st.stack| > 0
    ensures Step(st, r)
    ensures Judged(info, st, SpecIdents(spec), r)
    decreases spec, 1
  {
    match spec
    case VSpec(vs) =>
      var st1 := VisitIdents(info, st, vs.names, 0);
      var r := WalkExprs(info, st1, vs.values, 0);
      JudgedTrans(info, st, st1, r, IdentsAt(vs.names, 0), ExprsIdents(vs.values, 0));
      r
    case TSpec(name, typ) =>
      var st1 := VisitIdent(info, st, name);
      var r := WalkExpr(info, st1, typ);
      JudgedTrans(info, st, st1, r, {name.pos}, ExprIdents(typ));
      r
  }

  function WalkSpecs(info: Info, st: State, specs: seq<Spec>, i: nat): (r: State)
    requires |st.stack| > 0 && i <= |specs|
    ensures Step(st, r)
    ensures Judged(info, st, SpecsIdents(specs, i), r)
    decreases specs, 0, |specs| - i
  {
    if i == |specs| then st
    else
      var st1 := WalkSpec(info, st, specs[i]);
      var r := WalkSpecs(info, st1, specs, i + 1);
      JudgedTrans(info, st, st1, r, SpecIdents(specs[i]), SpecsIdents(specs, i + 1));
      r
  }

  /** The loop variables a range clause adds to the top layer: the key and value of a `:=` clause. */
  function WatchRangeVars(st: State, vars: RangeVars): (r: State)
    requires |st.stack| > 0
    ensures Step(st, r)
    ensures vars.Defines? ==> vars.defKey.pos in r.stack[|r.stack| - 1].decls
    ensures vars.Defines? && vars.defValue.Some? ==> vars.defValue.value.pos in r.stack[|r.stack| - 1].decls
    ensures !vars.Defines? ==> r == st
    ensures r.seen == st.seen && r.reports == st.reports
  {
    match vars
    case Defines(k, v) =>
      var st1 := Watch(st, k.pos);
      if v.Some? then
        var st2 := Watch(st1, v.value.pos);
        assert st2.stack[|st2.stack| - 1].decls == st1.stack[|st1.stack| - 1].decls + [v.value.pos];
        st2
      else st1
    case _ => st
  }

  function WalkRangeVars(info: Info, st: State, vars: RangeVars): (r: State)
    requires |st.stack| > 0
    ensures Step(st, r)
    ensures Judged(info, st, RangeIdents(vars), r)
    decreases vars, 1
  {
    match vars
    case NoVars => st
    case Defines(k, v) =>
      var st1 := VisitIdent(info, st, k);
      if v.Some? then
        var r := VisitIdent(info, st1, v.value);
        JudgedTrans(info, st, st1, r, {k.pos}, {v.value.pos});
        r
      else st1
    case Assigns(k, v) =>
      var st1 := WalkExpr(info, st, k);
      if v.Some? then
        var r := WalkExpr(info, st1, v.value);
        JudgedTrans(info, st, st1, r, ExprIdents(k), ExprIdents(v.value));
        r
      else st1
  }

  /**
   * A statement: every identifier in it is judged; a `return` restores the stack; a
   * range loop judges its subtree with its `:=` variables already watched.
   */
  function WalkStmt(info: Info, st: State, s: Stmt): (r: State)
    requires |st.stack| > 0
    ensures Step(st, r)
    ensures s.ReturnStmt? ==> r.stack == st.stack
    ensures s.RangeStmt? && s.vars.Defines? ==> s.vars.defKey.pos in r.stack[|r.stack| - 1].decls
    ensures Judged(info, st, StmtIdents(s), r)
    ensures s.RangeStmt? ==> Judged(info, WatchRangeVars(st, s.vars), StmtIdents(s), r)
    decreases s, 1
  {
    match s
    case DeclStmt(_, specs) => WalkSpecs(info, st, specs, 0)
    case AssignStmt(lhs, _, rhs) => WalkAssign(info, st, s)
    case GoStmt(fun, args) => WalkCall(info, st, s)
    case DeferStmt(fun, args) => WalkCall(info, st, s)
    case ExprStmt(x) => WalkExpr(info, st, x)
    case ReturnStmt(results) => WalkReturn(info, st, s)
    case RangeStmt(vars, x, body) => WalkRange(info, st, s)
    case OtherStmt(parts) => WalkNodes(info, st, parts, 0)
  }

  /** An assignment's left-hand sides, then its right-hand sides. */
  function WalkAssign(info: Info, st: State, s: Stmt): (r: State)
    requires |st.stack| > 0 && s.AssignStmt?
    ensures Step(st, r)
    ensures Judged(info, st, StmtIdents(s), r)
    decreases s, 0
  {
    var st1 := WalkExprs(info, st, s.lhs, 0);
    var st2 := WalkExprs(info, st1, s.rhs, 0);
    StepTrans(st, st1, st2);
    JudgedTrans(info, st, st1, st2, ExprsIdents(s.lhs, 0), ExprsIdents(s.rhs, 0));
    st2
  }

  /** A `go` or `defer` statement's function, then its arguments. */
  function WalkCall(info: Info, st: State, s: Stmt): (r: State)
    requires |st.stack| > 0 && (s.GoStmt? || s.DeferStmt?)
    ensures Step(st, r)
    ensures Judged(info, st, StmtIdents(s), r)
    decreases s, 0
  {
    var st1 := WalkExpr(info, st, s.fun);
    var st2 := WalkExprs(info, st1, s.args, 0);
    StepTrans(st, st1, st2);
    JudgedTrans(info, st, st1, st2, ExprIdents(s.fun), ExprsIdents(s.args, 0));
    st2
  }

  /** A `return` pushes a layer for its results, so the height is restored afterwards. */
  function WalkReturn(info: Info, st: State, s: Stmt): (r: State)
    requires |st.stack| > 0 && s.ReturnStmt?
    ensures Step(st, r)
    ensures r.stack == st.stack
    ensures var results := WalkExprs(info, Push(st, ReturnLayer), s.results, 0);
      && results.stack == st.stack + [Layer(ReturnLayer, [])]
      && r.seen == results.seen && r.reports == results.reports
    ensures Judged(info, st, StmtIdents(s), r)
    decreases s, 0
  {
    var inner := Push(st, ReturnLayer);
    var st1 := WalkExprs(info, inner, s.results, 0);
    assert st1.stack[..|st.stack|] == st.stack;
    JudgedPush(info, st, ReturnLayer, StmtIdents(s), st1);
    Pop(st1)
  }

  /** A range loop: its `:=` variables are watched first, then its children are walked. */
  function WalkRange(info: Info, st: State, s: Stmt): (r: State)
    requires |st.stack| > 0 && s.RangeStmt?
    ensures Step(st, r)
    ensures s.vars.Defines? ==> s.vars.defKey.pos in r.stack[|r.stack| - 1].decls
    ensures Judged(info, WatchRangeVars(st, s.vars), StmtIdents(s), r)
    ensures Judged(info, st, StmtIdents(s), r)
    decreases s, 0
  {
    var st1 := WatchRangeVars(st, s.vars);
    var st2 := WalkRangeVars(info, st1, s.vars);
    var st3 := WalkExpr(info, st2, s.x);
    var r := WalkStmts(info, st3, s.body, 0);
    JudgedTrans(info, st1, st2, st3, RangeIdents(s.vars), ExprIdents(s.x));
    StepTrans(st1, st2, st3);
    JudgedTrans(info, st1, st3, r, RangeIdents(s.vars) + ExprIdents(s.x), StmtsIdents(s.body, 0));
    StepTrans(st1, st3, r);
    JudgedAfter(info, st, st1, r, {}, StmtIdents(s));
    r
  }

  function WalkStmts(info: Info, st: State, ss: seq<Stmt>, i: nat): (r: State)
    requires |st.stack| > 0 && i <= |ss|
    ensures Step(st, r)
    ensures Judged(info, st, StmtsIdents(ss, i), r)
    decreases ss, 0, |ss| - i
  {
    if i == |ss| then st
    else
      var st1 := WalkStmt(info, st, ss[i]);
      var r := WalkStmts(info, st1, ss, i + 1);
      JudgedTrans(info, st, st1, r, StmtIdents(ss[i]), StmtsIdents(ss, i + 1));
      r
  }

  function WalkNode(info: Info, st: State, n: Node): (r: State)
    requires |st.stack| > 0
    ensures Step(st, r)
    ensures Judged(info, st, NodeIdents(n), r)
    decreases n, 1
  {
    match n
    case StmtNode(s) => WalkStmt(info, st, s)
    case ExprNode(e) => WalkExpr(info, st, e)
    case SpecNode(vs) =>
      var st1 := VisitIdents(info, st, vs.names, 0);
      var r := WalkExprs(info, st1, vs.values, 0);
      JudgedTrans(info, st, st1, r, IdentsAt(vs.names, 0), ExprsIdents(vs.values, 0));
      r
  }

  function WalkNodes(info: Info, st: State, ns: seq<Node>, i: nat): (r: State)
    requires |st.stack| > 0 && i <= |ns|
    ensures Step(st, r)
    ensures Judged(info, st, NodesIdents(ns, i), r)
    decreases ns, 0, |ns| - i
  {
    if i == |ns| then st
    else
      var st1 := WalkNode(info, st, ns[i]);
      var r := WalkNodes(info, st1, ns, i + 1);
      JudgedTrans(info, st, st1, r, NodeIdents(ns[i]), NodesIdents(ns, i + 1));
      r
  }

  function WalkDecl(info: Info, st: State, d: TopDecl): (r: State)
    requires |st.stack| > 0
    ensures Step(st, r)
    ensures Judged(info, st, DeclIdents(d), r)
  {
    match d
    case FuncDecl(recv, name, typ, body) =>
      var st1 := WalkFields(info, st, recv, 0);
      var st2 := VisitIdent(info, st1, name);
      var st3 := WalkFields(info, st2, typ.params, 0);
      var st4 := WalkFields(info, st3, typ.results, 0);
      var sig := FieldsIdents(recv, 0) + {name.pos} + FieldsIdents(typ.params, 0) + FieldsIdents(typ.results, 0);
      JudgedTrans(info, st, st1, st2, FieldsIdents(recv, 0), {name.pos});
      StepTrans(st, st1, st2);
      JudgedTrans(info, st, st2, st3, FieldsIdents(recv, 0) + {name.pos}, FieldsIdents(typ.params, 0));
      StepTrans(st, st2, st3);
      JudgedTrans(info, st, st3, st4, FieldsIdents(recv, 0) + {name.pos} + FieldsIdents(typ.params, 0), FieldsIdents(typ.results, 0));
      StepTrans(st, st3, st4);
      if body.Some? then
        var r := WalkStmts(info, st4, body.value, 0);
        JudgedTrans(info, st, st4, r, sig, StmtsIdents(body.value, 0));
        r
      else
        assert sig + {} == sig;
        st4
    case GenDeclTop(_, specs) => WalkSpecs(info, st, specs, 0)
  }

  function WalkDecls(info: Info, st: State, ds: seq<TopDecl>, i: nat): (r: State)
    requires |st.stack| > 0 && i <= |ds|
    ensures Step(st, r)
    ensures Judged(info, st, DeclsIdents(ds, i), r)
    decreases |ds| - i
  {
    if i == |ds| then st
    else
      var st1 := WalkDecl(info, st, ds[i]);
      var r := WalkDecls(info, st1, ds, i + 1);
      JudgedTrans(info, st, st1, r, DeclIdents(ds[i]), DeclsIdents(ds, i + 1));
      r
  }

  /** The reports for one file: a walk from a single plain layer with nothing seen. Each names an identifier of the file. */
  function FileReports(info: Info, file: seq<TopDecl>): (r: seq<Report>)
    ensures forall rep :: rep in r ==> rep.pos in DeclsIdents(file, 0)
  {
    var st := WalkDecls(info, State([Layer(BaseLayer, [])], {}, []), file, 0);
    assert forall k :: 0 <= k < |st.reports| ==> st.reports[k].pos in DeclsIdents(file, 0);
    st.reports
  }

  /**
   * Inside a `for k, v := range` loop, every resolved use of `k` or `v` in the body,
   * nested function literals included, is judged: the walk remembers it.
   */
  lemma RangeVariableUsesJudged(info: Info, st: State, s: Stmt, p: Pos)
    requires |st.stack| > 0 && s.RangeStmt? && s.vars.Defines?
    requires p in StmtsIdents(s.body, 0) && p in info.uses
    requires info.uses[p].pos == s.vars.defKey.pos || (s.vars.defValue.Some? && info.uses[p].pos == s.vars.defValue.value.pos)
    ensures p in WalkStmt(info, st, s).seen
  {
    var st1 := WatchRangeVars(st, s.vars);
    var top := |st1.stack| - 1;
    assert info.uses[p].pos in st1.stack[top].decls;
    assert Declared(st1.stack, info.uses[p].pos);
    assert p in StmtIdents(s);
  }

  /** A use inside a function literal of a loop variable declared outside it is a risky capture. */
  lemma CaptureInClosureReported(info: Info, x: Ident, decl: Pos, seen: set<Pos>)
    requires x.pos in info.uses && info.uses[x.pos].pos == decl && x.pos !in seen
    ensures VisitIdent(info, State([Layer(BaseLayer, [decl]), Layer(FuncLayer, [])], seen, []), x).reports
         == [Report(x.pos, x.name, CaptureOf)]
  {
    var stack := [Layer(BaseLayer, [decl]), Layer(FuncLayer, [])];
    assert Declared(stack, decl) by { assert decl in stack[0].decls; }
    assert DeclaredAt(stack, decl, 2, 0);
    assert RiskyBetween(stack, 0, 2, false) by { assert OnlyBase(stack, 0, 1); }
  }

  /** A plain use in the loop body itself is remembered but not reported. */
  lemma UseInLoopBodyAllowed(info: Info, x: Ident, decl: Pos, seen: set<Pos>)
    requires x.pos in info.uses && info.uses[x.pos].pos == decl && x.pos !in seen
    ensures var r := VisitIdent(info, State([Layer(BaseLayer, [decl])], seen, []), x);
      r.reports == [] && x.pos in r.seen
  {
    var stack := [Layer(BaseLayer, [decl])];
    assert decl in stack[0].decls;
    forall at | DeclaredAt(stack, decl, 1, at)
      ensures !RiskyBetween(stack, at, 1, false)
    {
    }
  }

  /** A function literal that is itself returned: the `return` layer nearest the loop makes the capture safe. */
  lemma ReturnedClosureAllowed(info: Info, x: Ident, decl: Pos)
    requires x.pos in info.uses && info.uses[x.pos].pos == decl
    ensures Check(info, false, CaptureOf, x,
      State([Layer(BaseLayer, [decl]), Layer(ReturnLayer, []), Layer(FuncLayer, [])], {}, [])).reports == []
  {
    var stack := [Layer(BaseLayer, [decl]), Layer(ReturnLayer, []), Layer(FuncLayer, [])];
    forall at | DeclaredAt(stack, decl, 3, at)
      ensures !RiskyBetween(stack, at, 3, false)
    {
      assert decl !in stack[1].decls && decl !in stack[2].decls;
      assert at == 0;
      assert !OnlyBase(stack, 0, 2);
    }
  }

  /** A `return` inside a capturing function literal does not make the capture safe. */
  lemma ReturnInsideClosureStillReported(info: Info, x: Ident, decl: Pos)
    requires x.pos in info.uses && info.uses[x.pos].pos == decl
    ensures |Check(info, false, CaptureOf, x,
      State([Layer(BaseLayer, [decl]), Layer(FuncLayer, []), Layer(ReturnLayer, [])], {}, [])).reports| == 1
  {
    var stack := [Layer(BaseLayer, [decl]), Layer(FuncLayer, []), Layer(ReturnLayer, [])];
    assert decl in stack[0].decls;
    assert DeclaredAt(stack, decl, 3, 0);
    assert RiskyBetween(stack, 0, 3, false) by { assert OnlyBase(stack, 0, 1); }
  }

  /** `&v` in the loop body is reported once: the operand is remembered, so its own visit adds nothing. */
  lemma AddressOfLoopVariable(info: Info, x: Ident, decl: Pos)
    requires x.pos in info.uses && info.uses[x.pos].pos == decl
    ensures WalkExpr(info, State([Layer(BaseLayer, [decl])], {}, []), Unary(And, Name(x))).reports
         == [Report(x.pos, x.name, ReferenceTo)]
  {
    var st := State([Layer(BaseLayer, [decl])], {}, []);
    assert decl in st.stack[0].decls;
    assert DeclaredAt(st.stack, decl, 1, 0);
    assert RiskyBetween(st.stack, 0, 1, true);
    var st1 := Reference(info, st, Name(x));
    assert x.pos in st1.seen;
    assert WalkExpr(info, st1, Name(x)) == st1;
  }
}
