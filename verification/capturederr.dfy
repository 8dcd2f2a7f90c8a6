/**
 * The `capturederr` check: assigning with `=` to a variable of type `error` that the
 * current function (or function literal) did not declare itself is reported, since it
 * overwrites an error captured from an enclosing function.
 *
 * Each top-level function starts a fresh stack holding one layer with its parameters and
 * named results. Every function literal pushes a layer seeded with its own parameters
 * and results for its extent. Declarations (`var`, `const`, `:=` and the compound
 * assignment operators) add to the top layer. Only the top layer is consulted.
 */
module CapturedErr {
  import opened Wrappers
  import opened Ast
  import opened Utils

  const ErrorType: string := "error"

  datatype Report = Report(pos: Pos, name: string)

  /** The walk's state: one layer of declaration positions per enclosing function, and the reports so far. */
  datatype State = State(stack: seq<seq<Pos>>, reports: seq<Report>)

  /** The identifier names a variable of type `error` that the top layer does not declare. */
  predicate Captured(info: Info, stack: seq<seq<Pos>>, ident: Ident)
    requires |stack| > 0
  {
    ident.pos in info.uses && info.uses[ident.pos].typ == ErrorType && info.uses[ident.pos].pos !in stack[|stack| - 1]
  }

  /** Judges the target of a plain assignment: reported iff it is a captured error variable. */
  function Check(info: Info, ident: Ident, st: State): (r: State)
    requires |st.stack| > 0
    ensures r.stack == st.stack
    ensures Captured(info, st.stack, ident) ==> r.reports == st.reports + [Report(ident.pos, info.uses[ident.pos].name)]
    ensures !Captured(info, st.stack, ident) ==> r == st
  {
    if ident.pos !in info.uses then st
    else
      var decl := info.uses[ident.pos];
      if decl.typ != ErrorType then st
      else
        var layer := Last(st.stack);
        if decl.pos in layer then st
        else st.(reports := st.reports + [Report(ident.pos, decl.name)])
  }

  /** The declaration positions of some identifiers, in order. */
  function Positions(ids: seq<Ident>): (r: seq<Pos>)
    ensures |r| == |ids|
    ensures forall p :: p in r <==> exists id :: id in ids && id.pos == p
  {
    if ids == [] then []
    else
      assert forall id :: id in ids <==> id == ids[0] || id in ids[1..];
      [ids[0].pos] + Positions(ids[1..])
  }

  /** Adds declaration positions to the top layer. */
  function Declare(st: State, ids: seq<Ident>): (r: State)
    requires |st.stack| > 0
    ensures |r.stack| == |st.stack| && r.stack[..|st.stack| - 1] == st.stack[..|st.stack| - 1]
    ensures r.stack[|r.stack| - 1] == st.stack[|st.stack| - 1] + Positions(ids)
    ensures r.reports == st.reports
  {
    var top := st.stack[|st.stack| - 1];
    st.(stack := st.stack[..|st.stack| - 1] + [top + Positions(ids)])
  }

  /** The parameters and named results of a signature become declarations of the top layer. */
  function AddFuncVarDecls(st: State, typ: FuncType): (r: State)
    requires |st.stack| > 0
    ensures |r.stack| == |st.stack| && r.stack[..|st.stack| - 1] == st.stack[..|st.stack| - 1]
    ensures r.reports == st.reports
    ensures r.stack[|r.stack| - 1] == st.stack[|st.stack| - 1] + Positions(FieldNames(typ.params)) + Positions(NamedReturns(typ))
  {
    Declare(Declare(st, FieldNames(typ.params)), NamedReturns(typ))
  }

  /** `b` follows from `a` by a walk: same height, lower layers untouched, the top layer only grows, no report lost. */
  predicate Step(a: State, b: State) {
    && |a.stack| > 0
    && |b.stack| == |a.stack|
    && b.stack[..|a.stack| - 1] == a.stack[..|a.stack| - 1]
    && a.stack[|a.stack| - 1] <= b.stack[|a.stack| - 1]
    && a.reports <= b.reports
  }

  lemma StepTrans(a: State, b: State, c: State)
    requires Step(a, b) && Step(b, c)
    ensures Step(a, c)
  {
  }

  /** The names declared by the value specs of a declaration statement, in order. */
  function SpecNames(specs: seq<Spec>): (r: seq<Ident>)
    ensures forall id :: id in r <==> exists i :: 0 <= i < |specs| && specs[i].VSpec? && id in specs[i].vs.names
  {
    if specs == [] then []
    else
      var rest := SpecNames(specs[1..]);
      assert forall i :: 0 <= i < |specs| - 1 ==> specs[1..][i] == specs[i + 1];
      (if specs[0].VSpec? then specs[0].vs.names else []) + rest
  }

  /** The report a plain assignment to `e` draws: one when `e` names a captured error variable. */
  function TargetReport(info: Info, stack: seq<seq<Pos>>, e: Expr): (r: seq<Report>)
    requires |stack| > 0
    ensures |r| <= 1
    ensures r != [] <==> e.Name? && e.id.name != "_" && Captured(info, stack, e.id)
    ensures r != [] ==> r[0] == Report(e.id.pos, info.uses[e.id.pos].name)
  {
    if e.Name? && e.id.name != "_" && Captured(info, stack, e.id) then [Report(e.id.pos, info.uses[e.id.pos].name)] else []
  }

  /** The reports plain assignments to the targets from `i` on draw, in order. */
  function CapturedTargets(info: Info, stack: seq<seq<Pos>>, lhs: seq<Expr>, i: nat): (r: seq<Report>)
    requires |stack| > 0 && i <= |lhs|
    ensures forall rep :: rep in r <==>
      exists j :: i <= j < |lhs| && lhs[j].Name? && lhs[j].id.name != "_" && Captured(info, stack, lhs[j].id)
        && rep == Report(lhs[j].id.pos, info.uses[lhs[j].id.pos].name)
    decreases |lhs| - i
  {
    if i == |lhs| then [] else TargetReport(info, stack, lhs[i]) + CapturedTargets(info, stack, lhs, i + 1)
  }

  /** The positions of the named (non-`_`) identifiers among the left-hand sides from `i` on. */
  ghost function LhsNames(lhs: seq<Expr>, i: nat): (r: set<Pos>)
    requires i <= |lhs|
    ensures forall p :: p in r <==> exists j :: i <= j < |lhs| && lhs[j].Name? && lhs[j].id.name != "_" && lhs[j].id.pos == p
    decreases |lhs| - i
  {
    if i == |lhs| then {}
    else (if lhs[i].Name? && lhs[i].id.name != "_" then {lhs[i].id.pos} else {}) + LhsNames(lhs, i + 1)
  }

  /** One left-hand side: judged under `=`, declared under `:=` or a compound operator; `_` and non-identifiers are skipped. */
  function AssignTarget(info: Info, st: State, e: Expr, tok: AssignTok): (r: State)
    requires |st.stack| > 0
    ensures Step(st, r)
    ensures tok == Assign ==> r.stack == st.stack && r.reports == st.reports + TargetReport(info, st.stack, e)
    ensures tok != Assign ==> r.reports == st.reports
    ensures tok != Assign && e.Name? && e.id.name != "_" ==> e.id.pos in r.stack[|r.stack| - 1]
    ensures tok != Assign ==> forall x :: x in Top(r) <==> x in Top(st) || (e.Name? && e.id.name != "_" && x == e.id.pos)
  {
    match e
    case Name(id) =>
      if id.name == "_" then st
      else if tok == Assign then Check(info, id, st)
      else
        var d := Declare(st, [id]);
        assert Positions([id]) == [id.pos];
        d
    case _ => st
  }

  /** The left-hand sides of an assignment from index `i` on, in order. */
  function AssignTargets(info: Info, st: State, lhs: seq<Expr>, tok: AssignTok, i: nat): (r: State)
    requires |st.stack| > 0 && i <= |lhs|
    ensures Step(st, r)
    ensures tok == Assign ==> r.stack == st.stack && r.reports == st.reports + CapturedTargets(info, st.stack, lhs, i)
    ensures tok != Assign ==> r.reports == st.reports
    ensures tok != Assign ==> forall j :: i <= j < |lhs| && lhs[j].Name? && lhs[j].id.name != "_" ==>
      lhs[j].id.pos in r.stack[|r.stack| - 1]
    ensures tok != Assign ==> forall x :: x in Top(r) <==> x in Top(st) || x in LhsNames(lhs, i)
    decreases |lhs| - i
  {
    if i == |lhs| then st
    else
      var st1 := AssignTarget(info, st, lhs[i], tok);
      var r := AssignTargets(info, st1, lhs, tok, i + 1);
      assert tok == Assign ==> r.reports == st.reports + CapturedTargets(info, st.stack, lhs, i);
      r
  }

  /** The top layer: the declarations of the function being walked. */
  function Top(st: State): seq<Pos>
    requires |st.stack| > 0
  {
    st.stack[|st.stack| - 1]
  }

  /** The identifier at `p` resolves to a variable of type `error`. */
  ghost predicate ErrorUse(info: Info, p: Pos) {
    p in info.uses && info.uses[p].typ == ErrorType
  }

  /** Some report from index `from` on is at `p`. */
  ghost predicate ReportedFrom(reports: seq<Report>, from: nat, p: Pos) {
    exists k :: from <= k < |reports| && reports[k].pos == p
  }

  ghost function Elems(s: seq<Pos>): set<Pos> {
    set x | x in s
  }

  /**
   * A walk from `st` to `r` over a tree whose `=` targets outside nested function literals
   * are `direct`, whose targets inside them are `nested`, and whose own declarations are
   * `decls`: the top layer gains exactly `decls`; every new report names an `error`
   * variable and is either at one of `nested` or at one of `direct` whose variable the
   * starting top layer does not declare; and each of `direct` naming an `error` variable
   * that the final top layer does not declare is reported.
   */
  ghost predicate Walked(info: Info, st: State, nested: set<Pos>, direct: set<Pos>, decls: set<Pos>, r: State) {
    && |st.stack| > 0 && |r.stack| == |st.stack|
    && (forall x :: x in Top(r) <==> x in Top(st) || x in decls)
    && (forall k :: |st.reports| <= k < |r.reports| ==> Justified(info, Top(st), nested, direct, r.reports[k].pos))
    && forall p :: p in direct && ErrorUse(info, p) && info.uses[p].pos !in Top(r) ==> ReportedFrom(r.reports, |st.reports|, p)
  }

  /** A report at `p` is justified: an `error` target inside a nested literal, or a direct one whose variable `top` does not declare. */
  ghost predicate Justified(info: Info, top: seq<Pos>, nested: set<Pos>, direct: set<Pos>, p: Pos) {
    ErrorUse(info, p) && (p in nested || (p in direct && info.uses[p].pos !in top))
  }

  /** Walks in sequence compose: the sets add up. */
  lemma WalkedTrans(info: Info, a: State, b: State, c: State,
                    A1: set<Pos>, D1: set<Pos>, N1: set<Pos>, A2: set<Pos>, D2: set<Pos>, N2: set<Pos>,
                    A: set<Pos>, D: set<Pos>, N: set<Pos>)
    requires Step(a, b) && Step(b, c)
    requires Walked(info, a, A1, D1, N1, b) && Walked(info, b, A2, D2, N2, c)
    requires A == A1 + A2 && D == D1 + D2 && N == N1 + N2
    ensures Walked(info, a, A, D, N, c)
  {
    forall k | |a.reports| <= k < |c.reports|
      ensures Justified(info, Top(a), A1 + A2, D1 + D2, c.reports[k].pos)
    {
      if k < |b.reports| {
        assert c.reports[k] == b.reports[k];
      } else {
        var p := c.reports[k].pos;
        if p !in A2 {
          assert info.uses[p].pos !in Top(b);
          assert Top(a) <= Top(b);
        }
      }
    }
    forall p | p in D1 + D2 && ErrorUse(info, p) && info.uses[p].pos !in Top(c)
      ensures ReportedFrom(c.reports, |a.reports|, p)
    {
      if p in D1 {
        assert info.uses[p].pos !in Top(b);
        var k :| |a.reports| <= k < |b.reports| && b.reports[k].pos == p;
        assert c.reports[k] == b.reports[k];
      } else {
        var k :| |b.reports| <= k < |c.reports| && c.reports[k].pos == p;
      }
    }
  }

  /** The `=` targets of a statement itself: its named left-hand sides when it is a plain assignment. */
  ghost function OwnTargets(s: Stmt): set<Pos> {
    if s.AssignStmt? && s.tok == Assign then LhsNames(s.lhs, 0) else {}
  }

  /** What a statement itself declares: a `var` statement's names, or the named left-hand sides of `:=` or a compound assignment. */
  ghost function OwnDecls(s: Stmt): set<Pos> {
    match s
    case DeclStmt(_, specs) => Elems(Positions(SpecNames(specs)))
    case AssignStmt(lhs, tok, _) => if tok == Assign then {} else LhsNames(lhs, 0)
    case _ => {}
  }

  /** The `=` targets anywhere in an expression: only function literals hold statements. */
  ghost function ExprTargets(e: Expr): set<Pos>
    decreases e, 1
  {
    match e
    case Name(_) => {}
    case BasicLit(_, _) => {}
    case Unary(_, x) => ExprTargets(x)
    case Selector(x, _) => ExprTargets(x)
    case Call(fun, args) => ExprTargets(fun) + ExprsTargets(args, 0)
    case KeyValue(k, v) => ExprTargets(k) + ExprTargets(v)
    case FuncLitExpr(lit) =>
      FieldsTargets(lit.typ.params, 0) + FieldsTargets(lit.typ.results, 0) + StmtsDirect(lit.body, 0) + StmtsNested(lit.body, 0)
    case OtherExpr(parts) => ExprsTargets(parts, 0)
  }

  ghost function ExprsTargets(es: seq<Expr>, i: nat): set<Pos>
    requires i <= |es|
    decreases es, 0, |es| - i
  {
    if i == |es| then {} else ExprTargets(es[i]) + ExprsTargets(es, i + 1)
  }

  ghost function FieldsTargets(fs: seq<Field>, i: nat): set<Pos>
    requires i <= |fs|
    decreases fs, 0, |fs| - i
  {
    if i == |fs| then {} else ExprTargets(fs[i].typ) + FieldsTargets(fs, i + 1)
  }

  ghost function SpecTargets(spec: Spec): set<Pos>
    decreases spec, 1
  {
    match spec
    case VSpec(vs) => ExprsTargets(vs.values, 0)
    case TSpec(_, typ) => ExprTargets(typ)
  }

  ghost function SpecsTargets(specs: seq<Spec>, i: nat): set<Pos>
    requires i <= |specs|
    decreases specs, 0, |specs| - i
  {
    if i == |specs| then {} else SpecTargets(specs[i]) + SpecsTargets(specs, i + 1)
  }

  ghost function RangeTargets(vars: RangeVars): set<Pos>
    decreases vars, 1
  {
    match vars
    case Assigns(k, v) => ExprTargets(k) + (if v.Some? then ExprTargets(v.value) else {})
    case _ => {}
  }

  /** The `=` targets inside a statement's nested function literals: those judged against a literal's own layer. */
  ghost function StmtNested(s: Stmt): set<Pos>
    decreases s, 2
  {
    ChildNested(s)
  }

  ghost function ChildNested(s: Stmt): set<Pos>
    decreases s, 1
  {
    match s
    case DeclStmt(_, specs) => SpecsTargets(specs, 0)
    case AssignStmt(lhs, _, rhs) => ExprsTargets(lhs, 0) + ExprsTargets(rhs, 0)
    case GoStmt(fun, args) => ExprTargets(fun) + ExprsTargets(args, 0)
    case DeferStmt(fun, args) => ExprTargets(fun) + ExprsTargets(args, 0)
    case ExprStmt(x) => ExprTargets(x)
    case ReturnStmt(results) => ExprsTargets(results, 0)
    case RangeStmt(vars, x, body) => RangeTargets(vars) + ExprTargets(x) + StmtsNested(body, 0)
    case OtherStmt(parts) => NodesNested(parts, 0)
  }

  ghost function StmtsNested(ss: seq<Stmt>, i: nat): set<Pos>
    requires i <= |ss|
    decreases ss, 0, |ss| - i
  {
    if i == |ss| then {} else StmtNested(ss[i]) + StmtsNested(ss, i + 1)
  }

  ghost function NodeNested(n: Node): set<Pos>
    decreases n, 1
  {
    match n
    case StmtNode(s) => StmtNested(s)
    case ExprNode(e) => ExprTargets(e)
    case SpecNode(vs) => ExprsTargets(vs.values, 0)
  }

  ghost function NodesNested(ns: seq<Node>, i: nat): set<Pos>
    requires i <= |ns|
    decreases ns, 0, |ns| - i
  {
    if i == |ns| then {} else NodeNested(ns[i]) + NodesNested(ns, i + 1)
  }

  /** The `=` targets of a statement outside nested function literals: those judged against the current function's layer. */
  ghost function StmtDirect(s: Stmt): set<Pos>
    decreases s, 2
  {
    OwnTargets(s) + ChildDirect(s)
  }

  ghost function ChildDirect(s: Stmt): set<Pos>
    decreases s, 1
  {
    match s
    case RangeStmt(_, _, body) => StmtsDirect(body, 0)
    case OtherStmt(parts) => NodesDirect(parts, 0)
    case _ => {}
  }

  ghost function StmtsDirect(ss: seq<Stmt>, i: nat): set<Pos>
    requires i <= |ss|
    decreases ss, 0, |ss| - i
  {
    if i == |ss| then {} else StmtDirect(ss[i]) + StmtsDirect(ss, i + 1)
  }

  ghost function NodeDirect(n: Node): set<Pos>
    decreases n, 1
  {
    if n.StmtNode? then StmtDirect(n.s) else {}
  }

  ghost function NodesDirect(ns: seq<Node>, i: nat): set<Pos>
    requires i <= |ns|
    decreases ns, 0, |ns| - i
  {
    if i == |ns| then {} else NodeDirect(ns[i]) + NodesDirect(ns, i + 1)
  }

  /** The declarations a statement adds to the current function's layer, outside nested function literals. */
  ghost function StmtDecls(s: Stmt): set<Pos>
    decreases s, 2
  {
    OwnDecls(s) + ChildDecls(s)
  }

  ghost function ChildDecls(s: Stmt): set<Pos>
    decreases s, 1
  {
    match s
    case RangeStmt(_, _, body) => StmtsDecls(body, 0)
    case OtherStmt(parts) => NodesDecls(parts, 0)
    case _ => {}
  }

  ghost function StmtsDecls(ss: seq<Stmt>, i: nat): set<Pos>
    requires i <= |ss|
    decreases ss, 0, |ss| - i
  {
    if i == |ss| then {} else StmtDecls(ss[i]) + StmtsDecls(ss, i + 1)
  }

  ghost function NodeDecls(n: Node): set<Pos>
    decreases n, 1
  {
    if n.StmtNode? then StmtDecls(n.s) else {}
  }

  ghost function NodesDecls(ns: seq<Node>, i: nat): set<Pos>
    requires i <= |ns|
    decreases ns, 0, |ns| - i
  {
    if i == |ns| then {} else NodeDecls(ns[i]) + NodesDecls(ns, i + 1)
  }

  /** A plain assignment reports exactly its captured targets; `:=` and compound assignments declare theirs. */
  lemma EnterAssignWalked(info: Info, st: State, s: Stmt)
    requires |st.stack| > 0 && s.AssignStmt?
    ensures Walked(info, st, {}, OwnTargets(s), OwnDecls(s), AssignTargets(info, st, s.lhs, s.tok, 0))
  {
    var r := AssignTargets(info, st, s.lhs, s.tok, 0);
    if s.tok == Assign {
      var reps := CapturedTargets(info, st.stack, s.lhs, 0);
      assert r.reports == st.reports + reps;
      forall k | |st.reports| <= k < |r.reports|
        ensures Justified(info, Top(st), {}, OwnTargets(s), r.reports[k].pos)
      {
        assert r.reports[k] == reps[k - |st.reports|];
        assert reps[k - |st.reports|] in reps;
      }
      forall p | p in OwnTargets(s) && ErrorUse(info, p) && info.uses[p].pos !in Top(r)
        ensures ReportedFrom(r.reports, |st.reports|, p)
      {
        var j :| 0 <= j < |s.lhs| && s.lhs[j].Name? && s.lhs[j].id.name != "_" && s.lhs[j].id.pos == p;
        assert Captured(info, st.stack, s.lhs[j].id);
        var rep := Report(p, info.uses[p].name);
        assert rep in reps;
        var i :| 0 <= i < |reps| && reps[i] == rep;
        assert r.reports[|st.reports| + i] == rep;
      }
    }
  }

  /** What the walk does on entering a statement, before its children are walked. */
  function EnterStmt(info: Info, st: State, s: Stmt): (r: State)
    requires |st.stack| > 0
    ensures Step(st, r)
    ensures s.DeclStmt? ==> r == Declare(st, SpecNames(s.specs))
    ensures s.AssignStmt? ==> r == AssignTargets(info, st, s.lhs, s.tok, 0)
    ensures !s.DeclStmt? && !s.AssignStmt? ==> r == st
    ensures Walked(info, st, {}, OwnTargets(s), OwnDecls(s), r)
  {
    match s
    case DeclStmt(_, specs) => Declare(st, SpecNames(specs))
    case AssignStmt(lhs, tok, _) =>
      EnterAssignWalked(info, st, s);
      AssignTargets(info, st, lhs, tok, 0)
    case _ => st
  }

  /** An expression declares nothing in the current function: a literal's own layer is popped with it. */
  function WalkExpr(info: Info, st: State, e: Expr): (r: State)
    requires |st.stack| > 0
    ensures Step(st, r)
    ensures r.stack == st.stack
    ensures Walked(info, st, ExprTargets(e), {}, {}, r)
    decreases e, 1
  {
    match e
    case Name(_) => st
    case BasicLit(_, _) => st
    case Unary(_, x) => WalkExpr(info, st, x)
    case Selector(x, _) => WalkExpr(info, st, x)
    case Call(fun, args) =>
      var st1 := WalkExpr(info, st, fun);
      var r := WalkExprs(info, st1, args, 0);
      WalkedTrans(info, st, st1, r, ExprTargets(fun), {}, {}, ExprsTargets(args, 0), {}, {}, ExprTargets(e), {}, {});
      r
    case KeyValue(k, v) =>
      var st1 := WalkExpr(info, st, k);
      var r := WalkExpr(info, st1, v);
      WalkedTrans(info, st, st1, r, ExprTargets(k), {}, {}, ExprTargets(v), {}, {}, ExprTargets(e), {}, {});
      r
    case FuncLitExpr(lit) => WalkFuncLit(info, st, e)
    case OtherExpr(parts) => WalkExprs(info, st, parts, 0)
  }

  /** The walks of a literal's signature and body under its own layer report only its targets. */
  lemma FuncLitWalked(info: Info, st: State, e: Expr, inner: State, st1: State, st2: State, st3: State)
    requires |st.stack| > 0 && e.FuncLitExpr? && inner.reports == st.reports
    requires Step(inner, st1) && Step(st1, st2) && Step(st2, st3)
    requires Walked(info, inner, FieldsTargets(e.lit.typ.params, 0), {}, {}, st1)
    requires Walked(info, st1, FieldsTargets(e.lit.typ.results, 0), {}, {}, st2)
    requires Walked(info, st2, StmtsNested(e.lit.body, 0), StmtsDirect(e.lit.body, 0), StmtsDecls(e.lit.body, 0), st3)
    ensures Walked(info, st, ExprTargets(e), {}, {}, st3.(stack := st.stack))
  {
    WalkedTrans(info, inner, st1, st2, FieldsTargets(e.lit.typ.params, 0), {}, {}, FieldsTargets(e.lit.typ.results, 0), {}, {}, FieldsTargets(e.lit.typ.params, 0) + FieldsTargets(e.lit.typ.results, 0), {}, {});
    StepTrans(inner, st1, st2);
    WalkedTrans(info, inner, st2, st3, FieldsTargets(e.lit.typ.params, 0) + FieldsTargets(e.lit.typ.results, 0), {}, {},
      StmtsNested(e.lit.body, 0), StmtsDirect(e.lit.body, 0), StmtsDecls(e.lit.body, 0), FieldsTargets(e.lit.typ.params, 0) + FieldsTargets(e.lit.typ.results, 0) + StmtsNested(e.lit.body, 0),
      StmtsDirect(e.lit.body, 0), StmtsDecls(e.lit.body, 0));
    forall k | |st.reports| <= k < |st3.reports|
      ensures Justified(info, Top(st), ExprTargets(e), {}, st3.reports[k].pos)
    {
    }
  }

  /** Pushing an empty layer and declaring a signature in it pushes the signature layer. */
  lemma PushSignature(st: State, typ: FuncType)
    requires |st.stack| > 0
    ensures AddFuncVarDecls(st.(stack := st.stack + [[]]), typ) == st.(stack := st.stack + [SignatureLayer(typ)])
  {
    var inner := AddFuncVarDecls(st.(stack := st.stack + [[]]), typ);
    assert [] + Positions(FieldNames(typ.params)) + Positions(NamedReturns(typ)) == SignatureLayer(typ);
    assert inner.stack == inner.stack[..|st.stack|] + [inner.stack[|st.stack|]];
  }

  /**
   * A function literal: its body is walked under a fresh layer holding exactly its own
   * signature, on top of the enclosing stack; the layer is popped when the literal ends.
   */
  function WalkFuncLit(info: Info, st: State, e: Expr): (r: State)
    requires |st.stack| > 0 && e.FuncLitExpr?
    ensures Step(st, r)
    ensures r.stack == st.stack
    ensures var seeded := st.(stack := st.stack + [SignatureLayer(e.lit.typ)]);
      var head := WalkFields(info, WalkFields(info, seeded, e.lit.typ.params, 0), e.lit.typ.results, 0);
      && head.stack == seeded.stack
      && r.reports == WalkStmts(info, head, e.lit.body, 0).reports
    ensures Walked(info, st, ExprTargets(e), {}, {}, r)
    decreases e, 0
  {
    var inner := AddFuncVarDecls(st.(stack := st.stack + [[]]), e.lit.typ);
    PushSignature(st, e.lit.typ);
    var st1 := WalkFields(info, inner, e.lit.typ.params, 0);
    var st2 := WalkFields(info, st1, e.lit.typ.results, 0);
    var st3 := WalkStmts(info, st2, e.lit.body, 0);
    assert st3.stack[..|st.stack|] == st.stack;
    FuncLitWalked(info, st, e, inner, st1, st2, st3);
    var r := st3.(stack := st3.stack[..|st3.stack| - 1]);
    assert r == st3.(stack := st.stack);
    r
  }

  function WalkExprs(info: Info, st: State, es: seq<Expr>, i: nat): (r: State)
    requires |st.stack| > 0 && i <= |es|
    ensures Step(st, r)
    ensures r.stack == st.stack
    ensures Walked(info, st, ExprsTargets(es, i), {}, {}, r)
    decreases es, 0, |es| - i
  {
    if i == |es| then st
    else
      var st1 := WalkExpr(info, st, es[i]);
      var r := WalkExprs(info, st1, es, i + 1);
      WalkedTrans(info, st, st1, r, ExprTargets(es[i]), {}, {}, ExprsTargets(es, i + 1), {}, {}, ExprsTargets(es, i), {}, {});
      r
  }

  function WalkFields(info: Info, st: State, fs: seq<Field>, i: nat): (r: State)
    requires |st.stack| > 0 && i <= |fs|
    ensures Step(st, r)
    ensures r.stack == st.stack
    ensures Walked(info, st, FieldsTargets(fs, i), {}, {}, r)
    decreases fs, 0, |fs| - i
  {
    if i == |fs| then st
    else
      var st1 := WalkExpr(info, st, fs[i].typ);
      var r := WalkFields(info, st1, fs, i + 1);
      WalkedTrans(info, st, st1, r, ExprTargets(fs[i].typ), {}, {}, FieldsTargets(fs, i + 1), {}, {}, FieldsTargets(fs, i), {}, {});
      r
  }

  function WalkSpec(info: Info, st: State, spec: Spec): (r: State)
    requires |st.stack| > 0
    ensures Step(st, r)
    ensures r.stack == st.stack
    ensures Walked(info, st, SpecTargets(spec), {}, {}, r)
    decreases spec, 1
  {
    match spec
    case VSpec(vs) => WalkExprs(info, st, vs.values, 0)
    case TSpec(_, typ) => WalkExpr(info, st, typ)
  }

  function WalkSpecs(info: Info, st: State, specs: seq<Spec>, i: nat): (r: State)
    requires |st.stack| > 0 && i <= |specs|
    ensures Step(st, r)
    ensures r.stack == st.stack
    ensures Walked(info, st, SpecsTargets(specs, i), {}, {}, r)
    decreases specs, 0, |specs| - i
  {
    if i == |specs| then st
    else
      var st1 := WalkSpec(info, st, specs[i]);
      var r := WalkSpecs(info, st1, specs, i + 1);
      WalkedTrans(info, st, st1, r, SpecTargets(specs[i]), {}, {}, SpecsTargets(specs, i + 1), {}, {}, SpecsTargets(specs, i), {}, {});
      r
  }

  /** The pre-visit of a statement, then its children. */
  function WalkStmt(info: Info, st: State, s: Stmt): (r: State)
    requires |st.stack| > 0
    ensures Step(st, r)
    ensures r == WalkChildren(info, EnterStmt(info, st, s), s)
    ensures Walked(info, st, StmtNested(s), StmtDirect(s), StmtDecls(s), r)
    decreases s, 2
  {
    var st1 := EnterStmt(info, st, s);
    var st2 := WalkChildren(info, st1, s);
    StepTrans(st, st1, st2);
    WalkedTrans(info, st, st1, st2, {}, OwnTargets(s), OwnDecls(s), ChildNested(s), ChildDirect(s), ChildDecls(s), StmtNested(s), StmtDirect(s), StmtDecls(s));
    st2
  }

  /** The children of a statement, in syntax order. */
  function WalkChildren(info: Info, st: State, s: Stmt): (r: State)
    requires |st.stack| > 0
    ensures Step(st, r)
    ensures Walked(info, st, ChildNested(s), ChildDirect(s), ChildDecls(s), r)
    decreases s, 1
  {
    match s
    case DeclStmt(_, specs) => WalkSpecs(info, st, specs, 0)
    case AssignStmt(lhs, _, rhs) => WalkAssign(info, st, s)
    case GoStmt(fun, args) => WalkCall(info, st, s)
    case DeferStmt(fun, args) => WalkCall(info, st, s)
    case ExprStmt(x) => WalkExpr(info, st, x)
    case ReturnStmt(results) => WalkExprs(info, st, results, 0)
    case RangeStmt(vars, x, body) => WalkRange(info, st, s)
    case OtherStmt(parts) => WalkNodes(info, st, parts, 0)
  }

  /** An assignment's left-hand sides, then its right-hand sides. */
  function WalkAssign(info: Info, st: State, s: Stmt): (r: State)
    requires |st.stack| > 0 && s.AssignStmt?
    ensures Step(st, r)
    ensures Walked(info, st, ChildNested(s), {}, {}, r)
    decreases s, 0
  {
    var st1 := WalkExprs(info, st, s.lhs, 0);
    var st2 := WalkExprs(info, st1, s.rhs, 0);
    StepTrans(st, st1, st2);
    WalkedTrans(info, st, st1, st2, ExprsTargets(s.lhs, 0), {}, {}, ExprsTargets(s.rhs, 0), {}, {}, ChildNested(s), {}, {});
    st2
  }

  /** A `go` or `defer` statement's function, then its arguments. */
  function WalkCall(info: Info, st: State, s: Stmt): (r: State)
    requires |st.stack| > 0 && (s.GoStmt? || s.DeferStmt?)
    ensures Step(st, r)
    ensures Walked(info, st, ChildNested(s), {}, {}, r)
    decreases s, 0
  {
    var st1 := WalkExpr(info, st, s.fun);
    var st2 := WalkExprs(info, st1, s.args, 0);
    StepTrans(st, st1, st2);
    WalkedTrans(info, st, st1, st2, ExprTargets(s.fun), {}, {}, ExprsTargets(s.args, 0), {}, {}, ChildNested(s), {}, {});
    st2
  }

  /** The variables of a `range ... =` clause, walked as expressions; a `:=` clause's are not walked for declarations. */
  function WalkRangeVars(info: Info, st: State, vars: RangeVars): (r: State)
    requires |st.stack| > 0
    ensures Step(st, r)
    ensures r.stack == st.stack
    ensures Walked(info, st, RangeTargets(vars), {}, {}, r)
    decreases vars, 1
  {
    match vars
    case Assigns(k, v) =>
      var st1 := WalkExpr(info, st, k);
      if v.Some? then
        var r := WalkExpr(info, st1, v.value);
        WalkedTrans(info, st, st1, r, ExprTargets(k), {}, {}, ExprTargets(v.value), {}, {}, RangeTargets(vars), {}, {});
        r
      else st1
    case _ => st
  }

  /** A range loop's children: its variables (as expressions), the ranged value and the body. */
  function WalkRange(info: Info, st: State, s: Stmt): (r: State)
    requires |st.stack| > 0 && s.RangeStmt?
    ensures Step(st, r)
    ensures Walked(info, st, ChildNested(s), ChildDirect(s), ChildDecls(s), r)
    decreases s, 0
  {
    var st1 := WalkRangeVars(info, st, s.vars);
    var st2 := WalkExpr(info, st1, s.x);
    var r := WalkStmts(info, st2, s.body, 0);
    WalkedTrans(info, st, st1, st2, RangeTargets(s.vars), {}, {}, ExprTargets(s.x), {}, {}, RangeTargets(s.vars) + ExprTargets(s.x), {}, {});
    StepTrans(st, st1, st2);
    WalkedTrans(info, st, st2, r, RangeTargets(s.vars) + ExprTargets(s.x), {}, {},
      StmtsNested(s.body, 0), StmtsDirect(s.body, 0), StmtsDecls(s.body, 0), ChildNested(s), ChildDirect(s), ChildDecls(s));
    r
  }

  function WalkStmts(info: Info, st: State, ss: seq<Stmt>, i: nat): (r: State)
    requires |st.stack| > 0 && i <= |ss|
    ensures Step(st, r)
    ensures Walked(info, st, StmtsNested(ss, i), StmtsDirect(ss, i), StmtsDecls(ss, i), r)
    decreases ss, 0, |ss| - i
  {
    if i == |ss| then st
    else
      var st1 := WalkStmt(info, st, ss[i]);
      var r := WalkStmts(info, st1, ss, i + 1);
      WalkedTrans(info, st, st1, r, StmtNested(ss[i]), StmtDirect(ss[i]), StmtDecls(ss[i]),
        StmtsNested(ss, i + 1), StmtsDirect(ss, i + 1), StmtsDecls(ss, i + 1), StmtsNested(ss, i), StmtsDirect(ss, i), StmtsDecls(ss, i));
      r
  }

  function WalkNode(info: Info, st: State, n: Node): (r: State)
    requires |st.stack| > 0
    ensures Step(st, r)
    ensures Walked(info, st, NodeNested(n), NodeDirect(n), NodeDecls(n), r)
    decreases n, 1
  {
    match n
    case StmtNode(s) => WalkStmt(info, st, s)
    case ExprNode(e) => WalkExpr(info, st, e)
    case SpecNode(vs) => WalkExprs(info, st, vs.values, 0)
  }

  function WalkNodes(info: Info, st: State, ns: seq<Node>, i: nat): (r: State)
    requires |st.stack| > 0 && i <= |ns|
    ensures Step(st, r)
    ensures Walked(info, st, NodesNested(ns, i), NodesDirect(ns, i), NodesDecls(ns, i), r)
    decreases ns, 0, |ns| - i
  {
    if i == |ns| then st
    else
      var st1 := WalkNode(info, st, ns[i]);
      var r := WalkNodes(info, st1, ns, i + 1);
      WalkedTrans(info, st, st1, r, NodeNested(ns[i]), NodeDirect(ns[i]), NodeDecls(ns[i]),
        NodesNested(ns, i + 1), NodesDirect(ns, i + 1), NodesDecls(ns, i + 1), NodesNested(ns, i), NodesDirect(ns, i), NodesDecls(ns, i));
      r
  }

  /** The positions a function's signature declares: its parameters, then its named results. */
  function SignatureLayer(typ: FuncType): (r: seq<Pos>)
    ensures forall p :: p in r <==>
      (exists id :: id in FieldNames(typ.params) && id.pos == p) || (exists id :: id in NamedReturns(typ) && id.pos == p)
  {
    Positions(FieldNames(typ.params)) + Positions(NamedReturns(typ))
  }

  /** A function declared without a body makes the walk dereference a missing block. */
  datatype Fault = MissingBody(name: Ident)

  /** A declaration that would make the analysis fail: a function without a body. */
  predicate Bodiless(d: TopDecl) {
    d.FuncDecl? && d.body.None?
  }

  /**
   * The reports for one top-level function: its body is walked from a fresh stack whose
   * only layer is its signature. A function without a body is a fault.
   */
  function FuncReports(info: Info, d: TopDecl): (r: Result<seq<Report>, Fault>)
    ensures d.GenDeclTop? ==> r == Success([])
    ensures r.Failure? <==> Bodiless(d)
    ensures r.Failure? ==> r.error == MissingBody(d.name)
    ensures d.FuncDecl? && d.body.Some? ==>
      r.value == WalkStmts(info, State([SignatureLayer(d.typ)], []), d.body.value, 0).reports
  {
    match d
    case FuncDecl(_, name, typ, body) =>
      if body.None? then Failure(MissingBody(name))
      else
        var st := AddFuncVarDecls(State([[]], []), typ);
        assert [] + Positions(FieldNames(typ.params)) + Positions(NamedReturns(typ)) == SignatureLayer(typ);
        assert st.stack == [st.stack[0]];
        Success(WalkStmts(info, st, body.value, 0).reports)
    case GenDeclTop(_, _) => Success([])
  }

  /**
   * A function's reports are exactly right about its own `=` statements: every report names
   * an `error` variable and is at an `=` target inside a nested literal, or at one outside
   * them whose variable is neither a parameter nor a named result; and every `=` outside
   * nested literals to an `error` variable that the function neither takes as a parameter
   * or named result nor declares in its body is reported.
   */
  lemma FuncReportsJudgeTargets(info: Info, d: TopDecl)
    requires d.FuncDecl? && d.body.Some?
    ensures var r := FuncReports(info, d);
      && (forall rep :: rep in r.value ==>
            && ErrorUse(info, rep.pos)
            && (|| rep.pos in StmtsNested(d.body.value, 0)
                || (rep.pos in StmtsDirect(d.body.value, 0) && info.uses[rep.pos].pos !in SignatureLayer(d.typ))))
      && forall p ::
        && p in StmtsDirect(d.body.value, 0) && ErrorUse(info, p)
        && info.uses[p].pos !in SignatureLayer(d.typ) && info.uses[p].pos !in StmtsDecls(d.body.value, 0)
        ==> exists rep :: rep in r.value && rep.pos == p
  {
    var st := State([SignatureLayer(d.typ)], []);
    var w := WalkStmts(info, st, d.body.value, 0);
    assert FuncReports(info, d).value == w.reports;
    assert Top(st) == SignatureLayer(d.typ);
    forall rep | rep in w.reports
      ensures Justified(info, Top(st), StmtsNested(d.body.value, 0), StmtsDirect(d.body.value, 0), rep.pos)
    {
      var k :| 0 <= k < |w.reports| && w.reports[k] == rep;
    }
  }

  /** An `=` outside nested literals to a parameter or a named result is never reported, whatever the body. */
  lemma SignatureAssignNotReported(info: Info, d: TopDecl, p: Pos)
    requires d.FuncDecl? && d.body.Some? && p in info.uses && info.uses[p].pos in SignatureLayer(d.typ)
    requires p !in StmtsNested(d.body.value, 0)
    ensures forall rep :: rep in FuncReports(info, d).value ==> rep.pos != p
  {
    FuncReportsJudgeTargets(info, d);
  }

  /** Two analyses in sequence: the first fault stops the whole; otherwise the reports are concatenated. */
  function Join(x: Result<seq<Report>, Fault>, y: Result<seq<Report>, Fault>): Result<seq<Report>, Fault> {
    if x.Failure? then x else if y.Failure? then y else Success(x.value + y.value)
  }

  lemma JoinAssociative(x: Result<seq<Report>, Fault>, y: Result<seq<Report>, Fault>, z: Result<seq<Report>, Fault>)
    ensures Join(Join(x, y), z) == Join(x, Join(y, z))
  {
    if x.Success? && y.Success? && z.Success? {
      assert (x.value + y.value) + z.value == x.value + (y.value + z.value);
    }
  }

  /** The reports for one file, function by function; the first function without a body stops the analysis. */
  function FileReports(info: Info, file: seq<TopDecl>): (r: Result<seq<Report>, Fault>)
    ensures file == [] ==> r == Success([])
    ensures r.Failure? <==> exists i :: 0 <= i < |file| && Bodiless(file[i])
  {
    if file == [] then Success([])
    else
      assert forall i :: 1 <= i < |file| ==> file[i] == file[1..][i - 1];
      Join(FuncReports(info, file[0]), FileReports(info, file[1..]))
  }

  /**
   * Each function is judged on its own: the analysis of two halves of a file is the first
   * half's followed by the second's, a fault in the first half being the file's fault.
   */
  lemma {:induction false} FileReportsSplit(info: Info, a: seq<TopDecl>, b: seq<TopDecl>)
    ensures FileReports(info, a + b) == Join(FileReports(info, a), FileReports(info, b))
  {
    if a != [] {
      assert (a + b)[1..] == a[1..] + b;
      assert (a + b)[0] == a[0];
      FileReportsSplit(info, a[1..], b);
      JoinAssociative(FuncReports(info, a[0]), FileReports(info, a[1..]), FileReports(info, b));
    } else {
      assert a + b == b;
      if FileReports(info, b).Success? {
        assert [] + FileReports(info, b).value == FileReports(info, b).value;
      }
    }
  }

  /** An `=` to a parameter or a named result of the current function is never reported. */
  lemma SignatureProtects(info: Info, st: State, typ: FuncType, use: Ident)
    requires |st.stack| > 0 && use.pos in info.uses
    requires (exists id :: id in FieldNames(typ.params) && id.pos == info.uses[use.pos].pos)
          || (exists id :: id in NamedReturns(typ) && id.pos == info.uses[use.pos].pos)
    ensures var st1 := AddFuncVarDecls(st, typ);
      Check(info, use, st1) == st1
  {
    var st1 := AddFuncVarDecls(st, typ);
    var p := info.uses[use.pos].pos;
    assert p in Positions(FieldNames(typ.params)) || p in Positions(NamedReturns(typ));
    assert p in st1.stack[|st1.stack| - 1];
  }

  /** Only the top layer matters: a declaration in an enclosing function does not protect an `=`. */
  lemma LowerLayersIgnored(info: Info, ident: Ident, outer: seq<Pos>, top: seq<Pos>)
    requires ident.pos in info.uses && info.uses[ident.pos].typ == ErrorType
    requires info.uses[ident.pos].pos in outer && info.uses[ident.pos].pos !in top
    ensures Check(info, ident, State([outer, top], [])).reports == [Report(ident.pos, info.uses[ident.pos].name)]
  {
    assert Captured(info, [outer, top], ident);
  }

  /** Inside a function literal, `err = f()` on the enclosing function's `err` is reported. */
  lemma CapturedAssignReported(info: Info, err: Ident, call: Expr, outer: seq<Pos>)
    requires err.name != "_" && err.pos in info.uses
    requires info.uses[err.pos].typ == ErrorType && info.uses[err.pos].pos in outer
    ensures AssignTargets(info, State([outer, []], []), [Name(err)], Assign, 0).reports
         == [Report(err.pos, info.uses[err.pos].name)]
  {
    var st := State([outer, []], []);
    assert Captured(info, st.stack, err);
  }

  /** `err := f()` declares `err` in the current layer, so a later `err = g()` on it is not reported. */
  lemma RedeclaredErrAllowed(info: Info, err: Ident, use: Ident, st: State)
    requires |st.stack| > 0 && err.name != "_" && use.pos in info.uses && info.uses[use.pos].pos == err.pos
    ensures var st1 := AssignTargets(info, st, [Name(err)], Define, 0);
      Check(info, use, st1) == st1
  {
    var st1 := AssignTargets(info, st, [Name(err)], Define, 0);
    assert err.pos in st1.stack[|st1.stack| - 1];
  }
}
