/**
 * The uninitialised-variable analysis: evaluation of statements and expressions over a
 * `Scope`, the report-once use check, and the per-function dataflow over the blocks of a
 * control-flow graph.
 *
 * Mutation of the Go context is modelled by threading a `Ctx` value through every
 * evaluation function. The shared `reported` table and the emitted diagnostics form the
 * `Log`, which is passed into nested function evaluations and comes back out of them. The
 * engine's one fatal fault, a dependency cycle among blocks, is the `Failure` case.
 */
module VarInit {
  import opened Wrappers
  import opened Ast
  import opened Utils
  import opened Scopes
  import BlockOrder

  /** `UseSite` comes from reading a variable, `NamedReturn` from the exit check of a named result. */
  datatype DiagKind = UseSite | NamedReturn

  /** A report: where, which variable (by its recorded name), and the branches that leave it unassigned. */
  datatype Diagnostic = Diagnostic(pos: Pos, decl: VarId, name: string, branches: set<BranchId>, kind: DiagKind)

  /** The state shared by a whole run: the variables already reported, and the reports so far. */
  datatype Log = Log(reported: set<VarId>, diags: seq<Diagnostic>)

  datatype Ctx = Ctx(scope: Scope, log: Log)

  datatype Fault = OrderingCycle(stuck: set<nat>)

  /** Every report names a reported variable and at least one branch, and no use site repeats a variable reported earlier. */
  ghost predicate Consistent(log: Log) {
    && (forall i :: 0 <= i < |log.diags| ==> log.diags[i].decl in log.reported && log.diags[i].branches != {})
    && (forall i, j :: 0 <= i < j < |log.diags| && log.diags[j].kind == UseSite ==> log.diags[i].decl != log.diags[j].decl)
  }

  /** `b` continues `a`: nothing is forgotten, nothing is retracted, consistency is kept. */
  ghost predicate LogGrows(a: Log, b: Log) {
    && a.reported <= b.reported
    && a.diags <= b.diags
    && (Consistent(a) ==> Consistent(b))
  }

  /** `d` continues `c` at the same program point. */
  ghost predicate Extends(c: Ctx, d: Ctx) {
    && LogGrows(c.log, d.log)
    && d.scope.location == c.scope.location
    && d.scope.comment == c.scope.comment
  }

  /** Variable `id` is tracked and some branch leaves it unassigned. */
  predicate Uninitialized(s: Scope, id: VarId) {
    id in s.uninit && s.uninit[id].uninit != map[]
  }

  /** Reports `id` at `pos` when it is tracked with a non-empty blame, and marks it reported. */
  function CheckUseByDecl(c: Ctx, id: VarId, pos: Pos, kind: DiagKind): (r: Ctx)
    ensures r.scope == c.scope
    ensures kind == NamedReturn || id !in c.log.reported ==> Extends(c, r)
    ensures !Uninitialized(c.scope, id) ==> r == c
    ensures Uninitialized(c.scope, id) ==>
      && r.log.reported == c.log.reported + {id}
      && r.log.diags == c.log.diags + [Diagnostic(pos, id, c.scope.uninit[id].name, c.scope.uninit[id].uninit.Keys, kind)]
  {
    if !Uninitialized(c.scope, id) then c
    else
      var decl := c.scope.uninit[id];
      var d := Diagnostic(pos, id, decl.name, decl.uninit.Keys, kind);
      assert decl.uninit.Keys != {} by {
        var b :| b in decl.uninit;
      }
      var r := c.(log := Log(c.log.reported + {id}, c.log.diags + [d]));
      assert Consistent(c.log) && (kind == NamedReturn || id !in c.log.reported) ==> Consistent(r.log) by {
        if Consistent(c.log) && (kind == NamedReturn || id !in c.log.reported) {
          var ds := r.log.diags;
          forall i, j | 0 <= i < j < |ds| && ds[j].kind == UseSite
            ensures ds[i].decl != ds[j].decl
          {
            if j == |ds| - 1 {
              assert ds[i] == c.log.diags[i];
            }
          }
        }
      }
      r
  }

  /**
   * A read of `e`: reported once per variable, when the variable is still unassigned on
   * some branch; a variable reported before is never reported again.
   */
  function CheckUse(info: Info, c: Ctx, e: Ident): (r: Ctx)
    ensures r.scope == c.scope
    ensures Extends(c, r)
    ensures var id := DeclIdForUse(info, e);
      (|r.log.diags| == |c.log.diags| + 1 <==> id !in c.log.reported && Uninitialized(c.scope, id))
    ensures var id := DeclIdForUse(info, e);
      id !in c.log.reported && Uninitialized(c.scope, id) ==>
        && r.log.diags[|c.log.diags|] == Diagnostic(e.pos, id, c.scope.uninit[id].name, c.scope.uninit[id].uninit.Keys, UseSite)
        && id in r.log.reported
    ensures |r.log.diags| != |c.log.diags| + 1 ==> r == c
  {
    var id := DeclIdForUse(info, e);
    if id in c.log.reported then c
    else CheckUseByDecl(c, id, e.pos, UseSite)
  }

  /** Some identifier of `ids[i..]` refers to variable `v`. */
  ghost predicate ReadsVar(info: Info, ids: seq<Ident>, i: nat, v: VarId) {
    exists k :: i <= k < |ids| && DeclIdForUse(info, ids[k]) == v
  }

  /** `d` reports a read, by one of `ids[i..]`, of a variable that scope `s` leaves unassigned on some branch. */
  ghost predicate UseReport(info: Info, s: Scope, ids: seq<Ident>, i: nat, d: Diagnostic) {
    && d.kind == UseSite
    && Uninitialized(s, d.decl)
    && d.name == s.uninit[d.decl].name
    && d.branches == s.uninit[d.decl].uninit.Keys
    && exists k :: i <= k < |ids| && ids[k].pos == d.pos && DeclIdForUse(info, ids[k]) == d.decl
  }

  /**
   * Reads every identifier of `ids`, in order. The variables reported are exactly those
   * read, unassigned on some branch and not reported before; each new report is a use
   * report against the unchanged scope, for a variable not reported before.
   */
  function CheckUses(info: Info, c: Ctx, ids: seq<Ident>, i: nat): (r: Ctx)
    requires i <= |ids|
    ensures r.scope == c.scope
    ensures Extends(c, r)
    ensures forall v :: v in r.log.reported <==>
      v in c.log.reported || (ReadsVar(info, ids, i, v) && Uninitialized(c.scope, v))
    ensures forall k :: |c.log.diags| <= k < |r.log.diags| ==>
      UseReport(info, c.scope, ids, i, r.log.diags[k]) && r.log.diags[k].decl !in c.log.reported
    ensures forall v :: ReadsVar(info, ids, i, v) && Uninitialized(c.scope, v) && v !in c.log.reported ==>
      ReportedFrom(r.log.diags, |c.log.diags|, v)
    decreases |ids| - i
  {
    if i == |ids| then c
    else
      var c1 := CheckUse(info, c, ids[i]);
      var r := CheckUses(info, c1, ids, i + 1);
      CheckUsesStep(info, c, ids, i, c1, r);
      r
  }

  /** The step of CheckUses' contract: the first read, then the rest from where it left the log. */
  lemma CheckUsesStep(info: Info, c: Ctx, ids: seq<Ident>, i: nat, c1: Ctx, r: Ctx)
    requires i < |ids|
    requires c1 == CheckUse(info, c, ids[i])
    requires r.scope == c1.scope && Extends(c1, r)
    requires forall v :: v in r.log.reported <==>
      v in c1.log.reported || (ReadsVar(info, ids, i + 1, v) && Uninitialized(c1.scope, v))
    requires forall k :: |c1.log.diags| <= k < |r.log.diags| ==>
      UseReport(info, c1.scope, ids, i + 1, r.log.diags[k]) && r.log.diags[k].decl !in c1.log.reported
    requires forall v :: ReadsVar(info, ids, i + 1, v) && Uninitialized(c1.scope, v) && v !in c1.log.reported ==>
      ReportedFrom(r.log.diags, |c1.log.diags|, v)
    ensures forall v :: v in r.log.reported <==>
      v in c.log.reported || (ReadsVar(info, ids, i, v) && Uninitialized(c.scope, v))
    ensures forall k :: |c.log.diags| <= k < |r.log.diags| ==>
      UseReport(info, c.scope, ids, i, r.log.diags[k]) && r.log.diags[k].decl !in c.log.reported
    ensures forall v :: ReadsVar(info, ids, i, v) && Uninitialized(c.scope, v) && v !in c.log.reported ==>
      ReportedFrom(r.log.diags, |c.log.diags|, v)
  {
    var id := DeclIdForUse(info, ids[i]);
    var reported := |c1.log.diags| == |c.log.diags| + 1;
    forall v
      ensures ReadsVar(info, ids, i, v) <==> DeclIdForUse(info, ids[i]) == v || ReadsVar(info, ids, i + 1, v)
    {
      if ReadsVar(info, ids, i, v) {
        var k :| i <= k < |ids| && DeclIdForUse(info, ids[k]) == v;
        if k > i {
          assert ReadsVar(info, ids, i + 1, v);
        }
      }
    }
    assert reported ==> c1.log.reported == c.log.reported + {id} by {
      if reported {
        assert id !in c.log.reported && Uninitialized(c.scope, id);
      }
    }
    forall k | |c.log.diags| <= k < |r.log.diags|
      ensures UseReport(info, c.scope, ids, i, r.log.diags[k]) && r.log.diags[k].decl !in c.log.reported
    {
      if k < |c1.log.diags| {
        assert r.log.diags[k] == c1.log.diags[k];
        assert k == |c.log.diags| && reported;
      } else {
        var d := r.log.diags[k];
        var j :| i + 1 <= j < |ids| && ids[j].pos == d.pos && DeclIdForUse(info, ids[j]) == d.decl;
      }
    }
    forall v | ReadsVar(info, ids, i, v) && Uninitialized(c.scope, v) && v !in c.log.reported
      ensures ReportedFrom(r.log.diags, |c.log.diags|, v)
    {
      if v == id {
        assert r.log.diags[|c.log.diags|] == c1.log.diags[|c.log.diags|];
      } else {
        assert v !in c1.log.reported;
        var k :| |c1.log.diags| <= k < |r.log.diags| && r.log.diags[k].decl == v;
      }
    }
  }

  /** Reading the identifiers of `ids[i..]` is reading the slice from its start. */
  lemma {:induction false} CheckUsesShift(info: Info, c: Ctx, ids: seq<Ident>, i: nat)
    requires i <= |ids|
    ensures CheckUses(info, c, ids, i) == CheckUses(info, c, ids[i..], 0)
    decreases |ids| - i
  {
    if i < |ids| {
      var c1 := CheckUse(info, c, ids[i]);
      CheckUsesShift(info, c1, ids, i + 1);
      CheckUsesShift(info, c1, ids[i..], 1);
      assert ids[i..][1..] == ids[i + 1..];
    }
  }

  /** Reading `a + b` is reading `a`, then `b` from where `a` left the log. */
  lemma {:induction false} CheckUsesAppend(info: Info, c: Ctx, a: seq<Ident>, b: seq<Ident>)
    ensures CheckUses(info, c, a + b, 0) == CheckUses(info, CheckUses(info, c, a, 0), b, 0)
    decreases |a|
  {
    if a == [] {
      assert a + b == b;
    } else {
      var c1 := CheckUse(info, c, a[0]);
      CheckUsesShift(info, c1, a + b, 1);
      CheckUsesShift(info, c1, a, 1);
      assert (a + b)[1..] == a[1..] + b;
      CheckUsesAppend(info, c1, a[1..], b);
    }
  }

  /** Identifier `x` declares variable `v`. */
  predicate Defines(info: Info, x: Ident, v: VarId) {
    x.pos in info.defs && info.defs[x.pos].pos == v
  }

  /** Some identifier of `ids[i..]` declares `v`. */
  ghost predicate Declares(info: Info, ids: seq<Ident>, i: nat, v: VarId) {
    exists k :: i <= k < |ids| && Defines(info, ids[k], v)
  }

  lemma DeclaresSplit(info: Info, ids: seq<Ident>, i: nat)
    requires i < |ids|
    ensures forall v :: Declares(info, ids, i, v) <==> Defines(info, ids[i], v) || Declares(info, ids, i + 1, v)
  {
    forall v | Declares(info, ids, i, v)
      ensures Defines(info, ids[i], v) || Declares(info, ids, i + 1, v)
    {
      var k :| i <= k < |ids| && Defines(info, ids[k], v);
      if k > i {
        assert Declares(info, ids, i + 1, v);
      }
    }
  }

  /**
   * Bare declarations of every identifier of `ids`, in order: every declared variable is
   * tracked, unassigned, and blamed on exactly the current branch with the current label;
   * every other variable keeps its record.
   */
  function NewDecls(info: Info, s: Scope, ids: seq<Ident>, i: nat): (r: Scope)
    requires i <= |ids|
    ensures r.location == s.location && r.comment == s.comment
    ensures forall v :: v in r.uninit <==> v in s.uninit || Declares(info, ids, i, v)
    ensures forall v :: Declares(info, ids, i, v) ==>
      !r.uninit[v].changed && r.uninit[v].uninit == map[s.location := DeclBranch(s.comment)]
    ensures forall v :: v in s.uninit && !Declares(info, ids, i, v) ==> r.uninit[v] == s.uninit[v]
    decreases |ids| - i
  {
    if i == |ids| then s
    else
      DeclaresSplit(info, ids, i);
      NewDecls(info, NewDecl(info, s, ids[i]), ids, i + 1)
  }

  /** Declaring the identifiers of `ids[i..]` is declaring the slice from its start. */
  lemma {:induction false} NewDeclsShift(info: Info, s: Scope, ids: seq<Ident>, i: nat)
    requires i <= |ids|
    ensures NewDecls(info, s, ids, i) == NewDecls(info, s, ids[i..], 0)
    decreases |ids| - i
  {
    if i < |ids| {
      var s1 := NewDecl(info, s, ids[i]);
      NewDeclsShift(info, s1, ids, i + 1);
      NewDeclsShift(info, s1, ids[i..], 1);
      assert ids[i..][1..] == ids[i + 1..];
    }
  }

  /** Declaring `a + b` is declaring `a`, then `b` in the scope `a` leaves. */
  lemma {:induction false} NewDeclsAppend(info: Info, s: Scope, a: seq<Ident>, b: seq<Ident>)
    ensures NewDecls(info, s, a + b, 0) == NewDecls(info, NewDecls(info, s, a, 0), b, 0)
    decreases |a|
  {
    if a == [] {
      assert a + b == b;
    } else {
      var s1 := NewDecl(info, s, a[0]);
      NewDeclsShift(info, s1, a + b, 1);
      NewDeclsShift(info, s1, a, 1);
      assert (a + b)[1..] == a[1..] + b;
      NewDeclsAppend(info, s1, a[1..], b);
    }
  }

  /** A record once its variable is assigned: changed, and blamed on no branch. */
  function Assigned(d: Decl): Decl {
    d.(changed := true, uninit := map[])
  }

  /** `e` is a bare identifier that refers to variable `v`. */
  predicate Hits(info: Info, e: Expr, v: VarId) {
    e.Name? && e.id.pos in info.uses && info.uses[e.id.pos].pos == v
  }

  /** Some target of `lhs[i..]` is a bare identifier referring to `v`. */
  ghost predicate Targets(info: Info, lhs: seq<Expr>, i: nat, v: VarId) {
    exists k :: i <= k < |lhs| && Hits(info, lhs[k], v)
  }

  lemma TargetsSplit(info: Info, lhs: seq<Expr>, i: nat)
    requires i < |lhs|
    ensures forall v :: Targets(info, lhs, i, v) <==> Hits(info, lhs[i], v) || Targets(info, lhs, i + 1, v)
  {
    forall v | Targets(info, lhs, i, v)
      ensures Hits(info, lhs[i], v) || Targets(info, lhs, i + 1, v)
    {
      var k :| i <= k < |lhs| && Hits(info, lhs[k], v);
      if k > i {
        assert Targets(info, lhs, i + 1, v);
      }
    }
  }

  /**
   * Marks every bare identifier on the left of an assignment, in order: a tracked variable
   * that some target refers to ends assigned with an empty blame, and every other record
   * is kept.
   */
  function MarkTargets(info: Info, s: Scope, lhs: seq<Expr>, i: nat): (r: Scope)
    requires i <= |lhs|
    ensures r.location == s.location && r.comment == s.comment
    ensures r.uninit.Keys == s.uninit.Keys
    ensures forall v :: v in s.uninit ==>
      r.uninit[v] == if Targets(info, lhs, i, v) then Assigned(s.uninit[v]) else s.uninit[v]
    decreases |lhs| - i
  {
    if i == |lhs| then s
    else
      var s' := if lhs[i].Name? then MarkInitialized(info, s, lhs[i].id) else s;
      TargetsSplit(info, lhs, i);
      MarkTargets(info, s', lhs, i + 1)
  }

  /**
   * `e` only reads: it holds no function literal and takes the address of no bare
   * identifier, the only two forms whose evaluation changes the scope.
   */
  predicate ReadOnly(e: Expr) {
    match e
    case Name(_) => true
    case BasicLit(_, _) => true
    case Unary(op, x) => !(op == And && x.Name?) && ReadOnly(x)
    case Selector(x, _) => ReadOnly(x)
    case Call(fun, args) => ReadOnly(fun) && forall a | a in args :: ReadOnly(a)
    case KeyValue(k, v) => ReadOnly(k) && ReadOnly(v)
    case FuncLitExpr(_) => false
    case OtherExpr(parts) => forall p | p in parts :: ReadOnly(p)
  }

  /**
   * The identifiers an evaluation of `e` reads, in order: a bare identifier, and otherwise
   * those of its children, except that `&x` reads nothing and a call reads its arguments
   * but not its callee.
   */
  ghost function Reads(e: Expr): seq<Ident>
    decreases e, 1
  {
    match e
    case Name(id) => [id]
    case Call(_, args) => ReadsFrom(args, 0)
    case Unary(op, x) => if op == And && x.Name? then [] else ChildReads(e)
    case _ => ChildReads(e)
  }

  /** The identifiers read by the children of `e`, in syntax order. */
  ghost function ChildReads(e: Expr): seq<Ident>
    decreases e, 0
  {
    match e
    case Name(_) => []
    case BasicLit(_, _) => []
    case Unary(_, x) => Reads(x)
    case Selector(x, sel) => Reads(x) + [sel]
    case Call(fun, args) => Reads(fun) + ReadsFrom(args, 0)
    case KeyValue(k, v) => Reads(k) + Reads(v)
    case FuncLitExpr(_) => []
    case OtherExpr(parts) => ReadsFrom(parts, 0)
  }

  /** The identifiers read by `es[i..]`, in order. */
  ghost function ReadsFrom(es: seq<Expr>, i: nat): seq<Ident>
    requires i <= |es|
    decreases es, 2, |es| - i
  {
    if i == |es| then [] else Reads(es[i]) + ReadsFrom(es, i + 1)
  }

  /** Every expression of `es[i..]` only reads. */
  predicate AllReadOnly(es: seq<Expr>, i: nat) {
    forall k :: i <= k < |es| ==> ReadOnly(es[k])
  }

  /** The expression lists under a read-only call or composite only read. */
  lemma ReadOnlyChildren(e: Expr)
    ensures e.Call? && ReadOnly(e) ==> ReadOnly(e.fun) && AllReadOnly(e.args, 0)
    ensures e.OtherExpr? && ReadOnly(e) ==> AllReadOnly(e.parts, 0)
  {
    if e.Call? && ReadOnly(e) {
      assert forall k :: 0 <= k < |e.args| ==> e.args[k] in e.args;
    }
    if e.OtherExpr? && ReadOnly(e) {
      assert forall k :: 0 <= k < |e.parts| ==> e.parts[k] in e.parts;
    }
  }

  /** The identifiers read by the children of `es[i..]`, in order. */
  ghost function ChildReadsFrom(es: seq<Expr>, i: nat): seq<Ident>
    requires i <= |es|
    decreases |es| - i
  {
    if i == |es| then [] else ChildReads(es[i]) + ChildReadsFrom(es, i + 1)
  }

  /** The identifiers the targets `lhs[i..]` read: those of every target that is not a bare identifier. */
  ghost function TargetReads(lhs: seq<Expr>, i: nat): seq<Ident>
    requires i <= |lhs|
    decreases |lhs| - i
  {
    if i == |lhs| then [] else (if lhs[i].Name? then [] else Reads(lhs[i])) + TargetReads(lhs, i + 1)
  }

  /** The identifiers the key and value of a `range` clause read. */
  ghost function RangeReads(vars: RangeVars): seq<Ident> {
    match vars
    case NoVars => []
    case Defines(k, v) => [k] + (if v.Some? then [v.value] else [])
    case Assigns(k, v) => Reads(k) + (if v.Some? then Reads(v.value) else [])
  }

  /** The key and value of a `range` clause only read. */
  predicate RangeReadOnly(vars: RangeVars) {
    vars.Assigns? ==> ReadOnly(vars.key) && (vars.value.Some? ==> ReadOnly(vars.value.value))
  }

  /** A statement that only reads: an expression statement, or a `return` whose results only read. */
  predicate StmtReadOnly(s: Stmt) {
    || (s.ExprStmt? && ReadOnly(s.x))
    || (s.ReturnStmt? && AllReadOnly(s.results, 0))
  }

  /** The identifiers an expression statement or a `return` reads. */
  ghost function StmtReads(s: Stmt): seq<Ident> {
    match s
    case ExprStmt(x) => Reads(x)
    case ReturnStmt(results) => ReadsFrom(results, 0)
    case _ => []
  }

  predicate AllStmtsReadOnly(ss: seq<Stmt>, i: nat) {
    forall k :: i <= k < |ss| ==> StmtReadOnly(ss[k])
  }

  /** The identifiers the statements `ss[i..]` read, in order. */
  ghost function StmtsReads(ss: seq<Stmt>, i: nat): seq<Ident>
    requires i <= |ss|
    decreases |ss| - i
  {
    if i == |ss| then [] else StmtReads(ss[i]) + StmtsReads(ss, i + 1)
  }

  /** A block node that only reads: a statement that only reads, or an expression that only reads. */
  predicate NodeReadOnly(n: Node) {
    match n
    case StmtNode(s) => StmtReadOnly(s)
    case ExprNode(e) => ReadOnly(e)
    case SpecNode(_) => false
  }

  /** A child of an unmodelled statement that only reads: as a block node, or a value spec whose values only read. */
  predicate PartReadOnly(n: Node) {
    if n.SpecNode? then AllReadOnly(n.vs.values, 0) else NodeReadOnly(n)
  }

  /** The identifiers a node reads; a value spec reads its names and then its values. */
  ghost function NodeReads(n: Node): seq<Ident> {
    match n
    case StmtNode(s) => StmtReads(s)
    case ExprNode(e) => Reads(e)
    case SpecNode(vs) => vs.names + ReadsFrom(vs.values, 0)
  }

  predicate AllNodesReadOnly(nodes: seq<Node>, i: nat) {
    forall k :: i <= k < |nodes| ==> NodeReadOnly(nodes[k])
  }

  predicate AllPartsReadOnly(parts: seq<Node>, i: nat) {
    forall k :: i <= k < |parts| ==> PartReadOnly(parts[k])
  }

  /** The identifiers the nodes `nodes[i..]` read, in order. */
  ghost function NodesReads(nodes: seq<Node>, i: nat): seq<Ident>
    requires i <= |nodes|
    decreases |nodes| - i
  {
    if i == |nodes| then [] else NodeReads(nodes[i]) + NodesReads(nodes, i + 1)
  }

  /** A spec visited as a child whose expressions only read. */
  predicate SpecReadOnly(spec: Spec) {
    match spec
    case VSpec(vs) => AllReadOnly(vs.values, 0)
    case TSpec(_, typ) => ReadOnly(typ)
  }

  /** The identifiers a spec visited as a child reads: a value spec's names and values, a type spec's name and type. */
  ghost function SpecReads(spec: Spec): seq<Ident> {
    match spec
    case VSpec(vs) => vs.names + ReadsFrom(vs.values, 0)
    case TSpec(name, typ) => [name] + Reads(typ)
  }

  predicate AllSpecsReadOnly(specs: seq<Spec>, i: nat) {
    forall k :: i <= k < |specs| ==> SpecReadOnly(specs[k])
  }

  /** The identifiers the specs `specs[i..]` read, in order. */
  ghost function SpecsReads(specs: seq<Spec>, i: nat): seq<Ident>
    requires i <= |specs|
    decreases |specs| - i
  {
    if i == |specs| then [] else SpecReads(specs[i]) + SpecsReads(specs, i + 1)
  }

  /** The identifiers a parameter or result list `fields[i..]` reads: each field's names, then its type's. */
  ghost function FieldReads(fields: seq<Field>, i: nat): seq<Ident>
    requires i <= |fields|
    decreases |fields| - i
  {
    if i == |fields| then [] else fields[i].names + Reads(fields[i].typ) + FieldReads(fields, i + 1)
  }

  /**
   * Evaluation of an expression. A call evaluates its arguments (a function literal among
   * them runs as a closure) and runs a literal callee; `&x` assigns `x`; an identifier is a
   * read; everything else evaluates its children.
   */
  function EvalExpr(info: Info, c: Ctx, e: Expr): (r: Result<Ctx, Fault>)
    ensures r.Success? ==> Extends(c, r.value)
    ensures ReadOnly(e) ==> r == Success(CheckUses(info, c, Reads(e), 0))
    decreases e, 2, 0
  {
    match e
    case Call(_, _) => EvalCall(info, c, e)
    case Unary(op, x) =>
      if op == And && x.Name? then Success(c.(scope := MarkInitialized(info, c.scope, x.id)))
      else RecurseExpr(info, c, e)
    case Name(id) =>
      assert CheckUses(info, c, [id], 0) == CheckUse(info, c, id);
      Success(CheckUse(info, c, id))
    case _ => RecurseExpr(info, c, e)
  }

  /**
   * A call: the arguments are evaluated (a function literal among them runs as a closure),
   * and then a literal callee runs as a closure; any other callee is not read.
   */
  function EvalCall(info: Info, c: Ctx, e: Expr): (r: Result<Ctx, Fault>)
    requires e.Call?
    ensures r.Success? ==> Extends(c, r.value)
    ensures ReadOnly(e) ==> r == Success(CheckUses(info, c, Reads(e), 0))
    decreases e, 1, 1
  {
    ReadOnlyChildren(e);
    var c1 :- EvalCallArgs(info, c, e.args, 0);
    if e.fun.FuncLitExpr? then EvalClosure(info, c1, e.fun.lit) else Success(c1)
  }

  /** Evaluation of the children of `e`, in syntax order, skipping `e` itself. */
  function RecurseExpr(info: Info, c: Ctx, e: Expr): (r: Result<Ctx, Fault>)
    ensures r.Success? ==> Extends(c, r.value)
    ensures ReadOnly(e) ==> r == Success(CheckUses(info, c, ChildReads(e), 0))
    decreases e, 1, 0
  {
    match e
    case Name(_) => Success(c)
    case BasicLit(_, _) => Success(c)
    case Unary(_, x) => EvalExpr(info, c, x)
    case Selector(_, _) => RecurseSelector(info, c, e)
    case Call(_, _) => RecurseCall(info, c, e)
    case KeyValue(_, _) => RecurseKeyValue(info, c, e)
    case FuncLitExpr(lit) => RecurseLit(info, c, lit)
    case OtherExpr(parts) =>
      ReadOnlyChildren(e);
      EvalExprs(info, c, parts, 0)
  }

  /** A selector `x.sel`: `x` is evaluated, then `sel` is read. */
  function RecurseSelector(info: Info, c: Ctx, e: Expr): (r: Result<Ctx, Fault>)
    requires e.Selector?
    ensures r.Success? ==> Extends(c, r.value)
    ensures ReadOnly(e) ==> r == Success(CheckUses(info, c, ChildReads(e), 0))
    decreases e, 0, 0
  {
    var c1 :- EvalExpr(info, c, e.x);
    CheckUsesAppend(info, c, Reads(e.x), [e.sel]);
    assert CheckUses(info, c1, [e.sel], 0) == CheckUse(info, c1, e.sel);
    Success(CheckUse(info, c1, e.sel))
  }

  /** The children of a call: the callee, then the arguments. */
  function RecurseCall(info: Info, c: Ctx, e: Expr): (r: Result<Ctx, Fault>)
    requires e.Call?
    ensures r.Success? ==> Extends(c, r.value)
    ensures ReadOnly(e) ==> r == Success(CheckUses(info, c, ChildReads(e), 0))
    decreases e, 0, 0
  {
    assert ReadOnly(e) ==> AllReadOnly(e.args, 0) by {
      ReadOnlyChildren(e);
    }
    var c1 :- EvalExpr(info, c, e.fun);
    CheckUsesAppend(info, c, Reads(e.fun), ReadsFrom(e.args, 0));
    EvalExprs(info, c1, e.args, 0)
  }

  /** A key-value pair: the key, then the value. */
  function RecurseKeyValue(info: Info, c: Ctx, e: Expr): (r: Result<Ctx, Fault>)
    requires e.KeyValue?
    ensures r.Success? ==> Extends(c, r.value)
    ensures ReadOnly(e) ==> r == Success(CheckUses(info, c, ChildReads(e), 0))
    decreases e, 0, 0
  {
    var c1 :- EvalExpr(info, c, e.key);
    CheckUsesAppend(info, c, Reads(e.key), Reads(e.value));
    EvalExpr(info, c1, e.value)
  }

  /** The children of a function literal that is not called: its signature, then its body, inline. */
  function RecurseLit(info: Info, c: Ctx, lit: FuncLit): (r: Result<Ctx, Fault>)
    ensures r.Success? ==> Extends(c, r.value)
    ensures LitReadOnly(lit) ==> r == Success(CheckUses(info, c, LitReads(lit), 0))
    decreases lit, 0, 0
  {
    var c1 :- RecurseFields(info, c, lit.typ.params, 0);
    var c2 :- RecurseFields(info, c1, lit.typ.results, 0);
    CheckUsesAppend(info, c, FieldReads(lit.typ.params, 0), FieldReads(lit.typ.results, 0));
    CheckUsesAppend(info, c, FieldReads(lit.typ.params, 0) + FieldReads(lit.typ.results, 0), StmtsReads(lit.body, 0));
    EvalStmts(info, c2, lit.body, 0)
  }

  /** A function literal visited as a subtree only reads: its field types and its statements. */
  predicate LitReadOnly(lit: FuncLit) {
    && (forall k :: 0 <= k < |lit.typ.params| ==> ReadOnly(lit.typ.params[k].typ))
    && (forall k :: 0 <= k < |lit.typ.results| ==> ReadOnly(lit.typ.results[k].typ))
    && AllStmtsReadOnly(lit.body, 0)
  }

  /** The identifiers a function literal visited as a subtree reads: parameters, results, then the body. */
  ghost function LitReads(lit: FuncLit): seq<Ident> {
    FieldReads(lit.typ.params, 0) + FieldReads(lit.typ.results, 0) + StmtsReads(lit.body, 0)
  }

  function EvalExprs(info: Info, c: Ctx, es: seq<Expr>, i: nat): (r: Result<Ctx, Fault>)
    requires i <= |es|
    ensures r.Success? ==> Extends(c, r.value)
    ensures AllReadOnly(es, i) ==> r == Success(CheckUses(info, c, ReadsFrom(es, i), 0))
    decreases es, 0, |es| - i
  {
    if i == |es| then Success(c)
    else
      var c1 :- EvalExpr(info, c, es[i]);
      CheckUsesAppend(info, c, Reads(es[i]), ReadsFrom(es, i + 1));
      EvalExprs(info, c1, es, i + 1)
  }

  /** The arguments of a call: a function literal runs as a closure, anything else is evaluated. */
  function EvalCallArgs(info: Info, c: Ctx, args: seq<Expr>, i: nat): (r: Result<Ctx, Fault>)
    requires i <= |args|
    ensures r.Success? ==> Extends(c, r.value)
    ensures AllReadOnly(args, i) ==> r == Success(CheckUses(info, c, ReadsFrom(args, i), 0))
    decreases args, 0, |args| - i
  {
    if i == |args| then Success(c)
    else
      var c1 :- EvalCallArg(info, c, args[i]);
      CheckUsesAppend(info, c, Reads(args[i]), ReadsFrom(args, i + 1));
      EvalCallArgs(info, c1, args, i + 1)
  }

  /**
   * One argument of a call. A function literal runs as a closure from the current scope,
   * and its exit scope's variables replace the current ones.
   */
  function EvalCallArg(info: Info, c: Ctx, arg: Expr): (r: Result<Ctx, Fault>)
    ensures r.Success? ==> Extends(c, r.value)
    ensures ReadOnly(arg) ==> r == Success(CheckUses(info, c, Reads(arg), 0))
    ensures arg.FuncLitExpr? ==>
      var f := EvalFunc(info, arg.lit.flow, arg.lit.typ, [c.scope], c.log);
      && (r.Success? <==> f.Success?)
      && (r.Success? ==> r.value.scope.uninit == f.value.0.uninit && r.value.log == f.value.1)
    ensures !arg.FuncLitExpr? ==> r == EvalExpr(info, c, arg)
    decreases arg, 3, 0
  {
    if arg.FuncLitExpr? then EvalClosure(info, c, arg.lit) else EvalExpr(info, c, arg)
  }

  /** The names and types of a parameter or result list, in order. */
  function RecurseFields(info: Info, c: Ctx, fields: seq<Field>, i: nat): (r: Result<Ctx, Fault>)
    requires i <= |fields|
    ensures r.Success? ==> Extends(c, r.value)
    ensures (forall k :: i <= k < |fields| ==> ReadOnly(fields[k].typ)) ==>
      r == Success(CheckUses(info, c, FieldReads(fields, i), 0))
    decreases fields, 0, |fields| - i
  {
    if i == |fields| then Success(c)
    else
      var c1 := CheckUses(info, c, fields[i].names, 0);
      var c2 :- EvalExpr(info, c1, fields[i].typ);
      CheckUsesAppend(info, c, fields[i].names, Reads(fields[i].typ));
      CheckUsesAppend(info, c, fields[i].names + Reads(fields[i].typ), FieldReads(fields, i + 1));
      RecurseFields(info, c2, fields, i + 1)
  }

  /**
   * A closure called synchronously: the literal's function is evaluated from the current
   * scope, and its exit scope's variables replace the current ones.
   */
  function EvalClosure(info: Info, c: Ctx, lit: FuncLit): (r: Result<Ctx, Fault>)
    ensures r.Success? ==> Extends(c, r.value)
    ensures var f := EvalFunc(info, lit.flow, lit.typ, [c.scope], c.log);
      && (r.Success? <==> f.Success?)
      && (r.Success? ==> r.value.scope.uninit == f.value.0.uninit && r.value.log == f.value.1)
    decreases lit, 0, 0
  {
    var (out, log) :- EvalFunc(info, lit.flow, lit.typ, [c.scope], c.log);
    Success(Ctx(c.scope.(uninit := out.uninit), log))
  }

  /**
   * Evaluation of a statement: declarations, assignments (reads first, then the bare
   * targets are assigned), `go` and `defer` (a literal's function runs on its own and its
   * scope is dropped), and the children of every other statement.
   */
  function EvalStmt(info: Info, c: Ctx, s: Stmt): (r: Result<Ctx, Fault>)
    ensures r.Success? ==> Extends(c, r.value)
    ensures s.ExprStmt? && ReadOnly(s.x) ==> r == Success(CheckUses(info, c, Reads(s.x), 0))
    ensures s.ReturnStmt? && AllReadOnly(s.results, 0) ==> r == Success(CheckUses(info, c, ReadsFrom(s.results, 0), 0))
    decreases s, 2, 0
  {
    match s
    case DeclStmt(tok, specs) => EvalVarDeclBlock(info, c, tok, specs, 0)
    case AssignStmt(lhs, _, rhs) =>
      var c1 :- EvalTargets(info, c, lhs, 0);
      var c2 :- EvalExprs(info, c1, rhs, 0);
      Success(c2.(scope := MarkTargets(info, c2.scope, lhs, 0)))
    case GoStmt(fun, args) => EvalDetached(info, c, s)
    case DeferStmt(fun, args) => EvalDetached(info, c, s)
    case ExprStmt(x) => EvalExpr(info, c, x)
    case ReturnStmt(results) => EvalExprs(info, c, results, 0)
    case RangeStmt(vars, x, body) =>
      var c1 :- EvalRangeVars(info, c, vars);
      var c2 :- EvalExpr(info, c1, x);
      EvalStmts(info, c2, body, 0)
    case OtherStmt(parts) => RecurseParts(info, c, parts, 0)
  }

  /**
   * The call of a `go` or `defer` statement. The arguments are evaluated; a literal callee
   * is evaluated with no incoming scope and its exit scope is discarded; any other callee
   * has the whole call evaluated again (which evaluates the arguments a second time).
   */
  function EvalDetached(info: Info, c: Ctx, s: Stmt): (r: Result<Ctx, Fault>)
    requires s.GoStmt? || s.DeferStmt?
    ensures r.Success? ==> Extends(c, r.value)
    ensures AllReadOnly(s.args, 0) ==>
      var c1 := CheckUses(info, c, ReadsFrom(s.args, 0), 0);
      if s.fun.FuncLitExpr? then
        var f := EvalFunc(info, s.fun.lit.flow, s.fun.lit.typ, [], c1.log);
        && (r.Success? <==> f.Success?)
        && (r.Success? ==> r.value == Ctx(c.scope, f.value.1))
      else r == Success(CheckUses(info, c1, ReadsFrom(s.args, 0), 0))
    decreases s, 1, 0
  {
    var fun := s.fun;
    var args := s.args;
    var c1 :- EvalExprs(info, c, args, 0);
    if fun.FuncLitExpr? then
      var (_, log) :- EvalFunc(info, fun.lit.flow, fun.lit.typ, [], c1.log);
      Success(c1.(log := log))
    else EvalCallArgs(info, c1, args, 0)
  }

  /** The left-hand sides that are not bare identifiers are evaluated as expressions. */
  function EvalTargets(info: Info, c: Ctx, lhs: seq<Expr>, i: nat): (r: Result<Ctx, Fault>)
    requires i <= |lhs|
    ensures r.Success? ==> Extends(c, r.value)
    ensures AllReadOnly(lhs, i) ==> r == Success(CheckUses(info, c, TargetReads(lhs, i), 0))
    decreases lhs, 0, |lhs| - i
  {
    if i == |lhs| then Success(c)
    else
      var c1 :- if lhs[i].Name? then Success(c) else EvalExpr(info, c, lhs[i]);
      CheckUsesAppend(info, c, if lhs[i].Name? then [] else Reads(lhs[i]), TargetReads(lhs, i + 1));
      EvalTargets(info, c1, lhs, i + 1)
  }

  /** The key and value of a `range` clause are visited like any other child expression. */
  function EvalRangeVars(info: Info, c: Ctx, vars: RangeVars): (r: Result<Ctx, Fault>)
    ensures r.Success? ==> Extends(c, r.value)
    ensures RangeReadOnly(vars) ==> r == Success(CheckUses(info, c, RangeReads(vars), 0))
    decreases vars, 0, 0
  {
    match vars
    case NoVars => Success(c)
    case Defines(k, v) =>
      var c1 := CheckUse(info, c, k);
      assert CheckUses(info, c, [k], 0) == c1;
      CheckUsesAppend(info, c, [k], if v.Some? then [v.value] else []);
      assert v.Some? ==> CheckUses(info, c1, [v.value], 0) == CheckUse(info, c1, v.value);
      Success(if v.Some? then CheckUse(info, c1, v.value) else c1)
    case Assigns(k, v) =>
      var c1 :- EvalExpr(info, c, k);
      CheckUsesAppend(info, c, Reads(k), if v.Some? then Reads(v.value) else []);
      if v.Some? then EvalExpr(info, c1, v.value) else Success(c1)
  }

  function EvalStmts(info: Info, c: Ctx, ss: seq<Stmt>, i: nat): (r: Result<Ctx, Fault>)
    requires i <= |ss|
    ensures r.Success? ==> Extends(c, r.value)
    ensures AllStmtsReadOnly(ss, i) ==> r == Success(CheckUses(info, c, StmtsReads(ss, i), 0))
    decreases ss, 0, |ss| - i
  {
    if i == |ss| then Success(c)
    else
      var c1 :- EvalStmt(info, c, ss[i]);
      CheckUsesAppend(info, c, StmtReads(ss[i]), StmtsReads(ss, i + 1));
      EvalStmts(info, c1, ss, i + 1)
  }

  /** The children of a statement the evaluator has no rule for. */
  function RecurseParts(info: Info, c: Ctx, parts: seq<Node>, i: nat): (r: Result<Ctx, Fault>)
    requires i <= |parts|
    ensures r.Success? ==> Extends(c, r.value)
    ensures AllPartsReadOnly(parts, i) ==> r == Success(CheckUses(info, c, NodesReads(parts, i), 0))
    decreases parts, 0, |parts| - i
  {
    if i == |parts| then Success(c)
    else
      var c1 :- RecursePart(info, c, parts[i]);
      CheckUsesAppend(info, c, NodeReads(parts[i]), NodesReads(parts, i + 1));
      RecurseParts(info, c1, parts, i + 1)
  }

  function RecursePart(info: Info, c: Ctx, part: Node): (r: Result<Ctx, Fault>)
    ensures r.Success? ==> Extends(c, r.value)
    ensures PartReadOnly(part) ==> r == Success(CheckUses(info, c, NodeReads(part), 0))
    decreases part, 0, 0
  {
    match part
    case StmtNode(st) => EvalStmt(info, c, st)
    case ExprNode(e) => EvalExpr(info, c, e)
    case SpecNode(vs) => RecurseValueSpec(info, c, vs)
  }

  /** The children of a value spec: the names (as reads) and then the values. */
  function RecurseValueSpec(info: Info, c: Ctx, vs: ValueSpec): (r: Result<Ctx, Fault>)
    ensures r.Success? ==> Extends(c, r.value)
    ensures AllReadOnly(vs.values, 0) ==> r == Success(CheckUses(info, c, vs.names + ReadsFrom(vs.values, 0), 0))
    decreases vs, 0, 0
  {
    CheckUsesAppend(info, c, vs.names, ReadsFrom(vs.values, 0));
    EvalExprs(info, CheckUses(info, c, vs.names, 0), vs.values, 0)
  }

  /**
   * A `var` spec: a bare declaration declares every name; with initial values, each value's
   * children are evaluated (the value itself is skipped, and the names stay untracked).
   */
  function EvalVarDecl(info: Info, c: Ctx, vs: ValueSpec): (r: Result<Ctx, Fault>)
    ensures r.Success? ==> Extends(c, r.value)
    ensures vs.values == [] ==> r == Success(c.(scope := NewDecls(info, c.scope, vs.names, 0)))
    decreases vs, 1, 0
  {
    if |vs.values| > 0 then RecurseValues(info, c, vs.values, 0)
    else Success(c.(scope := NewDecls(info, c.scope, vs.names, 0)))
  }

  function RecurseValues(info: Info, c: Ctx, values: seq<Expr>, i: nat): (r: Result<Ctx, Fault>)
    requires i <= |values|
    ensures r.Success? ==> Extends(c, r.value)
    ensures AllReadOnly(values, i) ==> r == Success(CheckUses(info, c, ChildReadsFrom(values, i), 0))
    decreases values, 0, |values| - i
  {
    if i == |values| then Success(c)
    else
      var c1 :- RecurseExpr(info, c, values[i]);
      CheckUsesAppend(info, c, ChildReads(values[i]), ChildReadsFrom(values, i + 1));
      RecurseValues(info, c1, values, i + 1)
  }

  /**
   * A declaration group: constants are skipped; a value spec is evaluated as a `var`
   * spec; a type spec makes the whole group's children be visited once more.
   */
  function EvalVarDeclBlock(info: Info, c: Ctx, tok: DeclTok, specs: seq<Spec>, i: nat): (r: Result<Ctx, Fault>)
    requires i <= |specs|
    ensures r.Success? ==> Extends(c, r.value)
    ensures tok == Const ==> r == Success(c)
    ensures tok != Const && AllBare(specs, i) ==> r == Success(c.(scope := NewDecls(info, c.scope, BareNames(specs, i), 0)))
    decreases specs, 1, |specs| - i
  {
    if tok == Const || i == |specs| then Success(c)
    else
      var c1 :- match specs[i]
        case VSpec(vs) => assert vs < specs[i]; EvalVarDecl(info, c, vs)
        case TSpec(_, _) => RecurseSpecs(info, c, specs, 0);
      NewDeclsAppend(info, c.scope, if specs[i].VSpec? then specs[i].vs.names else [], BareNames(specs, i + 1));
      EvalVarDeclBlock(info, c1, tok, specs, i + 1)
  }

  /** Every spec of `specs[i..]` is a `var` spec without values. */
  predicate AllBare(specs: seq<Spec>, i: nat) {
    forall k :: i <= k < |specs| ==> specs[k].VSpec? && specs[k].vs.values == []
  }

  /** The names the value specs of `specs[i..]` list, in order. */
  function BareNames(specs: seq<Spec>, i: nat): seq<Ident>
    requires i <= |specs|
    decreases |specs| - i
  {
    if i == |specs| then [] else (if specs[i].VSpec? then specs[i].vs.names else []) + BareNames(specs, i + 1)
  }

  /** The children of a declaration group. */
  function RecurseSpecs(info: Info, c: Ctx, specs: seq<Spec>, i: nat): (r: Result<Ctx, Fault>)
    requires i <= |specs|
    ensures r.Success? ==> Extends(c, r.value)
    ensures AllSpecsReadOnly(specs, i) ==> r == Success(CheckUses(info, c, SpecsReads(specs, i), 0))
    decreases specs, 0, |specs| - i
  {
    if i == |specs| then Success(c)
    else
      var c1 :- RecurseSpec(info, c, specs[i]);
      CheckUsesAppend(info, c, SpecReads(specs[i]), SpecsReads(specs, i + 1));
      RecurseSpecs(info, c1, specs, i + 1)
  }

  function RecurseSpec(info: Info, c: Ctx, spec: Spec): (r: Result<Ctx, Fault>)
    ensures r.Success? ==> Extends(c, r.value)
    ensures SpecReadOnly(spec) ==> r == Success(CheckUses(info, c, SpecReads(spec), 0))
    decreases spec, 0, 0
  {
    match spec
    case VSpec(vs) => RecurseValueSpec(info, c, vs)
    case TSpec(name, typ) =>
      assert CheckUses(info, c, [name], 0) == CheckUse(info, c, name);
      CheckUsesAppend(info, c, [name], Reads(typ));
      EvalExpr(info, CheckUse(info, c, name), typ)
  }

  /** The nodes of a control-flow block: statements, expressions and `var` specs. */
  function EvalNodes(info: Info, c: Ctx, nodes: seq<Node>, i: nat): (r: Result<Ctx, Fault>)
    requires i <= |nodes|
    ensures r.Success? ==> Extends(c, r.value)
    ensures AllNodesReadOnly(nodes, i) ==> r == Success(CheckUses(info, c, NodesReads(nodes, i), 0))
    decreases nodes, 0, |nodes| - i
  {
    if i == |nodes| then Success(c)
    else
      var c1 :- EvalNode(info, c, nodes[i]);
      CheckUsesAppend(info, c, NodeReads(nodes[i]), NodesReads(nodes, i + 1));
      EvalNodes(info, c1, nodes, i + 1)
  }

  function EvalNode(info: Info, c: Ctx, node: Node): (r: Result<Ctx, Fault>)
    ensures r.Success? ==> Extends(c, r.value)
    ensures NodeReadOnly(node) ==> r == Success(CheckUses(info, c, NodeReads(node), 0))
    decreases node, 0, 0
  {
    match node
    case StmtNode(st) => EvalStmt(info, c, st)
    case ExprNode(e) => EvalExpr(info, c, e)
    case SpecNode(vs) => EvalVarDecl(info, c, vs)
  }

  /** The scopes computed for the blocks of `deps`, in order, skipping blocks without one. */
  function DepScopes(blockScopes: map<nat, Scope>, deps: seq<nat>): (r: seq<Scope>)
    ensures forall s :: s in r ==> exists d :: d in deps && d in blockScopes && blockScopes[d] == s
    ensures forall d :: d in deps && d in blockScopes ==> blockScopes[d] in r
    ensures (forall d :: d in deps ==> d in blockScopes) ==> |r| == |deps|
  {
    if deps == [] then []
    else (if deps[0] in blockScopes then [blockScopes[deps[0]]] else []) + DepScopes(blockScopes, deps[1..])
  }

  /** The block ends in `return` with no results. */
  predicate EndsInBareReturn(b: Block) {
    |b.nodes| > 0 && Last(b.nodes) == StmtNode(ReturnStmt([]))
  }

  /** Block `b` is an exit: it has no successor once the loop edges are cut. */
  predicate IsExit(flow: seq<Block>, b: nat) {
    b < |flow| && |BlockOrder.Succs(flow, b)| == 0
  }

  /** Block `b` is collected at the end: an exit, and with `bare` an exit ending in a bare `return`. */
  predicate Collected(flow: seq<Block>, b: nat, bare: bool) {
    IsExit(flow, b) && (bare ==> EndsInBareReturn(flow[b]))
  }

  /** `s` is the recorded scope of a collected block among `order[..k]`. */
  ghost predicate CollectedScope(flow: seq<Block>, order: seq<nat>, k: nat, scopes: map<nat, Scope>, bare: bool, s: Scope) {
    exists j :: 0 <= j < k <= |order| && Collected(flow, order[j], bare) && order[j] in scopes && scopes[order[j]] == s
  }

  lemma CollectedScopeSplit(flow: seq<Block>, order: seq<nat>, k: nat, scopes: map<nat, Scope>, bare: bool)
    requires 0 < k <= |order|
    ensures forall s :: CollectedScope(flow, order, k, scopes, bare, s) <==>
      CollectedScope(flow, order, k - 1, scopes, bare, s)
      || (Collected(flow, order[k - 1], bare) && order[k - 1] in scopes && scopes[order[k - 1]] == s)
  {
    forall s | CollectedScope(flow, order, k, scopes, bare, s)
      ensures CollectedScope(flow, order, k - 1, scopes, bare, s)
        || (Collected(flow, order[k - 1], bare) && order[k - 1] in scopes && scopes[order[k - 1]] == s)
    {
      var j :| 0 <= j < k <= |order| && Collected(flow, order[j], bare) && order[j] in scopes && scopes[order[j]] == s;
      if j < k - 1 {
        assert CollectedScope(flow, order, k - 1, scopes, bare, s);
      }
    }
  }

  /**
   * The recorded scopes of the collected blocks among `order[..k]`, in that order: the
   * exits, or with `bare` the exits that end in a bare `return`.
   */
  function ExitScopes(flow: seq<Block>, order: seq<nat>, k: nat, scopes: map<nat, Scope>, bare: bool): seq<Scope>
    requires k <= |order|
  {
    if k == 0 then []
    else
      var b := order[k - 1];
      ExitScopes(flow, order, k - 1, scopes, bare) + (if Collected(flow, b, bare) && b in scopes then [scopes[b]] else [])
  }

  /** The collected scopes are exactly the recorded scopes of the collected blocks. */
  lemma {:induction false} ExitScopesMembers(flow: seq<Block>, order: seq<nat>, k: nat, scopes: map<nat, Scope>, bare: bool)
    requires k <= |order|
    ensures forall s :: s in ExitScopes(flow, order, k, scopes, bare) <==> CollectedScope(flow, order, k, scopes, bare, s)
  {
    if k > 0 {
      ExitScopesMembers(flow, order, k - 1, scopes, bare);
      CollectedScopeSplit(flow, order, k, scopes, bare);
    }
  }

  /** Recording a scope for a block outside `order[..k]` does not change what was collected from it. */
  lemma {:induction false} ExitScopesFrame(flow: seq<Block>, order: seq<nat>, k: nat, scopes: map<nat, Scope>,
                                           b: nat, out: Scope, bare: bool)
    requires k <= |order|
    requires forall j :: 0 <= j < k ==> order[j] != b
    ensures ExitScopes(flow, order, k, scopes[b := out], bare) == ExitScopes(flow, order, k, scopes, bare)
  {
    if k > 0 {
      ExitScopesFrame(flow, order, k - 1, scopes, b, out, bare);
    }
  }

  /** The progress of a function's evaluation over its ordered blocks. */
  datatype FlowState = FlowState(
    blockScopes: map<nat, Scope>,
    outputs: seq<Scope>,
    emptyReturns: seq<Scope>,
    hasNamedReturns: bool,
    log: Log)

  /**
   * What the loop over ordered blocks has built after `k` blocks: a scope for each of
   * them; as outputs, the scopes of the exits among them in order; as bare-return outputs,
   * those of the exits that end in a bare `return`; and the named-results flag once the
   * first block has declared them.
   */
  ghost predicate FlowInv(flow: seq<Block>, spec: FuncType, order: seq<nat>, k: nat, st: FlowState) {
    && k <= |order|
    && st.blockScopes.Keys == (set i | 0 <= i < k :: order[i])
    && st.hasNamedReturns == (k > 0 && NamedReturns(spec) != [])
  }

  /**
   * Records the scope `out` computed for block `order[k]`: as that block's scope, as an
   * output when the block is an exit, and as a bare-return output when it is an exit
   * that also ends in `return` without results.
   */
  function Record(flow: seq<Block>, spec: FuncType, order: seq<nat>, k: nat, st: FlowState,
                  out: Scope, log: Log): (r: FlowState)
    requires k < |order| && BlockOrder.NoDup(order)
    requires FlowInv(flow, spec, order, k, st)
    ensures FlowInv(flow, spec, order, k + 1, r)
    ensures r.log == log
    ensures order[k] in r.blockScopes && r.blockScopes[order[k]] == out
  {
    var b := order[k];
    var exit := Collected(flow, b, false);
    var bare := Collected(flow, b, true);
    var outputs := if exit then st.outputs + [out] else st.outputs;
    var empties := if bare then st.emptyReturns + [out] else st.emptyReturns;
    var scopes := st.blockScopes[b := out];
    assert scopes.Keys == st.blockScopes.Keys + {b};
    PrefixSet(order, k);
    FlowState(scopes, outputs, empties, st.hasNamedReturns || (k == 0 && NamedReturns(spec) != []), log)
  }

  /** The outputs recorded so far are the scopes of the exits among the first `k` ordered blocks. */
  ghost predicate ExitsCollected(flow: seq<Block>, order: seq<nat>, k: nat, st: FlowState)
    requires k <= |order|
  {
    && st.outputs == ExitScopes(flow, order, k, st.blockScopes, false)
    && st.emptyReturns == ExitScopes(flow, order, k, st.blockScopes, true)
  }

  /** Recording block `order[k]` extends the collected exits by that block exactly when it is one. */
  lemma RecordCollectsExits(flow: seq<Block>, spec: FuncType, order: seq<nat>, k: nat, st: FlowState,
                            out: Scope, log: Log)
    requires k < |order| && BlockOrder.NoDup(order)
    requires FlowInv(flow, spec, order, k, st)
    requires ExitsCollected(flow, order, k, st)
    ensures ExitsCollected(flow, order, k + 1, Record(flow, spec, order, k, st, out, log))
  {
    var b := order[k];
    var scopes := st.blockScopes[b := out];
    assert forall j :: 0 <= j < k ==> order[j] != b;
    ExitScopesFrame(flow, order, k, st.blockScopes, b, out, false);
    ExitScopesFrame(flow, order, k, st.blockScopes, b, out, true);
    assert ExitScopes(flow, order, k + 1, scopes, false)
      == ExitScopes(flow, order, k, scopes, false) + (if Collected(flow, b, false) then [out] else []);
    assert ExitScopes(flow, order, k + 1, scopes, true)
      == ExitScopes(flow, order, k, scopes, true) + (if Collected(flow, b, true) then [out] else []);
  }

  /** The elements of the first `k + 1` entries of `order`. */
  lemma PrefixSet(order: seq<nat>, k: nat)
    requires k < |order|
    ensures (set i | 0 <= i < k + 1 :: order[i]) == (set i | 0 <= i < k :: order[i]) + {order[k]}
  {
    var a := set i | 0 <= i < k + 1 :: order[i];
    var b := (set i | 0 <= i < k :: order[i]) + {order[k]};
    forall x | x in a
      ensures x in b
    {
      var i :| 0 <= i < k + 1 && order[i] == x;
      if i < k {
        assert x in (set i | 0 <= i < k :: order[i]);
      }
    }
  }

  /**
   * Evaluates the blocks `order[k..]`. Each block starts from the join of its recorded
   * dependencies' scopes, or from the function's inputs when it has none; the first block
   * also declares the named results. A block without successors is an exit, and an exit
   * whose last node is a bare `return` is also collected separately.
   */
  function RunBlocks(info: Info, flow: seq<Block>, spec: FuncType, inputs: seq<Scope>,
                     order: seq<nat>, k: nat, st: FlowState): (r: Result<FlowState, Fault>)
    requires forall x :: x in order ==> x < |flow|
    requires BlockOrder.NoDup(order)
    requires FlowInv(flow, spec, order, k, st)
    requires ExitsCollected(flow, order, k, st)
    ensures r.Success? ==> FlowInv(flow, spec, order, |order|, r.value) && LogGrows(st.log, r.value.log)
    ensures r.Success? ==> ExitsCollected(flow, order, |order|, r.value)
    ensures r.Success? && Dataflow(info, flow, spec, inputs, order, k, st.blockScopes) ==>
      Dataflow(info, flow, spec, inputs, order, |order|, r.value.blockScopes)
    decreases flow, 1, |order| - k
  {
    if k == |order| then Success(st)
    else
      var st' :- RunStep(info, flow, spec, inputs, order, k, st);
      RunBlocks(info, flow, spec, inputs, order, k + 1, st')
  }

  /** Evaluates block `order[k]` and records its scope. */
  function RunStep(info: Info, flow: seq<Block>, spec: FuncType, inputs: seq<Scope>,
                   order: seq<nat>, k: nat, st: FlowState): (r: Result<FlowState, Fault>)
    requires forall x :: x in order ==> x < |flow|
    requires BlockOrder.NoDup(order)
    requires k < |order|
    requires FlowInv(flow, spec, order, k, st)
    requires ExitsCollected(flow, order, k, st)
    ensures r.Success? ==> FlowInv(flow, spec, order, k + 1, r.value) && LogGrows(st.log, r.value.log)
    ensures r.Success? ==> ExitsCollected(flow, order, k + 1, r.value)
    ensures order[k] in order && var c := RunBlock(info, flow, spec, inputs, order[k], k == 0, st);
      && (r.Success? <==> c.Success?)
      && (r.Success? ==> r.value == Record(flow, spec, order, k, st, c.value.scope, c.value.log))
    ensures r.Success? && Dataflow(info, flow, spec, inputs, order, k, st.blockScopes) ==>
      Dataflow(info, flow, spec, inputs, order, k + 1, r.value.blockScopes)
    decreases flow, 0, 5
  {
    assert order[k] in order;
    var c :- RunBlock(info, flow, spec, inputs, order[k], k == 0, st);
    assert order[k] < |flow|;
    RecordCollectsExits(flow, spec, order, k, st, c.scope, c.log);
    RecordKeepsDataflow(info, flow, spec, inputs, order, k, st, c);
    Success(Record(flow, spec, order, k, st, c.scope, c.log))
  }

  /** The recorded scopes of the blocks placed before position `j` of `order`. */
  ghost function Before(scopes: map<nat, Scope>, order: seq<nat>, j: nat): (r: map<nat, Scope>)
    requires j <= |order|
    ensures forall d :: d in r <==> d in scopes && d in order[..j]
    ensures forall d :: d in r ==> r[d] == scopes[d]
  {
    map d | d in scopes && d in order[..j] :: scopes[d]
  }

  /**
   * Scope `out` is what block `b`'s nodes leave when they are evaluated from the block's
   * start scope over the recorded scopes `scopes`, with some log of earlier reports.
   */
  ghost predicate Produces(info: Info, flow: seq<Block>, spec: FuncType, inputs: seq<Scope>,
                           b: nat, first: bool, scopes: map<nat, Scope>, out: Scope)
    requires b < |flow|
    decreases flow, 0, 1
  {
    exists lg: Log :: var c := EvalNodes(info, Ctx(StartScope(info, flow, spec, inputs, b, first, scopes), lg), flow[b].nodes, 0);
      c.Success? && c.value.scope == out
  }

  /**
   * The dataflow of the first `k` ordered blocks: each one's recorded scope is what its
   * nodes produce from the join of the scopes recorded for the blocks placed before it.
   */
  ghost predicate Dataflow(info: Info, flow: seq<Block>, spec: FuncType, inputs: seq<Scope>,
                           order: seq<nat>, k: nat, scopes: map<nat, Scope>)
    requires k <= |order| && forall x :: x in order ==> x < |flow|
    decreases flow, 0, 3
  {
    forall j :: 0 <= j < k ==> RanAt(info, flow, spec, inputs, order, scopes, j)
  }

  /** Block `order[j]` has a recorded scope, produced from the blocks placed before it. */
  ghost predicate RanAt(info: Info, flow: seq<Block>, spec: FuncType, inputs: seq<Scope>,
                        order: seq<nat>, scopes: map<nat, Scope>, j: nat)
    requires j < |order| && forall x :: x in order ==> x < |flow|
    decreases flow, 0, 2
  {
    assert order[j] in order;
    && order[j] in scopes
    && Produces(info, flow, spec, inputs, order[j], j == 0, Before(scopes, order, j), scopes[order[j]])
  }

  /** Recording the scope block `order[k]` produced extends the dataflow by that block. */
  lemma RecordKeepsDataflow(info: Info, flow: seq<Block>, spec: FuncType, inputs: seq<Scope>,
                            order: seq<nat>, k: nat, st: FlowState, c: Ctx)
    requires forall x :: x in order ==> x < |flow|
    requires BlockOrder.NoDup(order)
    requires k < |order| && order[k] < |flow|
    requires FlowInv(flow, spec, order, k, st)
    requires RunBlock(info, flow, spec, inputs, order[k], k == 0, st) == Success(c)
    ensures Dataflow(info, flow, spec, inputs, order, k, st.blockScopes) ==>
      Dataflow(info, flow, spec, inputs, order, k + 1, Record(flow, spec, order, k, st, c.scope, c.log).blockScopes)
    decreases flow, 0, 4
  {
    if !Dataflow(info, flow, spec, inputs, order, k, st.blockScopes) {
      return;
    }
    var m := st.blockScopes;
    var m' := Record(flow, spec, order, k, st, c.scope, c.log).blockScopes;
    assert m' == m[order[k] := c.scope];
    forall j | 0 <= j < k
      ensures RanAt(info, flow, spec, inputs, order, m', j)
    {
      assert RanAt(info, flow, spec, inputs, order, m, j);
      BeforeFrame(m, order, j, k, c.scope);
    }
    BeforeAll(m, order, k);
    BeforeFrame(m, order, k, k, c.scope);
    BlockRunsFromStartScope(info, flow, spec, inputs, order[k], k == 0, st);
    assert Produces(info, flow, spec, inputs, order[k], k == 0, m, c.scope);
    assert RanAt(info, flow, spec, inputs, order, m', k);
  }

  /** Recording a block placed at `k` leaves what the positions up to `k` see unchanged. */
  lemma BeforeFrame(m: map<nat, Scope>, order: seq<nat>, j: nat, k: nat, out: Scope)
    requires j <= k < |order| && BlockOrder.NoDup(order)
    ensures Before(m[order[k] := out], order, j) == Before(m, order, j)
    ensures j < k && order[j] in m ==> m[order[k] := out][order[j]] == m[order[j]]
  {
    assert order[k] !in order[..j];
  }

  /** When the recorded blocks are exactly the first `k`, all of them are seen from position `k`. */
  lemma BeforeAll(m: map<nat, Scope>, order: seq<nat>, k: nat)
    requires k <= |order|
    requires m.Keys == (set i | 0 <= i < k :: order[i])
    ensures Before(m, order, k) == m
  {
    forall d
      ensures d in m <==> d in order[..k]
    {
      assert d in order[..k] <==> exists i :: 0 <= i < k && order[i] == d;
    }
  }

  /** The scopes block `b` joins: its recorded dependencies' scopes, or the function's inputs when it has no dependency. */
  function JoinInputs(flow: seq<Block>, inputs: seq<Scope>, b: nat, blockScopes: map<nat, Scope>): (r: seq<Scope>)
    ensures |BlockOrder.Deps(flow, b)| == 0 ==> r == inputs
    ensures |BlockOrder.Deps(flow, b)| > 0 ==> forall s :: s in r <==>
      exists d :: BlockOrder.Edge(flow, d, b) && d in blockScopes && blockScopes[d] == s
  {
    var deps := BlockOrder.Deps(flow, b);
    if |deps| == 0 then inputs else DepScopes(blockScopes, deps)
  }

  /**
   * The scope block `b` starts from: the join of its inputs, located at the block, where
   * on the first block every named result is also declared, unassigned and blamed on
   * that block alone.
   */
  function StartScope(info: Info, flow: seq<Block>, spec: FuncType, inputs: seq<Scope>,
                      b: nat, first: bool, blockScopes: map<nat, Scope>): (r: Scope)
    requires b < |flow|
    ensures r.location == flow[b].pos && r.comment == flow[b].comment
    ensures var m := MergeScopes(Some(flow[b]), JoinInputs(flow, inputs, b, blockScopes));
      && (forall v :: v in r.uninit <==> v in m.uninit || (first && Declares(info, NamedReturns(spec), 0, v)))
      && (forall v :: first && Declares(info, NamedReturns(spec), 0, v) ==>
            !r.uninit[v].changed && r.uninit[v].uninit == map[flow[b].pos := DeclBranch(flow[b].comment)])
      && (forall v :: v in m.uninit && !(first && Declares(info, NamedReturns(spec), 0, v)) ==> r.uninit[v] == m.uninit[v])
  {
    var merged := MergeScopes(Some(flow[b]), JoinInputs(flow, inputs, b, blockScopes));
    if first then NewDecls(info, merged, NamedReturns(spec), 0) else merged
  }

  /** Evaluates block `b` alone, from its start scope; the result stays located at the block. */
  function RunBlock(info: Info, flow: seq<Block>, spec: FuncType, inputs: seq<Scope>,
                    b: nat, first: bool, st: FlowState): (r: Result<Ctx, Fault>)
    requires b < |flow|
    ensures r.Success? ==> LogGrows(st.log, r.value.log)
    ensures r.Success? ==> r.value.scope.location == flow[b].pos && r.value.scope.comment == flow[b].comment
    decreases flow, 0, 0
  {
    EvalNodes(info, Ctx(StartScope(info, flow, spec, inputs, b, first, st.blockScopes), st.log), flow[b].nodes, 0)
  }

  /** A block's nodes are evaluated from its start scope, with the log as the earlier blocks left it. */
  lemma BlockRunsFromStartScope(info: Info, flow: seq<Block>, spec: FuncType, inputs: seq<Scope>,
                                b: nat, first: bool, st: FlowState)
    requires b < |flow|
    ensures var start := Ctx(StartScope(info, flow, spec, inputs, b, first, st.blockScopes), st.log);
      var r := RunBlock(info, flow, spec, inputs, b, first, st);
      && r == EvalNodes(info, start, flow[b].nodes, 0)
      && (r.Success? ==> Extends(start, r.value))
    decreases flow, 0, 1
  {
  }

  /** `d` is a named-result report justified by scope `s`. */
  ghost predicate NamedReport(s: Scope, names: seq<Ident>, d: Diagnostic) {
    && d.kind == NamedReturn
    && Uninitialized(s, d.decl)
    && d.branches == s.uninit[d.decl].uninit.Keys
    && exists j :: 0 <= j < |names| && names[j].pos == d.decl
  }

  /** Some report from index `from` on concerns `id`. */
  ghost predicate ReportedFrom(diags: seq<Diagnostic>, from: nat, id: VarId) {
    exists k :: from <= k < |diags| && diags[k].decl == id
  }

  /** The exit check of the named results: each is checked at its own position against the scope. */
  function CheckNamedReturns(c: Ctx, names: seq<Ident>, i: nat): (r: Ctx)
    requires i <= |names|
    ensures r.scope == c.scope
    ensures Extends(c, r)
    ensures forall k :: |c.log.diags| <= k < |r.log.diags| ==> NamedReport(c.scope, names, r.log.diags[k])
    ensures forall j :: i <= j < |names| && Uninitialized(c.scope, names[j].pos) ==>
      ReportedFrom(r.log.diags, |c.log.diags|, names[j].pos)
    decreases |names| - i
  {
    if i == |names| then c
    else
      var c1 := CheckUseByDecl(c, names[i].pos, names[i].pos, NamedReturn);
      var r := CheckNamedReturns(c1, names, i + 1);
      assert Uninitialized(c.scope, names[i].pos) ==> ReportedFrom(r.log.diags, |c.log.diags|, names[i].pos) by {
        if Uninitialized(c.scope, names[i].pos) {
          assert c1.log.diags <= r.log.diags;
          assert r.log.diags[|c.log.diags|].decl == names[i].pos;
        }
      }
      assert forall k :: |c.log.diags| <= k < |c1.log.diags| ==> NamedReport(c.scope, names, c1.log.diags[k]) by {
        if Uninitialized(c.scope, names[i].pos) {
          assert c1.log.diags[|c.log.diags|].decl == names[i].pos;
        }
      }
      r
  }

  /**
   * The end of a function: the named results are checked against the join of the exits
   * that end in a bare `return` (only when the first block declared them), and the
   * function's result is the join of all exits.
   */
  function FinishFunc(spec: FuncType, st: FlowState): (r: (Scope, Log))
    ensures r.0.location == 0 && r.0.comment == ""
    ensures forall v :: v in r.0.uninit <==> exists s :: s in st.outputs && v in s.uninit
    ensures LogGrows(st.log, r.1)
    ensures !st.hasNamedReturns ==> r.1 == st.log
    ensures forall k :: |st.log.diags| <= k < |r.1.diags| ==>
      NamedReport(MergeScopes(None, st.emptyReturns), NamedReturns(spec), r.1.diags[k])
    ensures st.hasNamedReturns ==>
      forall j :: 0 <= j < |NamedReturns(spec)| && Uninitialized(MergeScopes(None, st.emptyReturns), NamedReturns(spec)[j].pos) ==>
        ReportedFrom(r.1.diags, |st.log.diags|, NamedReturns(spec)[j].pos)
    ensures r.0 == MergeScopes(None, st.outputs)
  {
    var outScope := MergeScopes(None, st.outputs);
    if st.hasNamedReturns then
      var end := CheckNamedReturns(Ctx(MergeScopes(None, st.emptyReturns), st.log), NamedReturns(spec), 0);
      (outScope, end.log)
    else (outScope, st.log)
  }

  /**
   * One function: orders its live blocks (a cycle is fatal), evaluates them in that order,
   * checks the named results against the join of the bare-`return` exits, and returns the
   * join of all exits, which belongs to no block.
   */
  function EvalFunc(info: Info, flow: seq<Block>, spec: FuncType, inputs: seq<Scope>, log: Log): (r: Result<(Scope, Log), Fault>)
    ensures BlockOrder.OrderBlocks(flow).Failure? ==> r == Failure(OrderingCycle(BlockOrder.OrderBlocks(flow).error))
    ensures r.Success? ==> LogGrows(log, r.value.1)
    ensures r.Success? ==> r.value.0.location == 0 && r.value.0.comment == ""
    decreases flow, 2, 0
  {
    match BlockOrder.OrderBlocks(flow)
    case Failure(stuck) => Failure(OrderingCycle(stuck))
    case Success(order) =>
      var st :- RunBlocks(info, flow, spec, inputs, order, 0, FlowState(map[], [], [], false, log));
      Success(FinishFunc(spec, st))
  }

  /**
   * What a function's evaluation returns, in terms of its ordered blocks: a variable is in
   * the result exactly when it is tracked at some exit block; every named-result report is
   * justified by the join of the bare-`return` exits; and when the function has blocks,
   * every named result left uninitialized by that join is reported.
   */
  lemma FunctionJoinsExits(info: Info, flow: seq<Block>, spec: FuncType, inputs: seq<Scope>, log: Log)
    requires BlockOrder.OrderBlocks(flow).Success?
    ensures var order := BlockOrder.OrderBlocks(flow).value;
      var run := RunBlocks(info, flow, spec, inputs, order, 0, FlowState(map[], [], [], false, log));
      var r := EvalFunc(info, flow, spec, inputs, log);
      && (r.Success? <==> run.Success?)
      && (r.Success? ==>
        var scopes := run.value.blockScopes;
        var bare := MergeScopes(None, ExitScopes(flow, order, |order|, scopes, true));
        && LogGrows(run.value.log, r.value.1)
        && r.value.0 == MergeScopes(None, ExitScopes(flow, order, |order|, scopes, false))
        && (forall j :: 0 <= j < |order| ==>
              order[j] in order && order[j] in scopes && Produces(info, flow, spec, inputs, order[j], j == 0, scopes, scopes[order[j]]))
        && (forall v :: v in r.value.0.uninit <==> TrackedAtExit(flow, order, scopes, v))
        && (forall k :: |run.value.log.diags| <= k < |r.value.1.diags| ==> NamedReport(bare, NamedReturns(spec), r.value.1.diags[k]))
        && (order == [] || NamedReturns(spec) == [] ==> r.value.1 == run.value.log)
        && (order != [] ==> forall j :: 0 <= j < |NamedReturns(spec)| && Uninitialized(bare, NamedReturns(spec)[j].pos) ==>
              ReportedFrom(r.value.1.diags, |run.value.log.diags|, NamedReturns(spec)[j].pos)))
  {
    var order := BlockOrder.OrderBlocks(flow).value;
    var init := FlowState(map[], [], [], false, log);
    assert FlowInv(flow, spec, order, 0, init);
    var run := RunBlocks(info, flow, spec, inputs, order, 0, init);
    assert EvalFunc(info, flow, spec, inputs, log) == (if run.Success? then Success(FinishFunc(spec, run.value)) else Failure(run.error));
    if run.Success? {
      FinishJoinsExits(flow, spec, order, run.value);
      assert Dataflow(info, flow, spec, inputs, order, 0, init.blockScopes);
      DataflowSettles(info, flow, spec, inputs, order, run.value.blockScopes);
    }
  }

  /**
   * Once the blocks are placed after their dependencies, each block's recorded scope is
   * what its nodes produce from the final recorded scopes of its dependencies: the stored
   * scopes solve the dataflow equations of the ordered blocks.
   */
  lemma DataflowSettles(info: Info, flow: seq<Block>, spec: FuncType, inputs: seq<Scope>,
                        order: seq<nat>, scopes: map<nat, Scope>)
    requires forall x :: x in order ==> x < |flow|
    requires BlockOrder.DepsBefore(flow, order)
    requires Dataflow(info, flow, spec, inputs, order, |order|, scopes)
    ensures forall j :: 0 <= j < |order| ==>
      order[j] in order && order[j] in scopes && Produces(info, flow, spec, inputs, order[j], j == 0, scopes, scopes[order[j]])
  {
    forall j | 0 <= j < |order|
      ensures order[j] in order && order[j] in scopes && Produces(info, flow, spec, inputs, order[j], j == 0, scopes, scopes[order[j]])
    {
      var b := order[j];
      assert b in order;
      assert RanAt(info, flow, spec, inputs, order, scopes, j);
      var deps := BlockOrder.Deps(flow, b);
      var before := Before(scopes, order, j);
      forall d | d in deps
        ensures (d in before <==> d in scopes) && (d in before ==> before[d] == scopes[d])
      {
        assert BlockOrder.Edge(flow, d, order[j]);
      }
      DepScopesAgree(before, scopes, deps);
      assert JoinInputs(flow, inputs, b, before) == JoinInputs(flow, inputs, b, scopes);
      assert StartScope(info, flow, spec, inputs, b, j == 0, before) == StartScope(info, flow, spec, inputs, b, j == 0, scopes);
    }
  }

  /** Two maps that agree on the dependencies give the same dependency scopes. */
  lemma {:induction false} DepScopesAgree(m1: map<nat, Scope>, m2: map<nat, Scope>, deps: seq<nat>)
    requires forall d :: d in deps ==> (d in m1 <==> d in m2) && (d in m1 ==> m1[d] == m2[d])
    ensures DepScopes(m1, deps) == DepScopes(m2, deps)
  {
    if deps != [] {
      DepScopesAgree(m1, m2, deps[1..]);
    }
  }

  /** Variable `v` is tracked in the recorded scope of some exit block among `order`. */
  ghost predicate TrackedAtExit(flow: seq<Block>, order: seq<nat>, scopes: map<nat, Scope>, v: VarId) {
    exists j :: 0 <= j < |order| && IsExit(flow, order[j]) && order[j] in scopes && v in scopes[order[j]].uninit
  }

  /** With the exits collected, the outputs track exactly what some exit block tracks. */
  lemma OutputsTrackExits(flow: seq<Block>, order: seq<nat>, st: FlowState, v: VarId)
    requires ExitsCollected(flow, order, |order|, st)
    ensures Tracks(st.outputs, v) <==> TrackedAtExit(flow, order, st.blockScopes, v)
  {
    if Tracks(st.outputs, v) {
      var s :| s in st.outputs && v in s.uninit;
      OutputIsExit(flow, order, st, s);
    }
    if TrackedAtExit(flow, order, st.blockScopes, v) {
      var j :| 0 <= j < |order| && IsExit(flow, order[j]) && order[j] in st.blockScopes && v in st.blockScopes[order[j]].uninit;
      ExitIsOutput(flow, order, st, j);
    }
  }

  /** Each output is the recorded scope of an exit block. */
  lemma OutputIsExit(flow: seq<Block>, order: seq<nat>, st: FlowState, s: Scope)
    requires ExitsCollected(flow, order, |order|, st)
    requires s in st.outputs
    ensures exists j :: 0 <= j < |order| && IsExit(flow, order[j]) && order[j] in st.blockScopes && st.blockScopes[order[j]] == s
  {
    ExitScopesMembers(flow, order, |order|, st.blockScopes, false);
    assert CollectedScope(flow, order, |order|, st.blockScopes, false, s);
  }

  /** Each exit block's recorded scope is an output. */
  lemma ExitIsOutput(flow: seq<Block>, order: seq<nat>, st: FlowState, j: nat)
    requires ExitsCollected(flow, order, |order|, st)
    requires j < |order| && IsExit(flow, order[j]) && order[j] in st.blockScopes
    ensures st.blockScopes[order[j]] in st.outputs
  {
    ExitScopesMembers(flow, order, |order|, st.blockScopes, false);
    assert CollectedScope(flow, order, |order|, st.blockScopes, false, st.blockScopes[order[j]]);
  }

  /** The result FinishFunc joins tracks exactly the variables tracked at some exit block. */
  lemma FinishJoinsExits(flow: seq<Block>, spec: FuncType, order: seq<nat>, st: FlowState)
    requires ExitsCollected(flow, order, |order|, st)
    ensures forall v :: v in FinishFunc(spec, st).0.uninit <==> TrackedAtExit(flow, order, st.blockScopes, v)
  {
    forall v
      ensures v in FinishFunc(spec, st).0.uninit <==> TrackedAtExit(flow, order, st.blockScopes, v)
    {
      OutputsTrackExits(flow, order, st, v);
    }
  }

  /** `x = x` reads `x` before assigning it: the read is checked against the state before the assignment. */
  lemma SelfAssignReadsFirst(info: Info, c: Ctx, x: Ident)
    requires x.pos in info.uses
    requires Uninitialized(c.scope, info.uses[x.pos].pos)
    requires info.uses[x.pos].pos !in c.log.reported
    ensures var r := EvalStmt(info, c, AssignStmt([Name(x)], Assign, [Name(x)]));
      && r.Success?
      && |r.value.log.diags| == |c.log.diags| + 1
      && r.value.log.diags[|c.log.diags|].decl == info.uses[x.pos].pos
      && info.uses[x.pos].pos in r.value.scope.uninit
      && r.value.scope.uninit[info.uses[x.pos].pos].changed
      && !Uninitialized(r.value.scope, info.uses[x.pos].pos)
  {
    var id := info.uses[x.pos].pos;
    var lhs := [Name(x)];
    assert EvalTargets(info, c, lhs, 0) == Success(c);
    var c1 := CheckUse(info, c, x);
    assert EvalExprs(info, c, lhs, 0) == Success(c1);
    assert MarkTargets(info, c1.scope, lhs, 0) == MarkInitialized(info, c1.scope, x);
  }

  /** `&x` assigns `x` without reading it. */
  lemma AddressOfAssigns(info: Info, c: Ctx, x: Ident)
    requires x.pos in info.uses && info.uses[x.pos].pos in c.scope.uninit
    ensures var r := EvalExpr(info, c, Unary(And, Name(x)));
      && r.Success?
      && r.value.log == c.log
      && r.value.scope.uninit[info.uses[x.pos].pos].changed
      && !Uninitialized(r.value.scope, info.uses[x.pos].pos)
  {
  }

  /** `&x.f` is a read of `x`, not an assignment: an unassigned `x` is reported and stays unassigned. */
  lemma AddressOfFieldReads(info: Info, c: Ctx, x: Ident, f: Ident)
    requires x.pos in info.uses
    requires Uninitialized(c.scope, info.uses[x.pos].pos)
    requires info.uses[x.pos].pos !in c.log.reported
    requires f.pos !in info.uses
    ensures var r := EvalExpr(info, c, Unary(And, Selector(Name(x), f)));
      && r.Success?
      && |r.value.log.diags| > |c.log.diags|
      && r.value.log.diags[|c.log.diags|].decl == info.uses[x.pos].pos
      && Uninitialized(r.value.scope, info.uses[x.pos].pos)
  {
    var e := Selector(Name(x), f);
    var c1 := CheckUse(info, c, x);
    var c2 := CheckUse(info, c1, f);
    assert EvalExpr(info, c, Name(x)) == Success(c1);
    assert RecurseExpr(info, c, e) == Success(c2);
    assert EvalExpr(info, c, e) == Success(c2);
    assert RecurseExpr(info, c, Unary(And, e)) == Success(c2);
  }

  /** `var y = x` neither declares `y` nor reads `x`: only the children of a value are visited. */
  lemma InitializedVarIsInvisible(info: Info, c: Ctx, y: Ident, x: Ident)
    ensures EvalVarDecl(info, c, ValueSpec([y], [Name(x)])) == Success(c)
  {
    assert RecurseExpr(info, c, Name(x)) == Success(c);
    assert RecurseValues(info, c, [Name(x)], 1) == Success(c);
    assert RecurseValues(info, c, [Name(x)], 0) == Success(c);
  }

  /** A bare `var x T` declares `x` as tracked and unassigned in the current branch. */
  lemma BareVarIsTracked(info: Info, c: Ctx, x: Ident)
    requires x.pos in info.defs
    ensures var r := EvalVarDecl(info, c, ValueSpec([x], []));
      && r.Success?
      && r.value.log == c.log
      && Uninitialized(r.value.scope, info.defs[x.pos].pos)
      && r.value.scope.uninit[info.defs[x.pos].pos].uninit.Keys == {c.scope.location}
  {
    var s1 := NewDecl(info, c.scope, x);
    assert NewDecls(info, s1, [x], 1) == s1;
    assert c.scope.location in s1.uninit[info.defs[x.pos].pos].uninit;
    assert NewDecls(info, c.scope, [x], 0) == s1;
  }

  /**
   * A `go` or `defer` of a function literal keeps the caller's scope as the arguments left
   * it: assignments inside the literal do not flow back.
   */
  lemma DetachedLiteralScopeDropped(info: Info, c: Ctx, lit: FuncLit, args: seq<Expr>, isGo: bool)
    ensures var s := if isGo then GoStmt(FuncLitExpr(lit), args) else DeferStmt(FuncLitExpr(lit), args);
      var r := EvalStmt(info, c, s);
      r.Success? ==> EvalExprs(info, c, args, 0).Success? && r.value.scope == EvalExprs(info, c, args, 0).value.scope
  {
  }

  /**
   * Calling a function literal runs it as a closure from the scope the arguments leave, and
   * the closure's exit variables replace the caller's.
   */
  lemma CalledLiteralReplacesScope(info: Info, c: Ctx, lit: FuncLit, args: seq<Expr>)
    ensures var r := EvalExpr(info, c, Call(FuncLitExpr(lit), args));
      var a := EvalCallArgs(info, c, args, 0);
      && (a.Failure? ==> r == Failure(a.error))
      && (a.Success? ==>
        var f := EvalFunc(info, lit.flow, lit.typ, [a.value.scope], a.value.log);
        && (r.Success? <==> f.Success?)
        && (r.Success? ==>
          && r.value.scope.uninit == f.value.0.uninit
          && r.value.log == f.value.1
          && r.value.scope.location == c.scope.location))
  {
    var e := Call(FuncLitExpr(lit), args);
    var a := EvalCallArgs(info, c, args, 0);
    assert EvalExpr(info, c, e) == EvalCall(info, c, e);
    if a.Success? {
      assert EvalCall(info, c, e) == EvalClosure(info, a.value, lit);
    }
  }

  /** One more argument is evaluated from where the earlier ones left the context. */
  lemma {:induction false} CallArgsSnoc(info: Info, c: Ctx, args: seq<Expr>, arg: Expr, i: nat)
    requires i <= |args|
    ensures EvalCallArgs(info, c, args + [arg], i) ==
      match EvalCallArgs(info, c, args, i)
      case Success(a) => EvalCallArg(info, a, arg)
      case Failure(f) => Failure(f)
    decreases |args| - i
  {
    var all := args + [arg];
    if i < |args| {
      assert all[i] == args[i];
      match EvalCallArg(info, c, args[i])
      case Success(c1) => CallArgsSnoc(info, c1, args, arg, i + 1);
      case Failure(_) =>
    } else {
      assert all[i] == arg;
      match EvalCallArg(info, c, arg)
      case Success(c1) => assert EvalCallArgs(info, c1, all, i + 1) == Success(c1);
      case Failure(_) =>
    }
  }

  /**
   * A function literal passed as the last argument of a call runs as a closure from the
   * scope the other arguments leave, and its exit variables become the caller's.
   */
  lemma LiteralArgumentReplacesScope(info: Info, c: Ctx, fun: Expr, args: seq<Expr>, lit: FuncLit)
    ensures var r := EvalExpr(info, c, Call(fun, args + [FuncLitExpr(lit)]));
      !fun.FuncLitExpr? && r.Success? ==>
        && EvalCallArgs(info, c, args, 0).Success?
        && var a := EvalCallArgs(info, c, args, 0).value;
        && EvalFunc(info, lit.flow, lit.typ, [a.scope], a.log).Success?
        && r.value.scope.uninit == EvalFunc(info, lit.flow, lit.typ, [a.scope], a.log).value.0.uninit
        && r.value.log == EvalFunc(info, lit.flow, lit.typ, [a.scope], a.log).value.1
        && r.value.scope.location == c.scope.location
  {
    CallArgsSnoc(info, c, args, FuncLitExpr(lit), 0);
  }

  /**
   * An assignment, for any targets and values: the targets that are not bare identifiers
   * and then the values are evaluated; afterwards every tracked variable that a bare
   * identifier target refers to is assigned with an empty blame, and every other record
   * is what the evaluation left. When every target and value only reads, the records are
   * those from before the statement.
   */
  lemma AssignmentMarksTargets(info: Info, c: Ctx, lhs: seq<Expr>, tok: AssignTok, rhs: seq<Expr>)
    ensures var r := EvalStmt(info, c, AssignStmt(lhs, tok, rhs));
      var t := EvalTargets(info, c, lhs, 0);
      && (r.Success? <==> t.Success? && EvalExprs(info, t.value, rhs, 0).Success?)
      && (r.Success? ==>
        var c2 := EvalExprs(info, t.value, rhs, 0).value;
        && r.value.log == c2.log
        && r.value.scope.uninit.Keys == c2.scope.uninit.Keys
        && forall v :: v in c2.scope.uninit ==>
          r.value.scope.uninit[v] == if Targets(info, lhs, 0, v) then Assigned(c2.scope.uninit[v]) else c2.scope.uninit[v])
    ensures AllReadOnly(lhs, 0) && AllReadOnly(rhs, 0) ==>
      var r := EvalStmt(info, c, AssignStmt(lhs, tok, rhs));
      && r.Success?
      && r.value.log == CheckUses(info, c, TargetReads(lhs, 0) + ReadsFrom(rhs, 0), 0).log
      && r.value.scope.uninit.Keys == c.scope.uninit.Keys
      && forall v :: v in c.scope.uninit ==>
        r.value.scope.uninit[v] == if Targets(info, lhs, 0, v) then Assigned(c.scope.uninit[v]) else c.scope.uninit[v]
  {
    if AllReadOnly(lhs, 0) && AllReadOnly(rhs, 0) {
      CheckUsesAppend(info, c, TargetReads(lhs, 0), ReadsFrom(rhs, 0));
    }
  }

  /** A run that starts with nothing reported reports every variable at most once at its use sites. */
  lemma ReportOncePerRun(info: Info, flow: seq<Block>, spec: FuncType)
    ensures var r := EvalFunc(info, flow, spec, [], Log({}, []));
      r.Success? ==>
        forall i, j :: 0 <= i < j < |r.value.1.diags| && r.value.1.diags[i].kind == UseSite && r.value.1.diags[j].kind == UseSite ==>
          r.value.1.diags[i].decl != r.value.1.diags[j].decl
  {
    assert Consistent(Log({}, []));
  }
}
