/**
 * The `explicitcast` check: an untyped basic literal that is implicitly converted to a
 * type its kind does not naturally denote (an integer literal passed as a `float64`,
 * say) must be written with an explicit conversion.
 *
 * The analyzer looks at three places a literal meets a target type: call arguments
 * (against the parameter types), assignments (against the left-hand side's type) and
 * return statements (against the enclosing function's result types). Types are given
 * as the strings the type checker prints for them.
 */
module ExplicitCast {
  import opened Wrappers
  import opened Ast

  /** The implicit conversions always allowed: to an empty interface. */
  const AnyTypes: seq<string> := ["interface{}", "any"]

  /** The type names in `keys`, each also as a slice type. */
  function SliceClosure(keys: seq<string>): (r: set<string>)
    ensures forall k :: k in r <==> exists n :: n in keys && (k == n || k == "[]" + n)
  {
    if keys == [] then {}
    else
      assert forall n :: n in keys <==> n == keys[0] || n in keys[1..];
      {keys[0], "[]" + keys[0]} + SliceClosure(keys[1..])
  }

  /** The accepted target types for a literal kind that naturally denotes `names`. */
  function WantSet(names: seq<string>): (r: set<string>)
    ensures forall n :: n in names + AnyTypes ==> n in r && "[]" + n in r
    ensures forall k :: k in r ==> exists n :: n in names + AnyTypes && (k == n || k == "[]" + n)
  {
    SliceClosure(names + AnyTypes)
  }

  const WantString: set<string> := WantSet(["string"])
  const WantChar: set<string> := WantSet(["char", "rune", "byte"])
  const WantInts: set<string> := WantSet(["int", "int8", "int16", "int32", "int64", "uint", "uint8", "uint16", "uint32", "uint64"])
  const WantFloats: set<string> := WantSet(["float", "float32", "float64"])

  /** The target types a literal of this kind may flow into without a conversion. */
  function Accepted(kind: LitKind): set<string> {
    match kind
    case STRING => WantString
    case CHAR => WantChar
    case INT => WantInts
    case FLOAT => WantFloats
    case IMAG => WantFloats
  }

  /** One implicit literal conversion: where, of which kind, to which type. */
  datatype CastReport = CastReport(pos: Pos, kind: LitKind, typ: string)

  /** The check of one expression against a target type: only basic literals are judged. */
  function CheckLit(t: string, e: Expr): (r: Option<CastReport>)
    ensures r.Some? <==> e.BasicLit? && t !in Accepted(e.kind)
    ensures r.Some? ==> r.value.pos == e.pos && r.value.kind == e.kind && r.value.typ == t
  {
    match e
    case BasicLit(kind, pos) => if t in Accepted(kind) then None else Some(CastReport(pos, kind, t))
    case _ => None
  }

  /** Checks each (target type, expression) pair in order. */
  function CheckAll(pairs: seq<(string, Expr)>): (r: seq<CastReport>)
    ensures forall rep :: rep in r <==> exists i :: 0 <= i < |pairs| && CheckLit(pairs[i].0, pairs[i].1) == Some(rep)
  {
    if pairs == [] then []
    else
      var rest := CheckAll(pairs[1..]);
      assert forall i :: 0 <= i < |pairs| - 1 ==> pairs[1..][i] == pairs[i + 1];
      var first := CheckLit(pairs[0].0, pairs[0].1);
      (if first.Some? then [first.value] else []) + rest
  }

  /** The parameter types of a signature, its result types, and whether the last parameter is variadic. */
  datatype Signature = Signature(params: seq<string>, results: seq<string>, variadic: bool)

  /** What a call's function expression is: a type or builtin (not a value), a function value, or another value. */
  datatype Callee = NotAValue | FuncValue(sig: Signature) | OtherValue

  /** The analyzer stops with an index panic, or finds a return outside every function. */
  datatype CastFault = IndexOutOfRange | NoEnclosingFunction

  /** The parameter argument `i` is checked against; none where the source indexes out of range. */
  function ParamIndex(sig: Signature, i: nat): (r: Option<nat>)
    ensures r.Some? ==> r.value < |sig.params|
    ensures sig.variadic && |sig.params| > 0 && i >= |sig.params| - 1 ==> r == Some(|sig.params| - 1)
    ensures !(sig.variadic && i + 1 >= |sig.params|) ==> (r.Some? <==> i < |sig.params|) && (r.Some? ==> r.value == i)
  {
    if sig.variadic && i + 1 >= |sig.params| then
      if |sig.params| == 0 then None else Some(|sig.params| - 1)
    else if i < |sig.params| then Some(i)
    else None
  }

  /** The (parameter type, argument) pairs from argument `i` on. */
  function ArgPairs(sig: Signature, args: seq<Expr>, i: nat): (r: Result<seq<(string, Expr)>, CastFault>)
    requires i <= |args|
    ensures r.Success? <==> forall j :: i <= j < |args| ==> ParamIndex(sig, j).Some?
    ensures r.Success? ==> |r.value| == |args| - i
    ensures r.Success? ==> forall j :: i <= j < |args| ==> r.value[j - i] == (sig.params[ParamIndex(sig, j).value], args[j])
    decreases |args| - i
  {
    if i == |args| then Success([])
    else
      match ParamIndex(sig, i)
      case None => Failure(IndexOutOfRange)
      case Some(p) =>
        var rest :- ArgPairs(sig, args, i + 1);
        Success([(sig.params[p], args[i])] + rest)
  }

  /**
   * A call: only calls of function values are checked; a single argument passed to
   * several parameters forwards a multi-value call and is skipped; otherwise each
   * argument is checked against its parameter.
   */
  function CallReports(callee: Callee, args: seq<Expr>): (r: Result<seq<CastReport>, CastFault>)
    ensures !callee.FuncValue? ==> r == Success([])
    ensures callee.FuncValue? && |callee.sig.params| > 1 && |args| == 1 ==> r == Success([])
    ensures callee.FuncValue? && !(|callee.sig.params| > 1 && |args| == 1) ==>
      && (r.Success? <==> forall i :: 0 <= i < |args| ==> ParamIndex(callee.sig, i).Some?)
      && (r.Success? ==> forall rep :: rep in r.value <==>
            exists i :: 0 <= i < |args| && CheckLit(callee.sig.params[ParamIndex(callee.sig, i).value], args[i]) == Some(rep))
  {
    match callee
    case FuncValue(sig) =>
      if |sig.params| > 1 && |args| == 1 then Success([])
      else
        var pairs :- ArgPairs(sig, args, 0);
        var r := CheckAll(pairs);
        assert forall rep :: rep in r <==>
          exists i :: 0 <= i < |args| && CheckLit(sig.params[ParamIndex(sig, i).value], args[i]) == Some(rep) by {
          forall rep | rep in r
            ensures exists i :: 0 <= i < |args| && CheckLit(sig.params[ParamIndex(sig, i).value], args[i]) == Some(rep)
          {
            var i :| 0 <= i < |pairs| && CheckLit(pairs[i].0, pairs[i].1) == Some(rep);
            assert pairs[i - 0] == (sig.params[ParamIndex(sig, i).value], args[i]);
          }
          forall rep, i | 0 <= i < |args| && CheckLit(sig.params[ParamIndex(sig, i).value], args[i]) == Some(rep)
            ensures rep in r
          {
            assert pairs[i - 0] == (sig.params[ParamIndex(sig, i).value], args[i]);
          }
        }
        Success(r)
    case _ => Success([])
  }

  /** The (left-hand type, right-hand side) pairs from index `i` on, skipping untyped targets. */
  function AssignPairs(lhsTypes: seq<Option<string>>, rhs: seq<Expr>, i: nat): (r: Result<seq<(string, Expr)>, CastFault>)
    requires i <= |lhsTypes|
    ensures r.Success? <==> |lhsTypes| <= |rhs|
    ensures r.Success? ==> forall t, e :: (t, e) in r.value <==>
      exists j :: i <= j < |lhsTypes| && lhsTypes[j] == Some(t) && rhs[j] == e
    decreases |lhsTypes| - i
  {
    if i == |lhsTypes| then (if |lhsTypes| <= |rhs| then Success([]) else Failure(IndexOutOfRange))
    else if i >= |rhs| then Failure(IndexOutOfRange)
    else
      var rest :- AssignPairs(lhsTypes, rhs, i + 1);
      match lhsTypes[i]
      case None => Success(rest)
      case Some(t) => Success([(t, rhs[i])] + rest)
  }

  /**
   * An assignment: several targets fed by one call are skipped; otherwise each
   * right-hand side is checked against the type of its target, when that has one.
   */
  function AssignReports(lhsTypes: seq<Option<string>>, rhs: seq<Expr>): (r: Result<seq<CastReport>, CastFault>)
    ensures |lhsTypes| > 1 && |rhs| == 1 ==> r == Success([])
    ensures !(|lhsTypes| > 1 && |rhs| == 1) ==>
      && (r.Success? <==> |lhsTypes| <= |rhs|)
      && (r.Success? ==> forall rep :: rep in r.value <==>
            exists j :: 0 <= j < |lhsTypes| && lhsTypes[j].Some? && CheckLit(lhsTypes[j].value, rhs[j]) == Some(rep))
  {
    if |lhsTypes| > 1 && |rhs| == 1 then Success([])
    else
      var pairs :- AssignPairs(lhsTypes, rhs, 0);
      var r := CheckAll(pairs);
      assert forall rep :: rep in r <==>
        exists j :: 0 <= j < |lhsTypes| && lhsTypes[j].Some? && CheckLit(lhsTypes[j].value, rhs[j]) == Some(rep) by {
        forall rep | rep in r
          ensures exists j :: 0 <= j < |lhsTypes| && lhsTypes[j].Some? && CheckLit(lhsTypes[j].value, rhs[j]) == Some(rep)
        {
          var i :| 0 <= i < |pairs| && CheckLit(pairs[i].0, pairs[i].1) == Some(rep);
          assert pairs[i] in pairs;
        }
        forall rep, j | 0 <= j < |lhsTypes| && lhsTypes[j].Some? && CheckLit(lhsTypes[j].value, rhs[j]) == Some(rep)
          ensures rep in r
        {
          assert (lhsTypes[j].value, rhs[j]) in pairs;
        }
      }
      Success(r)
  }

  /** The (result type, returned expression) pairs from index `i` on. */
  function ResultPairs(results: seq<string>, exprs: seq<Expr>, i: nat): (r: Result<seq<(string, Expr)>, CastFault>)
    requires i <= |results|
    ensures r.Success? <==> |results| <= |exprs|
    ensures r.Success? ==> |r.value| == |results| - i
    ensures r.Success? ==> forall j :: i <= j < |results| ==> r.value[j - i] == (results[j], exprs[j])
    decreases |results| - i
  {
    if i == |results| then (if |results| <= |exprs| then Success([]) else Failure(IndexOutOfRange))
    else if i >= |exprs| then Failure(IndexOutOfRange)
    else
      var rest :- ResultPairs(results, exprs, i + 1);
      Success([(results[i], exprs[i])] + rest)
  }

  /**
   * A return statement, given the signature of the innermost enclosing function: a
   * bare return is skipped, as is one expression returned from a function with several
   * results; otherwise each result is checked against its declared type.
   */
  function ReturnReports(enclosing: Option<Signature>, exprs: seq<Expr>): (r: Result<seq<CastReport>, CastFault>)
    ensures exprs == [] ==> r == Success([])
    ensures exprs != [] && enclosing.None? ==> r == Failure(NoEnclosingFunction)
    ensures exprs != [] && enclosing.Some? && |enclosing.value.results| > 1 && |exprs| == 1 ==> r == Success([])
    ensures exprs != [] && enclosing.Some? && !(|enclosing.value.results| > 1 && |exprs| == 1) ==>
      && (r.Success? <==> |enclosing.value.results| <= |exprs|)
      && (r.Success? ==> forall rep :: rep in r.value <==>
            exists j :: 0 <= j < |enclosing.value.results| && CheckLit(enclosing.value.results[j], exprs[j]) == Some(rep))
  {
    if exprs == [] then Success([])
    else
      match enclosing
      case None => Failure(NoEnclosingFunction)
      case Some(sig) =>
        if |sig.results| > 1 && |exprs| == 1 then Success([])
        else
          var pairs :- ResultPairs(sig.results, exprs, 0);
          var r := CheckAll(pairs);
          assert forall rep :: rep in r <==>
            exists j :: 0 <= j < |sig.results| && CheckLit(sig.results[j], exprs[j]) == Some(rep) by {
            forall rep | rep in r
              ensures exists j :: 0 <= j < |sig.results| && CheckLit(sig.results[j], exprs[j]) == Some(rep)
            {
              var i :| 0 <= i < |pairs| && CheckLit(pairs[i].0, pairs[i].1) == Some(rep);
              assert pairs[i - 0] == (sig.results[i], exprs[i]);
            }
            forall rep, j | 0 <= j < |sig.results| && CheckLit(sig.results[j], exprs[j]) == Some(rep)
              ensures rep in r
            {
              assert pairs[j - 0] == (sig.results[j], exprs[j]);
            }
          }
          Success(r)
  }

  /** The syntax the analyzer distinguishes, with the type information it reads. */
  datatype Site =
    | CallSite(callee: Callee, args: seq<Expr>)
      /** An assignment: the type of each left-hand side (none for `_`), and the right-hand sides. */
    | AssignSite(lhsTypes: seq<Option<string>>, rhs: seq<Expr>)
    | ReturnSite(results: seq<Expr>)
    | FuncDeclSite(sig: Signature)
    | FuncLitSite(sig: Signature)
    | OtherSite

  /** A syntax tree: a node and its children in source order. */
  datatype Tree = Tree(site: Site, children: seq<Tree>)

  predicate IsFunc(s: Site) {
    s.FuncDeclSite? || s.FuncLitSite?
  }

  /** `crumbs[i]` is a function and none after it is. */
  predicate InnermostAt(crumbs: seq<Site>, i: nat) {
    i < |crumbs| && IsFunc(crumbs[i]) && forall j :: i < j < |crumbs| ==> !IsFunc(crumbs[j])
  }

  /** The signature of the innermost function among the ancestors (`crumbs`, outermost first). */
  function InnermostFunc(crumbs: seq<Site>): (r: Option<Signature>)
    ensures r.None? <==> forall i :: 0 <= i < |crumbs| ==> !IsFunc(crumbs[i])
    ensures r.Some? ==> exists i: nat :: InnermostAt(crumbs, i) && crumbs[i].sig == r.value
  {
    if crumbs == [] then None
    else
      var last := crumbs[|crumbs| - 1];
      if IsFunc(last) then
        assert InnermostAt(crumbs, |crumbs| - 1);
        Some(last.sig)
      else
        var init := crumbs[..|crumbs| - 1];
        assert forall i :: 0 <= i < |init| ==> init[i] == crumbs[i];
        assert forall i: nat :: InnermostAt(init, i) ==> InnermostAt(crumbs, i);
        InnermostFunc(init)
  }

  /** The reports of one node, given its ancestors. */
  function Visit(s: Site, crumbs: seq<Site>): (r: Result<seq<CastReport>, CastFault>)
    ensures r.Success? ==> forall rep :: rep in r.value ==> rep.typ !in Accepted(rep.kind)
    ensures s.CallSite? ==> r == CallReports(s.callee, s.args)
    ensures s.AssignSite? ==> r == AssignReports(s.lhsTypes, s.rhs)
    ensures s.ReturnSite? ==> r == ReturnReports(InnermostFunc(crumbs), s.results)
    ensures !s.CallSite? && !s.AssignSite? && !s.ReturnSite? ==> r == Success([])
  {
    match s
    case CallSite(callee, args) => CallReports(callee, args)
    case AssignSite(lhsTypes, rhs) => AssignReports(lhsTypes, rhs)
    case ReturnSite(results) => ReturnReports(InnermostFunc(crumbs), results)
    case _ => Success([])
  }

  /** Visits a tree in preorder, each node with the list of its ancestors; the first fault stops the walk. */
  function WalkTree(t: Tree, crumbs: seq<Site>): (r: Result<seq<CastReport>, CastFault>)
    ensures r.Success? ==> forall rep :: rep in r.value ==> rep.typ !in Accepted(rep.kind)
    ensures r.Success? ==> Visit(t.site, crumbs).Success? && Visit(t.site, crumbs).value <= r.value
    decreases t, 1
  {
    var here :- Visit(t.site, crumbs);
    var below :- WalkTrees(t.children, crumbs + [t.site], 0);
    Success(here + below)
  }

  function WalkTrees(ts: seq<Tree>, crumbs: seq<Site>, i: nat): (r: Result<seq<CastReport>, CastFault>)
    requires i <= |ts|
    ensures r.Success? ==> forall rep :: rep in r.value ==> rep.typ !in Accepted(rep.kind)
    decreases ts, 0, |ts| - i
  {
    if i == |ts| then Success([])
    else
      var first :- WalkTree(ts[i], crumbs);
      var rest :- WalkTrees(ts, crumbs, i + 1);
      Success(first + rest)
  }

  /** Files under these directories (the toolchain and vendored system code) are not checked. */
  const SkippedPrefixes: seq<string> := ["/usr", "/opt"]

  predicate HasPrefix(s: string, p: string) {
    |p| <= |s| && s[..|p|] == p
  }

  predicate Skipped(filename: string) {
    exists i :: 0 <= i < |SkippedPrefixes| && HasPrefix(filename, SkippedPrefixes[i])
  }

  /** A node met by the walk, with its ancestors, outermost first. */
  type Visited = (Site, seq<Site>)

  /** Every node of `t` with its ancestors, in the order the walk meets them: node first, then each child's subtree. */
  function Preorder(t: Tree, crumbs: seq<Site>): seq<Visited>
    decreases t, 1
  {
    [(t.site, crumbs)] + PreorderAll(t.children, crumbs + [t.site], 0)
  }

  /** The nodes of `ts[i..]`, tree after tree. */
  function PreorderAll(ts: seq<Tree>, crumbs: seq<Site>, i: nat): seq<Visited>
    requires i <= |ts|
    decreases ts, 0, |ts| - i
  {
    if i == |ts| then [] else Preorder(ts[i], crumbs) + PreorderAll(ts, crumbs, i + 1)
  }

  /** The visit of each listed node, in order. */
  function VisitsOf(ps: seq<Visited>): (r: seq<Result<seq<CastReport>, CastFault>>)
    ensures |r| == |ps|
    ensures forall k :: 0 <= k < |ps| ==> r[k] == Visit(ps[k].0, ps[k].1)
  {
    seq(|ps|, k requires 0 <= k < |ps| => Visit(ps[k].0, ps[k].1))
  }

  /** `rs[k]` succeeded and holds `rep`. */
  predicate HoldsAt(rs: seq<Result<seq<CastReport>, CastFault>>, k: int, rep: CastReport) {
    0 <= k < |rs| && rs[k].Success? && rep in rs[k].value
  }

  /**
   * Concatenates the reports of the results in order, stopping at the first fault: it
   * succeeds exactly when every result does, and then holds exactly their reports.
   */
  function Concat(rs: seq<Result<seq<CastReport>, CastFault>>): (r: Result<seq<CastReport>, CastFault>)
    ensures r.Success? <==> forall k :: 0 <= k < |rs| ==> rs[k].Success?
    ensures r.Success? ==> forall rep :: rep in r.value <==> exists k :: HoldsAt(rs, k, rep)
  {
    if rs == [] then Success([])
    else
      var here :- rs[0];
      var rest :- Concat(rs[1..]);
      assert forall k, rep :: 0 < k && HoldsAt(rs, k, rep) ==> HoldsAt(rs[1..], k - 1, rep);
      assert forall k, rep :: HoldsAt(rs[1..], k, rep) ==> HoldsAt(rs, k + 1, rep);
      assert forall rep :: rep in here ==> HoldsAt(rs, 0, rep);
      Success(here + rest)
  }

  /** Concatenating two lists of results in turn is concatenating their concatenation. */
  lemma {:induction false} ConcatAppend(a: seq<Result<seq<CastReport>, CastFault>>, b: seq<Result<seq<CastReport>, CastFault>>)
    ensures Concat(a + b) ==
      match Concat(a)
      case Failure(e) => Failure(e)
      case Success(x) =>
        match Concat(b)
        case Failure(e) => Failure(e)
        case Success(y) => Success(x + y)
  {
    if a != [] {
      assert (a + b)[0] == a[0];
      assert (a + b)[1..] == a[1..] + b;
      ConcatAppend(a[1..], b);
      if a[0].Success? && Concat(a[1..]).Success? && Concat(b).Success? {
        var x, x', y := a[0].value, Concat(a[1..]).value, Concat(b).value;
        assert x + (x' + y) == (x + x') + y;
      }
    } else {
      assert a + b == b;
      if Concat(b).Success? {
        assert [] + Concat(b).value == Concat(b).value;
      }
    }
  }

  /** Visiting two lists of nodes in turn is visiting their concatenation. */
  lemma VisitsOfAppend(a: seq<Visited>, b: seq<Visited>)
    ensures VisitsOf(a + b) == VisitsOf(a) + VisitsOf(b)
  {
    var l, r := VisitsOf(a + b), VisitsOf(a) + VisitsOf(b);
    forall k | 0 <= k < |l|
      ensures l[k] == r[k]
    {
      if k < |a| {
        assert (a + b)[k] == a[k];
      } else {
        assert (a + b)[k] == b[k - |a|];
      }
    }
  }

  /** The walk of a tree visits its nodes in preorder, each with its ancestors, stopping at the first fault. */
  lemma {:induction false} WalkTreeVisitsPreorder(t: Tree, crumbs: seq<Site>)
    ensures WalkTree(t, crumbs) == Concat(VisitsOf(Preorder(t, crumbs)))
    decreases t, 1
  {
    var rest := PreorderAll(t.children, crumbs + [t.site], 0);
    WalkTreesVisitsPreorder(t.children, crumbs + [t.site], 0);
    VisitsOfAppend([(t.site, crumbs)], rest);
    ConcatAppend(VisitsOf([(t.site, crumbs)]), VisitsOf(rest));
    assert Concat(VisitsOf([(t.site, crumbs)])) ==
      match Visit(t.site, crumbs)
      case Failure(e) => Failure(e)
      case Success(x) => Success(x + []);
  }

  /** The same for the trees `ts[i..]`. */
  lemma {:induction false} WalkTreesVisitsPreorder(ts: seq<Tree>, crumbs: seq<Site>, i: nat)
    requires i <= |ts|
    ensures WalkTrees(ts, crumbs, i) == Concat(VisitsOf(PreorderAll(ts, crumbs, i)))
    decreases ts, 0, |ts| - i
  {
    if i < |ts| {
      WalkTreeVisitsPreorder(ts[i], crumbs);
      WalkTreesVisitsPreorder(ts, crumbs, i + 1);
      VisitsOfAppend(Preorder(ts[i], crumbs), PreorderAll(ts, crumbs, i + 1));
      ConcatAppend(VisitsOf(Preorder(ts[i], crumbs)), VisitsOf(PreorderAll(ts, crumbs, i + 1)));
    }
  }

  function FileReports(filename: string, file: Tree): (r: Result<seq<CastReport>, CastFault>)
    ensures Skipped(filename) ==> r == Success([])
    ensures r.Success? ==> forall rep :: rep in r.value ==> rep.typ !in Accepted(rep.kind)
    ensures !Skipped(filename) ==> r == Concat(VisitsOf(Preorder(file, [])))
  {
    if Skipped(filename) then Success([])
    else
      WalkTreeVisitsPreorder(file, []);
      WalkTree(file, [])
  }

  /** Every node's visit succeeds. */
  predicate VisitsSucceed(ps: seq<Visited>) {
    forall k :: 0 <= k < |ps| ==> Visit(ps[k].0, ps[k].1).Success?
  }

  /** The `k`-th node's visit succeeds and reports `rep`. */
  predicate VisitReports(ps: seq<Visited>, k: int, rep: CastReport) {
    0 <= k < |ps| && Visit(ps[k].0, ps[k].1).Success? && rep in Visit(ps[k].0, ps[k].1).value
  }

  /**
   * Outside `/usr` and `/opt`, a file's analysis succeeds exactly when the visit of every
   * node succeeds, and then reports exactly what the nodes' visits report.
   */
  lemma FileReportsVisitEveryNode(filename: string, file: Tree)
    requires !Skipped(filename)
    ensures FileReports(filename, file).Success? <==> VisitsSucceed(Preorder(file, []))
    ensures var r := FileReports(filename, file);
      r.Success? ==> forall rep :: rep in r.value <==> exists k :: VisitReports(Preorder(file, []), k, rep)
  {
    var ps := Preorder(file, []);
    var rs := VisitsOf(ps);
    var r := FileReports(filename, file);
    assert r == Concat(rs);
    assert |rs| == |ps|;
    if r.Failure? {
      var k :| 0 <= k < |rs| && !rs[k].Success?;
      assert !Visit(ps[k].0, ps[k].1).Success?;
    } else {
      forall k | 0 <= k < |ps|
        ensures Visit(ps[k].0, ps[k].1).Success?
      {
        assert rs[k].Success?;
      }
      forall rep
        ensures rep in r.value <==> exists k :: VisitReports(ps, k, rep)
      {
        forall k | VisitReports(ps, k, rep)
          ensures HoldsAt(rs, k, rep)
        {
        }
        if rep in r.value {
          var k :| HoldsAt(rs, k, rep);
          assert VisitReports(ps, k, rep);
        }
      }
    }
  }


  /** The names a literal kind naturally denotes. */
  function KindNames(kind: LitKind): (r: seq<string>)
    ensures Accepted(kind) == WantSet(r)
  {
    match kind
    case STRING => ["string"]
    case CHAR => ["char", "rune", "byte"]
    case INT => ["int", "int8", "int16", "int32", "int64", "uint", "uint8", "uint16", "uint32", "uint64"]
    case _ => ["float", "float32", "float64"]
  }

  /** Every want set holds the empty interface types and their slices. */
  lemma AnyTypesWanted(names: seq<string>)
    ensures "interface{}" in WantSet(names) && "any" in WantSet(names)
    ensures "[]interface{}" in WantSet(names) && "[]any" in WantSet(names)
  {
    assert (names + AnyTypes)[|names|] == "interface{}";
    assert (names + AnyTypes)[|names| + 1] == "any";
    assert "[]interface{}" == "[]" + "interface{}";
    assert "[]any" == "[]" + "any";
  }

  /** A literal is never reported where an empty interface, or a slice of one, is expected. */
  lemma EmptyInterfaceAcceptsEverything(e: Expr)
    ensures CheckLit("interface{}", e).None? && CheckLit("any", e).None?
    ensures CheckLit("[]interface{}", e).None? && CheckLit("[]any", e).None?
  {
    if e.BasicLit? {
      AnyTypesWanted(KindNames(e.kind));
    }
  }

  /** A name that is neither listed nor a slice type is not accepted. */
  lemma NotInWantSet(names: seq<string>, k: string)
    requires k !in names + AnyTypes
    requires |k| == 0 || k[0] != '['
    ensures k !in WantSet(names)
  {
    forall n | n in names + AnyTypes
      ensures k != "[]" + n
    {
      assert ("[]" + n)[0] == '[';
    }
  }

  /** A literal is reported where a type that is neither one of its kind's names, an empty interface nor a slice is expected. */
  lemma ForeignTypeReported(kind: LitKind, t: string, p: Pos)
    requires t !in KindNames(kind) + AnyTypes
    requires |t| == 0 || t[0] != '['
    ensures CheckLit(t, BasicLit(kind, p)) == Some(CastReport(p, kind, t))
  {
    NotInWantSet(KindNames(kind), t);
  }

  /** An integer literal passed where a `float64` is expected is reported. */
  lemma IntegerLiteralForFloat(p: Pos)
    ensures CheckLit("float64", BasicLit(INT, p)) == Some(CastReport(p, INT, "float64"))
  {
    var names := KindNames(INT) + AnyTypes;
    assert forall n :: n in names ==> |n| != 7;
    ForeignTypeReported(INT, "float64", p);
  }

  /** A float literal passed where a `float64` is expected is not. */
  lemma FloatLiteralForFloat(p: Pos)
    ensures CheckLit("float64", BasicLit(FLOAT, p)) == None
  {
    assert (KindNames(FLOAT) + AnyTypes)[2] == "float64";
  }

  /** Expressions that are not basic literals are never reported, whatever the target type. */
  lemma OnlyLiteralsReported(t: string, e: Expr)
    requires !e.BasicLit?
    ensures CheckLit(t, e) == None
  {
  }

  /** In a variadic call every argument from the last parameter's position on is checked against that parameter. */
  lemma VariadicTail(sig: Signature, args: seq<Expr>, i: nat)
    requires sig.variadic && |sig.params| > 0
    requires |sig.params| - 1 <= i < |args|
    requires !(|sig.params| > 1 && |args| == 1)
    ensures CallReports(FuncValue(sig), args).Success?
    ensures CheckLit(sig.params[|sig.params| - 1], args[i]).Some? ==>
      CheckLit(sig.params[|sig.params| - 1], args[i]).value in CallReports(FuncValue(sig), args).value
  {
    assert forall j :: 0 <= j < |args| ==> ParamIndex(sig, j).Some?;
    assert ParamIndex(sig, i) == Some(|sig.params| - 1);
  }

  /** The skipped directories are matched as text prefixes, so `/optimal/...` is skipped as well. */
  lemma PrefixNotDirectory(file: Tree)
    ensures FileReports("/optimal/main.go", file) == Success([])
  {
    assert SkippedPrefixes[1] == "/opt";
    assert HasPrefix("/optimal/main.go", "/opt");
  }
}
