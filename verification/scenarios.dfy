/**
 * Branching shapes taken through the join: a variable declared bare, assigned in some
 * branches of an `if` or a `switch`, and read after the branches meet. Each branch block
 * starts from the join of its predecessors' scopes, as in the per-function evaluation.
 */
module Scenarios {
  import opened Wrappers
  import opened Ast
  import opened Scopes
  import opened VarInit
  import BlockOrder

  /** `x` declares the variable and `u` is an occurrence that refers back to it. */
  ghost predicate Refers(info: Info, x: Ident, u: Ident) {
    x.pos in info.defs && u.pos in info.uses && info.uses[u.pos].pos == info.defs[x.pos].pos
  }

  /** A branch block that assigns the variable. */
  function Assigning(info: Info, b: Block, pred: Scope, u: Ident): Scope {
    MarkInitialized(info, MergeScopes(Some(b), [pred]), u)
  }

  /** A branch block that leaves the variable alone. */
  function Skipping(b: Block, pred: Scope): Scope {
    MergeScopes(Some(b), [pred])
  }

  /** The variable is tracked, assigned, and blamed on no branch. */
  predicate Cleared(s: Scope, id: VarId) {
    id in s.uninit && s.uninit[id].changed && s.uninit[id].uninit == map[]
  }

  /** The variable is tracked, unassigned, and blamed on exactly `bs`. */
  predicate Pending(s: Scope, id: VarId, bs: set<BranchId>) {
    id in s.uninit && !s.uninit[id].changed && s.uninit[id].uninit.Keys == bs
  }

  lemma DeclaredPending(info: Info, s0: Scope, x: Ident)
    requires x.pos in info.defs
    ensures Pending(NewDecl(info, s0, x), info.defs[x.pos].pos, {s0.location})
    ensures NewDecl(info, s0, x).location == s0.location
  {
  }

  lemma AssignedCleared(info: Info, b: Block, pred: Scope, u: Ident, id: VarId)
    requires u.pos in info.uses && info.uses[u.pos].pos == id && id in pred.uninit
    ensures Cleared(Assigning(info, b, pred, u), id)
  {
    MergeSingleton(Some(b), pred);
  }

  lemma SkippedKept(b: Block, pred: Scope, id: VarId, bs: set<BranchId>)
    requires Pending(pred, id, bs)
    ensures Pending(Skipping(b, pred), id, bs)
    ensures Skipping(b, pred).location == b.pos
  {
    MergeSingleton(Some(b), pred);
  }

  /** A join of inputs that all cleared the variable clears it. */
  lemma JoinCleared(block: Option<Block>, ins: seq<Scope>, id: VarId)
    requires |ins| > 0
    requires forall s :: s in ins ==> Cleared(s, id)
    ensures Cleared(MergeScopes(block, ins), id)
  {
    assert Cleared(ins[0], id);
    MergeClearsBlameIff(block, ins, id);
  }

  /** A join in which some input assigned the variable marks it assigned. */
  lemma JoinChanged(block: Option<Block>, ins: seq<Scope>, c: Scope, id: VarId)
    requires c in ins && Cleared(c, id)
    ensures id in MergeScopes(block, ins).uninit
    ensures MergeScopes(block, ins).uninit[id].changed
  {
    assert Tracks(ins, id);
    assert AssignedBy(ins, id);
  }

  /** A join in which exactly one input left the variable unassigned blames that input's branch alone. */
  lemma JoinBlamesSkipper(block: Option<Block>, ins: seq<Scope>, k: nat, c: Scope, id: VarId, bs: set<BranchId>)
    requires k < |ins|
    requires Pending(ins[k], id, bs)
    requires c in ins && Cleared(c, id)
    requires forall s :: s in ins && s != ins[k] ==> Cleared(s, id)
    ensures id in MergeScopes(block, ins).uninit
    ensures MergeScopes(block, ins).uninit[id].changed
    ensures MergeScopes(block, ins).uninit[id].uninit.Keys == {ins[k].location}
  {
    JoinChanged(block, ins, c, id);
    MergeAt(block, ins, id);
    BlameSkipper(ins, k, id, bs);
  }

  /** The blame half of `JoinBlamesSkipper`, on the fold itself. */
  lemma BlameSkipper(ins: seq<Scope>, k: nat, id: VarId, bs: set<BranchId>)
    requires k < |ins|
    requires Pending(ins[k], id, bs)
    requires forall s :: s in ins && s != ins[k] ==> Cleared(s, id)
    ensures Blame(ins, id, true).Keys == {ins[k].location}
  {
    var m := Blame(ins, id, true);
    forall br | br in m
      ensures br == ins[k].location
    {
      var s :| s in ins && id in s.uninit && br in Contribution(s, id, true);
      assert s == ins[k];
    }
    assert ins[k].location in Contribution(ins[k], id, true);
    assert Blamed(ins, id, true, ins[k].location);
  }

  /** A join in which every input has assigned the variable, one of them still blaming `bs`. */
  lemma JoinKeepsBlame(block: Option<Block>, ins: seq<Scope>, k: nat, id: VarId)
    requires k < |ins|
    requires id in ins[k].uninit && ins[k].uninit[id].changed
    requires forall s :: s in ins && s != ins[k] ==> Cleared(s, id)
    ensures id in MergeScopes(block, ins).uninit
    ensures MergeScopes(block, ins).uninit[id].uninit.Keys == ins[k].uninit[id].uninit.Keys
  {
    assert ins[k] in ins;
    assert Tracks(ins, id);
    assert AssignedBy(ins, id);
    var m := MergeScopes(block, ins).uninit[id];
    forall br | br in ins[k].uninit[id].uninit
      ensures br in m.uninit
    {
      assert br in Contribution(ins[k], id, true);
      assert Blamed(ins, id, true, br);
    }
    forall br | br in m.uninit
      ensures br in ins[k].uninit[id].uninit
    {
      assert Blamed(ins, id, true, br);
      var s :| s in ins && id in s.uninit && br in Contribution(s, id, true);
      assert s == ins[k];
    }
  }

  /** Two assigning branches meet. */
  lemma JoinTwoCleared(block: Option<Block>, a: Scope, b: Scope, id: VarId)
    requires Cleared(a, id) && Cleared(b, id)
    ensures Cleared(MergeScopes(block, [a, b]), id)
  {
    JoinCleared(block, [a, b], id);
  }

  /** A skipping branch meets an assigning one. */
  lemma JoinTwoBlamesFirst(block: Option<Block>, a: Scope, b: Scope, id: VarId, bs: set<BranchId>)
    requires Pending(a, id, bs) && Cleared(b, id)
    ensures id in MergeScopes(block, [a, b]).uninit
    ensures MergeScopes(block, [a, b]).uninit[id].changed
    ensures MergeScopes(block, [a, b]).uninit[id].uninit.Keys == {a.location}
  {
    JoinBlamesSkipper(block, [a, b], 0, b, id, bs);
  }

  /** An assigning branch meets a skipping one. */
  lemma JoinTwoBlamesSecond(block: Option<Block>, a: Scope, n: Scope, id: VarId, bs: set<BranchId>)
    requires Cleared(a, id) && Pending(n, id, bs)
    ensures id in MergeScopes(block, [a, n]).uninit
    ensures MergeScopes(block, [a, n]).uninit[id].changed
    ensures MergeScopes(block, [a, n]).uninit[id].uninit.Keys == {n.location}
  {
    JoinBlamesSkipper(block, [a, n], 1, a, id, bs);
  }

  /** Two assigning branches meet a skipping one. */
  lemma JoinThreeBlamesLast(block: Option<Block>, a: Scope, b: Scope, n: Scope, id: VarId, bs: set<BranchId>)
    requires Cleared(a, id) && Cleared(b, id) && Pending(n, id, bs)
    ensures id in MergeScopes(block, [a, b, n]).uninit
    ensures MergeScopes(block, [a, b, n]).uninit[id].uninit.Keys == {n.location}
  {
    JoinBlamesSkipper(block, [a, b, n], 2, a, id, bs);
  }

  /** An assigning branch that still blames something meets two clean ones. */
  lemma JoinThreeKeepsMiddle(block: Option<Block>, a: Scope, n: Scope, c: Scope, id: VarId)
    requires Cleared(a, id) && Cleared(c, id)
    requires id in n.uninit && n.uninit[id].changed
    ensures id in MergeScopes(block, [a, n, c]).uninit
    ensures MergeScopes(block, [a, n, c]).uninit[id].uninit.Keys == n.uninit[id].uninit.Keys
  {
    JoinKeepsBlame(block, [a, n, c], 1, id);
  }

  /** `var x T; if c { x = 1 } else { x = 2 }; use(x)`: assigned on every path, so the read is not reported. */
  lemma IfElseAssignsEverywhere(info: Info, s0: Scope, x: Ident, u: Ident,
                                thenB: Block, elseB: Block, done: Block, log: Log, read: Ident)
    requires Refers(info, x, u) && Refers(info, x, read)
    ensures var entry := NewDecl(info, s0, x);
      var c := Ctx(MergeScopes(Some(done), [Assigning(info, thenB, entry, u), Assigning(info, elseB, entry, u)]), log);
      && !Uninitialized(c.scope, info.defs[x.pos].pos)
      && CheckUse(info, c, read) == c
  {
    var id := info.defs[x.pos].pos;
    var entry := NewDecl(info, s0, x);
    DeclaredPending(info, s0, x);
    var t := Assigning(info, thenB, entry, u);
    var e := Assigning(info, elseB, entry, u);
    AssignedCleared(info, thenB, entry, u, id);
    AssignedCleared(info, elseB, entry, u, id);
    JoinTwoCleared(Some(done), t, e, id);
  }

  /** `var x T; if c { x = 1 }; use(x)`: the block that skipped the `if` body is blamed and the read is reported. */
  lemma IfWithoutElseBlamesEntry(info: Info, s0: Scope, x: Ident, u: Ident,
                                 thenB: Block, done: Block, log: Log, read: Ident)
    requires Refers(info, x, u) && Refers(info, x, read)
    requires info.defs[x.pos].pos !in log.reported
    ensures var entry := NewDecl(info, s0, x);
      var c := Ctx(MergeScopes(Some(done), [entry, Assigning(info, thenB, entry, u)]), log);
      && Uninitialized(c.scope, info.defs[x.pos].pos)
      && c.scope.uninit[info.defs[x.pos].pos].uninit.Keys == {s0.location}
      && |CheckUse(info, c, read).log.diags| == |c.log.diags| + 1
  {
    var id := info.defs[x.pos].pos;
    var entry := NewDecl(info, s0, x);
    DeclaredPending(info, s0, x);
    var t := Assigning(info, thenB, entry, u);
    var c := Ctx(MergeScopes(Some(done), [entry, t]), log);
    AssignedCleared(info, thenB, entry, u, id);
    JoinTwoBlamesFirst(Some(done), entry, t, id, {s0.location});
    assert s0.location in c.scope.uninit[id].uninit.Keys;
    assert DeclIdForUse(info, read) == id;
  }

  /**
   * `switch v { case 3: x = 1; case 4: x = 3 }` with no `default`. Each clause gets a body
   * block and a next-case block (the test that fails over to the following clause), both
   * at the clause; the last next-case block falls through to the join, so the join meets
   * the two assigning bodies and that block, which is blamed, and the read is reported.
   */
  lemma SwitchWithoutDefaultBlamesLastCase(info: Info, s0: Scope, x: Ident, u: Ident,
                                           body3: Block, next3: Block, body4: Block, next4: Block,
                                           done: Block, log: Log, read: Ident)
    requires Refers(info, x, u) && Refers(info, x, read)
    requires info.defs[x.pos].pos !in log.reported
    ensures var head := NewDecl(info, s0, x);
      var n3 := Skipping(next3, head);
      var n4 := Skipping(next4, n3);
      var c := Ctx(MergeScopes(Some(done), [Assigning(info, body3, head, u), Assigning(info, body4, n3, u), n4]), log);
      && c.scope.uninit[info.defs[x.pos].pos].uninit.Keys == {next4.pos}
      && |CheckUse(info, c, read).log.diags| == |c.log.diags| + 1
  {
    var id := info.defs[x.pos].pos;
    var bs := {s0.location};
    var head := NewDecl(info, s0, x);
    var n3 := Skipping(next3, head);
    var n4 := Skipping(next4, n3);
    var a := Assigning(info, body3, head, u);
    var b := Assigning(info, body4, n3, u);
    assert Pending(head, id, bs) by { DeclaredPending(info, s0, x); }
    assert Pending(n3, id, bs) by { SkippedKept(next3, head, id, bs); }
    assert Pending(n4, id, bs) && n4.location == next4.pos by { SkippedKept(next4, n3, id, bs); }
    assert Cleared(a, id) by { AssignedCleared(info, body3, head, u, id); }
    assert Cleared(b, id) by { AssignedCleared(info, body4, n3, u, id); }
    var c := Ctx(MergeScopes(Some(done), [a, b, n4]), log);
    JoinThreeBlamesLast(Some(done), a, b, n4, id, bs);
    assert next4.pos in c.scope.uninit[id].uninit.Keys;
    assert Uninitialized(c.scope, id);
    assert DeclIdForUse(info, read) == id;
  }

  /**
   * An assigning `case 3`, a `case 4` holding a nested `switch` whose only clause
   * `case 5` assigns, and an assigning `default`. The nested switch's join meets the
   * assigning `case 5` body and the `case 5` next-case block, which is blamed; the outer
   * join keeps that blame, and the read is reported.
   */
  lemma NestedSwitchWithoutDefaultBlamesInnerCase(info: Info, s0: Scope, x: Ident, u: Ident,
                                                  body3: Block, next3: Block, body4: Block, next4: Block,
                                                  body5: Block, next5: Block, innerDone: Block,
                                                  dflt: Block, done: Block, log: Log, read: Ident)
    requires Refers(info, x, u) && Refers(info, x, read)
    requires info.defs[x.pos].pos !in log.reported
    ensures var head := NewDecl(info, s0, x);
      var n3 := Skipping(next3, head);
      var b4 := Skipping(body4, n3);
      var inner := MergeScopes(Some(innerDone), [Assigning(info, body5, b4, u), Skipping(next5, b4)]);
      var d := Assigning(info, dflt, Skipping(next4, n3), u);
      var c := Ctx(MergeScopes(Some(done), [Assigning(info, body3, head, u), inner, d]), log);
      && c.scope.uninit[info.defs[x.pos].pos].uninit.Keys == {next5.pos}
      && |CheckUse(info, c, read).log.diags| == |c.log.diags| + 1
  {
    var id := info.defs[x.pos].pos;
    var bs := {s0.location};
    var head := NewDecl(info, s0, x);
    var n3 := Skipping(next3, head);
    var b4 := Skipping(body4, n3);
    var n5 := Skipping(next5, b4);
    var a5 := Assigning(info, body5, b4, u);
    var n4 := Skipping(next4, n3);
    var d := Assigning(info, dflt, n4, u);
    var a := Assigning(info, body3, head, u);
    assert Pending(head, id, bs) by { DeclaredPending(info, s0, x); }
    assert Pending(n3, id, bs) by { SkippedKept(next3, head, id, bs); }
    assert Pending(b4, id, bs) by { SkippedKept(body4, n3, id, bs); }
    assert Pending(n5, id, bs) && n5.location == next5.pos by { SkippedKept(next5, b4, id, bs); }
    assert Pending(n4, id, bs) by { SkippedKept(next4, n3, id, bs); }
    assert Cleared(a5, id) by { AssignedCleared(info, body5, b4, u, id); }
    assert Cleared(d, id) by { AssignedCleared(info, dflt, n4, u, id); }
    assert Cleared(a, id) by { AssignedCleared(info, body3, head, u, id); }
    var inner := MergeScopes(Some(innerDone), [a5, n5]);
    JoinTwoBlamesSecond(Some(innerDone), a5, n5, id, bs);
    assert DeclIdForUse(info, read) == id;
    ThreeWayReadReported(info, Some(done), a, inner, d, id, log, read, next5.pos);
  }

  /** A read after a three-way join whose middle input alone blames branch `p` is reported. */
  lemma ThreeWayReadReported(info: Info, block: Option<Block>, a: Scope, n: Scope, d: Scope, id: VarId,
                             log: Log, read: Ident, p: BranchId)
    requires Cleared(a, id) && Cleared(d, id)
    requires id in n.uninit && n.uninit[id].changed && n.uninit[id].uninit.Keys == {p}
    requires DeclIdForUse(info, read) == id && id !in log.reported
    ensures var c := Ctx(MergeScopes(block, [a, n, d]), log);
      && c.scope.uninit[id].uninit.Keys == {p}
      && |CheckUse(info, c, read).log.diags| == |c.log.diags| + 1
  {
    JoinThreeKeepsMiddle(block, a, n, d, id);
    var c := Ctx(MergeScopes(block, [a, n, d]), log);
    assert p in c.scope.uninit[id].uninit;
  }

  // The function `var x int; if produce() > 0 { x = 7 }; consume(x)`, taken through the
  // whole per-function evaluation: block ordering, each block from its start scope, and
  // the exit join.

  /** Resolution for that body: `x` is declared at 10, assigned at 20 and read at 30. */
  function IfInfo(): Info {
    var x := Object(10, "x", "int");
    Info(map[20 := x, 30 := x], map[10 := x])
  }

  /** The entry block: the bare declaration, then the `if` condition, which reads no variable. */
  function EntryNodes(): seq<Node> {
    [SpecNode(ValueSpec([Ident("x", 10)], [])), ExprNode(OtherExpr([Call(Name(Ident("produce", 11)), []), BasicLit(INT, 12)]))]
  }

  /** The `if` body: `x = 7`. */
  function ThenNodes(): seq<Node> {
    [StmtNode(AssignStmt([Name(Ident("x", 20))], Assign, [BasicLit(INT, 21)]))]
  }

  /** The block after the `if`: `consume(x)`. */
  function DoneNodes(): seq<Node> {
    [StmtNode(ExprStmt(Call(Name(Ident("consume", 29)), [Name(Ident("x", 30))])))]
  }

  /**
   * The graph go/cfg builds: the entry branches to the body and to the join, and the
   * body falls through to the join, which is the only exit.
   */
  function IfFlow(): seq<Block> {
    [ Block(KindOther, true, [1, 2], EntryNodes(), 100, "entry"),
      Block(KindOther, true, [2], ThenNodes(), 200, "if.then"),
      Block(KindOther, true, [], DoneNodes(), 300, "if.done") ]
  }

  /** The entry waits for nothing, the body for the entry, the join for both. */
  lemma IfDeps()
    ensures BlockOrder.Deps(IfFlow(), 0) == []
    ensures BlockOrder.Deps(IfFlow(), 1) == [0]
    ensures BlockOrder.Deps(IfFlow(), 2) == [0, 1]
  {
    var flow := IfFlow();
    assert BlockOrder.Succs(flow, 0) == [1, 2] && BlockOrder.Succs(flow, 1) == [2] && BlockOrder.Succs(flow, 2) == [];
    forall s | 0 <= s < 3
      ensures BlockOrder.Deps(flow, s) ==
        (if s != 0 then BlockOrder.Occurrences(0, [1, 2], s) else [])
        + (if s != 1 then BlockOrder.Occurrences(1, [2], s) else [])
        + (if s != 2 then BlockOrder.Occurrences(2, [], s) else [])
    {
      assert BlockOrder.DepsUpTo(flow, s, 0) == [];
      assert BlockOrder.DepsUpTo(flow, s, 1) == [] + (if s != 0 then BlockOrder.Occurrences(0, [1, 2], s) else []);
      assert BlockOrder.DepsUpTo(flow, s, 2) == BlockOrder.DepsUpTo(flow, s, 1) + (if s != 1 then BlockOrder.Occurrences(1, [2], s) else []);
    }
    assert BlockOrder.Occurrences(0, [1, 2], 0) == [];
    assert BlockOrder.Occurrences(0, [1, 2], 1) == [0];
    assert BlockOrder.Occurrences(0, [1, 2], 2) == [0];
    assert BlockOrder.Occurrences(1, [2], 0) == [];
    assert BlockOrder.Occurrences(1, [2], 1) == [];
    assert BlockOrder.Occurrences(1, [2], 2) == [1];
  }

  /** The dependency edges of the graph, exactly. */
  lemma IfEdges(d: nat, t: nat)
    ensures BlockOrder.Edge(IfFlow(), d, t) <==> (d == 0 && t == 1) || (d == 0 && t == 2) || (d == 1 && t == 2)
  {
    var flow := IfFlow();
    if d < 3 {
      assert BlockOrder.Succs(flow, d) == flow[d].succs;
    }
  }

  /** Entry, body, join is a dependency-respecting order of the live blocks. */
  lemma IfOrderValid()
    ensures BlockOrder.IsOrder(IfFlow(), [0, 1, 2])
  {
    var flow := IfFlow();
    var o := [0, 1, 2];
    forall j, d: nat | 0 <= j < |o| && BlockOrder.Edge(flow, d, o[j])
      ensures d in o[..j]
    {
      IfEdges(d, o[j]);
      if j == 1 {
        assert o[..1] == [0];
      } else if j == 2 {
        assert o[..2] == [0, 1];
      }
    }
  }

  /** It is the only one. */
  lemma IfOrderUnique(r: seq<nat>)
    requires BlockOrder.IsOrder(IfFlow(), r)
    ensures r == [0, 1, 2]
  {
    var flow := IfFlow();
    IfEdges(0, 1);
    IfEdges(0, 2);
    IfEdges(1, 2);
    assert BlockOrder.Live(flow, 0) && BlockOrder.Live(flow, 1) && BlockOrder.Live(flow, 2);
    var i0 :| 0 <= i0 < |r| && r[i0] == 0;
    var i1 :| 0 <= i1 < |r| && r[i1] == 1;
    var i2 :| 0 <= i2 < |r| && r[i2] == 2;
    assert 0 in r[..i1];
    assert 0 in r[..i2];
    assert 1 in r[..i2];
    assert i0 < i1 < i2;
    forall p | 0 <= p < |r|
      ensures r[p] < 3
    {
      assert r[p] in r;
      assert BlockOrder.Live(flow, r[p]);
    }
    assert r[|r| - 1] < 3 && r[0] < 3 && r[1] < 3 && r[2] < 3;
    assert i2 == |r| - 1;
    assert i0 == 0;
    assert i1 == 1;
    assert i2 == 2;
  }

  /** The block ordering therefore succeeds with entry, body, join. */
  lemma IfOrder()
    ensures BlockOrder.OrderBlocks(IfFlow()) == Success([0, 1, 2])
  {
    IfOrderValid();
    BlockOrder.OrderFailsOnlyWithoutOrder(IfFlow(), [0, 1, 2]);
    IfOrderUnique(BlockOrder.OrderBlocks(IfFlow()).value);
  }

  /** The function takes no parameters and has no named results. */
  function IfSpec(): FuncType {
    FuncType([], [])
  }

  /** The entry block's nodes declare `x` and read nothing. */
  lemma EntryDeclares(c: Ctx)
    ensures EvalNodes(IfInfo(), c, EntryNodes(), 0) == Success(c.(scope := NewDecls(IfInfo(), c.scope, [Ident("x", 10)], 0)))
  {
    ConditionReadsNothing(c.(scope := NewDecls(IfInfo(), c.scope, [Ident("x", 10)], 0)));
  }

  /** The condition `produce() > 0` leaves the context as it is. */
  lemma ConditionReadsNothing(c: Ctx)
    ensures EvalNodes(IfInfo(), c, EntryNodes(), 1) == Success(c)
  {
    var call := Call(Name(Ident("produce", 11)), []);
    var lit := BasicLit(INT, 12);
    assert ReadOnly(call) && Reads(call) == [];
    assert ReadOnly(OtherExpr([call, lit])) by {
      assert forall p | p in [call, lit] :: p == call || p == lit;
    }
    assert ReadsFrom([call, lit], 2) == [];
    assert ReadsFrom([call, lit], 1) == [];
    assert Reads(OtherExpr([call, lit])) == ReadsFrom([call, lit], 0) == [];
    assert NodesReads(EntryNodes(), 1) == [];
  }

  /** The body's node assigns its bare target and reads nothing. */
  lemma ThenAssigns(c: Ctx)
    ensures EvalNodes(IfInfo(), c, ThenNodes(), 0) == Success(c.(scope := MarkTargets(IfInfo(), c.scope, [Name(Ident("x", 20))], 0)))
  {
    var lhs := [Name(Ident("x", 20))];
    assert TargetReads(lhs, 0) == [];
    assert ReadsFrom([BasicLit(INT, 21)], 0) == [];
  }

  /** The join's node reads `x` once; the callee is not read. */
  lemma DoneReads(c: Ctx)
    ensures EvalNodes(IfInfo(), c, DoneNodes(), 0) == Success(CheckUse(IfInfo(), c, Ident("x", 30)))
  {
    var read := Ident("x", 30);
    assert NodesReads(DoneNodes(), 0) == [read];
    assert CheckUses(IfInfo(), c, [read], 0) == CheckUse(IfInfo(), c, read);
  }

  /** The entry block, first in the order, leaves `x` unassigned and blamed on the entry alone. */
  lemma IfEntryBlock(log: Log)
    ensures var r := RunBlock(IfInfo(), IfFlow(), IfSpec(), [], 0, true, FlowState(map[], [], [], false, log));
      && r.Success? && r.value.log == log
      && Pending(r.value.scope, 10, {100}) && r.value.scope.location == 100
      && r.value.scope.uninit[10].name == "x"
  {
    var info, flow, spec := IfInfo(), IfFlow(), IfSpec();
    IfDeps();
    var start := StartScope(info, flow, spec, [], 0, true, map[]);
    assert start.uninit == map[] && start.location == 100;
    var x := Ident("x", 10);
    assert VarInit.Defines(info, [x][0], 10);
    EntryDeclares(Ctx(start, log));
  }

  /** A block with dependencies, other than the first, starts from the join of their scopes. */
  lemma JoinStart(flow: seq<Block>, b: nat, scopes: map<nat, Scope>, deps: seq<nat>, ins: seq<Scope>)
    requires b < |flow| && BlockOrder.Deps(flow, b) == deps && deps != []
    requires DepScopes(scopes, deps) == ins
    ensures StartScope(IfInfo(), flow, IfSpec(), [], b, false, scopes) == MergeScopes(Some(flow[b]), ins)
  {
  }

  /** `x = 7` targets the variable `x`. */
  lemma ThenTargets()
    ensures Targets(IfInfo(), [Name(Ident("x", 20))], 0, 10)
  {
    var lhs := [Name(Ident("x", 20))];
    assert Hits(IfInfo(), lhs[0], 10);
  }

  /** The body starts from the entry's scope and clears `x`. */
  lemma IfThenBlock(st: FlowState, s0: Scope)
    requires st.blockScopes == map[0 := s0]
    requires Pending(s0, 10, {100})
    ensures var r := RunBlock(IfInfo(), IfFlow(), IfSpec(), [], 1, false, st);
      && r.Success? && r.value.log == st.log
      && Cleared(r.value.scope, 10)
      && r.value.scope.uninit[10].name == s0.uninit[10].name
  {
    var flow := IfFlow();
    IfDeps();
    assert DepScopes(st.blockScopes, [0]) == [s0];
    JoinStart(flow, 1, st.blockScopes, [0], [s0]);
    var start := MergeScopes(Some(flow[1]), [s0]);
    MergeSingleton(Some(flow[1]), s0);
    ThenTargets();
    ThenAssigns(Ctx(start, st.log));
  }

  /** The join sees the entry's scope, then the body's. */
  lemma JoinedScopes(m: map<nat, Scope>, s0: Scope, s1: Scope)
    requires m == map[0 := s0][1 := s1]
    ensures DepScopes(m, [0, 1]) == [s0, s1]
  {
    assert [0, 1][1..] == [1];
  }

  /** The join meets the skipping entry and the assigning body, blames the entry, and reports the read. */
  lemma IfDoneBlock(st: FlowState, s0: Scope, s1: Scope)
    requires st.blockScopes == map[0 := s0][1 := s1]
    requires Pending(s0, 10, {100}) && s0.location == 100 && s0.uninit[10].name == "x"
    requires Cleared(s1, 10)
    requires 10 !in st.log.reported
    ensures var r := RunBlock(IfInfo(), IfFlow(), IfSpec(), [], 2, false, st);
      && r.Success?
      && r.value.log.diags == st.log.diags + [Diagnostic(30, 10, "x", {100}, UseSite)]
  {
    var flow := IfFlow();
    IfDeps();
    JoinedScopes(st.blockScopes, s0, s1);
    JoinStart(flow, 2, st.blockScopes, [0, 1], [s0, s1]);
    var start := MergeScopes(Some(flow[2]), [s0, s1]);
    JoinTwoBlamesFirst(Some(flow[2]), s0, s1, 10, {100});
    MergeAt(Some(flow[2]), [s0, s1], 10);
    assert start.uninit[10].name == "x";
    DoneReads(Ctx(start, st.log));
  }

  /** The order the ordering produces. */
  function IfOrderSeq(): (r: seq<nat>)
    ensures |r| == 3 && BlockOrder.NoDup(r) && r[0] == 0 && r[1] == 1 && r[2] == 2
    ensures forall x :: x in r ==> x < |IfFlow()|
  {
    [0, 1, 2]
  }

  /** The first step of the run records the entry's scope. */
  lemma IfFirstStep(log: Log) returns (s0: Scope, st1: FlowState)
    ensures var st0 := FlowState(map[], [], [], false, log);
      && FlowInv(IfFlow(), IfSpec(), IfOrderSeq(), 0, st0) && ExitsCollected(IfFlow(), IfOrderSeq(), 0, st0)
      && RunStep(IfInfo(), IfFlow(), IfSpec(), [], IfOrderSeq(), 0, st0) == Success(st1)
    ensures st1.blockScopes == map[0 := s0] && st1.log == log
    ensures Pending(s0, 10, {100}) && s0.location == 100 && s0.uninit[10].name == "x"
  {
    var st0 := FlowState(map[], [], [], false, log);
    assert FlowInv(IfFlow(), IfSpec(), IfOrderSeq(), 0, st0);
    IfEntryBlock(log);
    var c0 := RunBlock(IfInfo(), IfFlow(), IfSpec(), [], 0, true, st0).value;
    s0 := c0.scope;
    st1 := Record(IfFlow(), IfSpec(), IfOrderSeq(), 0, st0, c0.scope, c0.log);
  }

  /** The second step records the body's scope. */
  lemma IfSecondStep(st1: FlowState, s0: Scope) returns (s1: Scope, st2: FlowState)
    requires FlowInv(IfFlow(), IfSpec(), IfOrderSeq(), 1, st1) && ExitsCollected(IfFlow(), IfOrderSeq(), 1, st1)
    requires st1.blockScopes == map[0 := s0] && Pending(s0, 10, {100})
    ensures RunStep(IfInfo(), IfFlow(), IfSpec(), [], IfOrderSeq(), 1, st1) == Success(st2)
    ensures st2.blockScopes == map[0 := s0][1 := s1] && st2.log == st1.log && Cleared(s1, 10)
  {
    IfThenBlock(st1, s0);
    var c1 := RunBlock(IfInfo(), IfFlow(), IfSpec(), [], 1, false, st1).value;
    s1 := c1.scope;
    st2 := Record(IfFlow(), IfSpec(), IfOrderSeq(), 1, st1, c1.scope, c1.log);
  }

  /** The third step records the join's scope and its report. */
  lemma IfThirdStep(st2: FlowState, s0: Scope, s1: Scope) returns (st3: FlowState)
    requires FlowInv(IfFlow(), IfSpec(), IfOrderSeq(), 2, st2) && ExitsCollected(IfFlow(), IfOrderSeq(), 2, st2)
    requires st2.blockScopes == map[0 := s0][1 := s1]
    requires Pending(s0, 10, {100}) && s0.location == 100 && s0.uninit[10].name == "x"
    requires Cleared(s1, 10)
    requires 10 !in st2.log.reported
    ensures RunStep(IfInfo(), IfFlow(), IfSpec(), [], IfOrderSeq(), 2, st2) == Success(st3)
    ensures st3.log.diags == st2.log.diags + [Diagnostic(30, 10, "x", {100}, UseSite)]
  {
    IfDoneBlock(st2, s0, s1);
    var c2 := RunBlock(IfInfo(), IfFlow(), IfSpec(), [], 2, false, st2).value;
    st3 := Record(IfFlow(), IfSpec(), IfOrderSeq(), 2, st2, c2.scope, c2.log);
  }

  /** The run over the ordered blocks adds exactly the one report, and declares no named results. */
  lemma IfRun(log: Log)
    requires 10 !in log.reported
    ensures var st0 := FlowState(map[], [], [], false, log);
      && FlowInv(IfFlow(), IfSpec(), IfOrderSeq(), 0, st0) && ExitsCollected(IfFlow(), IfOrderSeq(), 0, st0)
      && var run := RunBlocks(IfInfo(), IfFlow(), IfSpec(), [], IfOrderSeq(), 0, st0);
      && run.Success?
      && run.value.log.diags == log.diags + [Diagnostic(30, 10, "x", {100}, UseSite)]
      && !run.value.hasNamedReturns
  {
    var info, flow, spec := IfInfo(), IfFlow(), IfSpec();
    var order := IfOrderSeq();
    var st0 := FlowState(map[], [], [], false, log);
    var s0, st1 := IfFirstStep(log);
    var s1, st2 := IfSecondStep(st1, s0);
    var st3 := IfThirdStep(st2, s0, s1);
    assert RunBlocks(info, flow, spec, [], order, 2, st2) == Success(st3);
    assert RunBlocks(info, flow, spec, [], order, 1, st1) == Success(st3);
    assert RunBlocks(info, flow, spec, [], order, 0, st0) == Success(st3);
  }

  /**
   * Evaluated as a whole, the function reports the read of `x` once, at the read, blamed
   * on the entry block where `x` was declared and left unassigned on the path that skips
   * the body; it reports nothing else.
   */
  lemma IfWithoutElseThroughFunction(log: Log)
    requires 10 !in log.reported
    ensures var r := EvalFunc(IfInfo(), IfFlow(), IfSpec(), [], log);
      && r.Success?
      && r.value.1.diags == log.diags + [Diagnostic(30, 10, "x", {100}, UseSite)]
  {
    IfOrder();
    assert BlockOrder.OrderBlocks(IfFlow()).value == IfOrderSeq();
    IfRun(log);
  }
}
