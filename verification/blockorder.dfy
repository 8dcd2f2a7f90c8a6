/**
 * Dependency ordering of a function's control-flow blocks.
 *
 * Unreachable blocks are dropped, the edges from a for-loop head into its body are cut
 * (so that a loop reads like an `if`), self edges and edges into dead blocks are
 * ignored, and the remaining edges become dependencies: a block must come after every
 * live predecessor. The ordering repeats passes over the still-unordered blocks; a
 * pass places every block whose dependencies are all placed, and a pass that places
 * nothing is the engine's fatal "cycle" fault.
 */
module BlockOrder {
  import opened Wrappers
  import opened Ast

  predicate Live(flow: seq<Block>, i: nat) {
    i < |flow| && flow[i].live
  }

  /** True when the edge `b -> s` is one of the cut loop edges (for-loop head into body). */
  predicate LoopEdge(flow: seq<Block>, b: nat, s: nat)
    requires b < |flow|
  {
    flow[b].kind == KindForLoop && s < |flow| && flow[s].kind == KindForBody
  }

  function CutLoopEdges(flow: seq<Block>, b: nat, succs: seq<nat>): (r: seq<nat>)
    requires b < |flow|
    ensures forall s :: s in r <==> s in succs && !LoopEdge(flow, b, s)
    ensures |r| <= |succs|
  {
    if succs == [] then []
    else (if LoopEdge(flow, b, succs[0]) then [] else [succs[0]]) + CutLoopEdges(flow, b, succs[1..])
  }

  /** The successors of block `b` once the loop edges are cut. */
  function Succs(flow: seq<Block>, b: nat): (r: seq<nat>)
    requires b < |flow|
    ensures forall s :: s in r <==> s in flow[b].succs && !LoopEdge(flow, b, s)
    ensures flow[b].kind != KindForLoop ==> r == flow[b].succs
  {
    if flow[b].kind == KindForLoop then CutLoopEdges(flow, b, flow[b].succs) else flow[b].succs
  }

  /** `d` is recorded as a dependency of `s`. */
  predicate Edge(flow: seq<Block>, d: nat, s: nat) {
    Live(flow, d) && Live(flow, s) && d != s && s in Succs(flow, d)
  }

  /** One copy of `b` per occurrence of `s` among `succs`. */
  function Occurrences(b: nat, succs: seq<nat>, s: nat): (r: seq<nat>)
    ensures forall d :: d in r <==> d == b && s in succs
  {
    if succs == [] then []
    else (if succs[0] == s then [b] else []) + Occurrences(b, succs[1..], s)
  }

  /** The dependencies of `s` contributed by the blocks `0 .. n-1`, in block order. */
  function DepsUpTo(flow: seq<Block>, s: nat, n: nat): (r: seq<nat>)
    requires n <= |flow|
    ensures forall d: nat :: d in r <==> d < n && Edge(flow, d, s)
  {
    if n == 0 then []
    else
      var b := n - 1;
      DepsUpTo(flow, s, b)
        + (if Live(flow, b) && Live(flow, s) && b != s then Occurrences(b, Succs(flow, b), s) else [])
  }

  /** The live predecessors of `s` that it has to wait for. */
  function Deps(flow: seq<Block>, s: nat): (r: seq<nat>)
    ensures forall d :: d in r <==> Edge(flow, d, s)
  {
    DepsUpTo(flow, s, |flow|)
  }

  /** Block `b` may be placed: none of its dependencies is still pending. */
  predicate Ready(flow: seq<Block>, b: nat, pending: seq<nat>) {
    forall d | d in Deps(flow, b) :: d !in pending
  }

  predicate NoDup(s: seq<nat>) {
    forall i, j :: 0 <= i < j < |s| ==> s[i] != s[j]
  }

  /** Every block of `o` comes after each of its dependencies. */
  ghost predicate DepsBefore(flow: seq<Block>, o: seq<nat>) {
    forall j, d {:trigger Edge(flow, d, o[j])} :: 0 <= j < |o| && Edge(flow, d, o[j]) ==> d in o[..j]
  }

  /** `o` lists every live block exactly once, each after its dependencies. */
  ghost predicate IsOrder(flow: seq<Block>, o: seq<nat>) {
    && NoDup(o)
    && (forall x :: x in o <==> Live(flow, x))
    && DepsBefore(flow, o)
  }

  /** Block `x` depends on some member of `s`. */
  ghost predicate Blocked(flow: seq<Block>, s: set<nat>, x: nat) {
    exists d :: d in s && Edge(flow, d, x)
  }

  /** A non-empty set of live blocks each of which depends on a member of the set. */
  ghost predicate Stuck(flow: seq<Block>, s: set<nat>) {
    && s != {}
    && (forall x :: x in s ==> Live(flow, x))
    && (forall x {:trigger Blocked(flow, s, x)} :: x in s ==> Blocked(flow, s, x))
  }

  /** The pending and ordered blocks split the live blocks between them. */
  ghost predicate Partition(flow: seq<Block>, pending: seq<nat>, ordered: seq<nat>) {
    && NoDup(pending)
    && NoDup(ordered)
    && (forall x :: x in pending ==> x !in ordered)
    && (forall x :: Live(flow, x) <==> x in pending || x in ordered)
  }

  /** `p` without the element `k`. */
  function Without(p: seq<nat>, k: nat): (r: seq<nat>)
    requires NoDup(p)
    ensures forall x :: x in r <==> x in p && x != k
    ensures NoDup(r)
    ensures |r| == if k in p then |p| - 1 else |p|
  {
    if p == [] then []
    else
      var rest := Without(p[1..], k);
      if p[0] == k then
        assert p[0] !in p[1..];
        rest
      else
        assert p[0] !in rest;
        [p[0]] + rest
  }

  /**
   * One pass over the snapshot `keys` of the pending blocks: each key whose
   * dependencies are all placed is appended to `ordered` and leaves `pending`.
   */
  function Pass(flow: seq<Block>, keys: seq<nat>, pending: seq<nat>, ordered: seq<nat>): (r: (seq<nat>, seq<nat>))
    requires NoDup(keys)
    requires forall k :: k in keys ==> k in pending
    requires Partition(flow, pending, ordered)
    requires DepsBefore(flow, ordered)
    ensures Partition(flow, r.0, r.1)
    ensures DepsBefore(flow, r.1)
    ensures ordered <= r.1
    ensures |r.0| <= |pending|
    ensures |r.0| == |pending| ==> r.0 == pending
    ensures |r.0| == |pending| ==> forall k {:trigger Ready(flow, k, pending)} :: k in keys ==> !Ready(flow, k, pending)
    decreases |keys|
  {
    if keys == [] then (pending, ordered)
    else
      var k := keys[0];
      assert forall i :: 0 <= i < |keys| - 1 ==> keys[1..][i] == keys[i + 1];
      if Ready(flow, k, pending) then
        var o := ordered + [k];
        assert forall j :: 0 <= j < |ordered| ==> o[..j] == ordered[..j];
        assert o[..|ordered|] == ordered;
        Pass(flow, keys[1..], Without(pending, k), o)
      else
        Pass(flow, keys[1..], pending, ordered)
  }

  /** Repeats passes until nothing is pending, or fails with the blocks a pass could not place. */
  function OrderLoop(flow: seq<Block>, pending: seq<nat>, ordered: seq<nat>): (r: Result<seq<nat>, set<nat>>)
    requires Partition(flow, pending, ordered)
    requires DepsBefore(flow, ordered)
    ensures r.Success? ==> IsOrder(flow, r.value)
    ensures r.Failure? ==> Stuck(flow, r.error)
    decreases |pending|
  {
    if pending == [] then Success(ordered)
    else
      var (p, o) := Pass(flow, pending, pending, ordered);
      if |p| == |pending| then
        NoProgressIsStuck(flow, pending);
        Failure(set x | x in pending)
      else OrderLoop(flow, p, o)
  }

  /** When no pending block is ready, the pending blocks form a stuck set. */
  lemma NoProgressIsStuck(flow: seq<Block>, pending: seq<nat>)
    requires pending != []
    requires forall x :: x in pending ==> Live(flow, x)
    requires forall k {:trigger Ready(flow, k, pending)} :: k in pending ==> !Ready(flow, k, pending)
    ensures Stuck(flow, set x | x in pending)
  {
    var s := set x | x in pending;
    assert pending[0] in s;
    forall x | x in s
      ensures Blocked(flow, s, x)
    {
      assert !Ready(flow, x, pending);
      var d :| d in Deps(flow, x) && d in pending;
      assert d in s && Edge(flow, d, x);
    }
  }

  /** The live blocks among `0 .. n-1`, in index order. */
  function LiveBlocks(flow: seq<Block>, n: nat): (r: seq<nat>)
    requires n <= |flow|
    ensures forall x: nat :: x in r <==> x < n && Live(flow, x)
    ensures NoDup(r)
  {
    if n == 0 then []
    else
      var init := LiveBlocks(flow, n - 1);
      assert n - 1 !in init;
      init + (if flow[n - 1].live then [n - 1] else [])
  }

  /**
   * The block order of a function: every live block once, each after its live
   * predecessors; or, when no pass can make progress, the stuck blocks.
   */
  function OrderBlocks(flow: seq<Block>): (r: Result<seq<nat>, set<nat>>)
    ensures r.Success? ==> IsOrder(flow, r.value)
    ensures r.Failure? ==> Stuck(flow, r.error)
  {
    OrderLoop(flow, LiveBlocks(flow, |flow|), [])
  }

  /** No block of a stuck set can appear in a dependency-respecting order. */
  lemma {:induction false} StuckBlocksNeverPlaced(flow: seq<Block>, s: set<nat>, o: seq<nat>, j: nat)
    requires DepsBefore(flow, o)
    requires forall x {:trigger Blocked(flow, s, x)} :: x in s ==> Blocked(flow, s, x)
    requires j < |o|
    ensures o[j] !in s
    decreases j
  {
    if o[j] in s {
      assert Blocked(flow, s, o[j]);
      var d :| d in s && Edge(flow, d, o[j]);
      assert d in o[..j];
      var k :| 0 <= k < j && o[..j][k] == d;
      StuckBlocksNeverPlaced(flow, s, o, k);
      assert false;
    }
  }

  /** A stuck set rules out every dependency-respecting order. */
  lemma StuckMeansNoOrder(flow: seq<Block>, s: set<nat>, o: seq<nat>)
    ensures Stuck(flow, s) ==> !IsOrder(flow, o)
  {
    if Stuck(flow, s) && IsOrder(flow, o) {
      var x :| x in s;
      assert Live(flow, x);
      assert x in o;
      var j :| 0 <= j < |o| && o[j] == x;
      StuckBlocksNeverPlaced(flow, s, o, j);
      assert false;
    }
  }

  /** The ordering fails exactly when the live blocks admit no dependency-respecting order. */
  lemma OrderFailsOnlyWithoutOrder(flow: seq<Block>, o: seq<nat>)
    ensures OrderBlocks(flow).Failure? ==> !IsOrder(flow, o)
  {
    if OrderBlocks(flow).Failure? {
      StuckMeansNoOrder(flow, OrderBlocks(flow).error, o);
    }
  }
}
