/**
 * The dataflow fact of the uninitialised-variable analysis.
 *
 * A `Scope` belongs to one program point (a control-flow block). For every tracked
 * variable it holds a `Decl`: whether some path reaching the point has assigned the
 * variable (`changed`), and the branches on which it may still be unassigned (its
 * blame, `uninit`). An empty blame means the variable is assigned on every path.
 */
module Scopes {
  import opened Wrappers
  import opened Ast

  /** A variable is identified by the position of its declaration. */
  type VarId = Pos

  /** A branch is identified by the position of the statement its block belongs to. */
  type BranchId = Pos

  datatype DeclBranch = DeclBranch(comment: string)

  datatype Decl = Decl(name: string, changed: bool, uninit: map<BranchId, DeclBranch>)

  datatype Scope = Scope(location: BranchId, comment: string, uninit: map<VarId, Decl>)

  /** The variable a use refers to; an unresolved identifier gives the null position 0. */
  function DeclIdForUse(info: Info, ident: Ident): VarId {
    if ident.pos in info.uses then info.uses[ident.pos].pos else 0
  }

  /**
   * A bare declaration: the declared variable becomes tracked, unassigned, and blamed on
   * exactly the current branch. An identifier the resolver does not define is ignored.
   */
  function NewDecl(info: Info, s: Scope, ident: Ident): (r: Scope)
    ensures r.location == s.location && r.comment == s.comment
    ensures ident.pos !in info.defs ==> r == s
    ensures ident.pos in info.defs ==>
      var id := info.defs[ident.pos].pos;
      && id in r.uninit
      && r.uninit[id].name == ident.name
      && !r.uninit[id].changed
      && r.uninit[id].uninit == map[s.location := DeclBranch(s.comment)]
      && r.uninit.Keys == s.uninit.Keys + {id}
      && (forall v :: v in s.uninit && v != id ==> r.uninit[v] == s.uninit[v])
  {
    if ident.pos !in info.defs then s
    else
      var id := info.defs[ident.pos].pos;
      s.(uninit := s.uninit[id := Decl(ident.name, false, map[s.location := DeclBranch(s.comment)])])
  }

  /**
   * An assignment: a tracked variable becomes assigned with an empty blame; an
   * untracked variable or an unresolved identifier changes nothing.
   */
  function MarkInitialized(info: Info, s: Scope, ident: Ident): (r: Scope)
    ensures r.location == s.location && r.comment == s.comment
    ensures r.uninit.Keys == s.uninit.Keys
    ensures ident.pos !in info.uses || info.uses[ident.pos].pos !in s.uninit ==> r == s
    ensures ident.pos in info.uses && info.uses[ident.pos].pos in s.uninit ==>
      var id := info.uses[ident.pos].pos;
      && r.uninit[id].changed
      && r.uninit[id].uninit == map[]
      && r.uninit[id].name == s.uninit[id].name
      && (forall v :: v in s.uninit && v != id ==> r.uninit[v] == s.uninit[v])
  {
    if ident.pos !in info.uses then s
    else
      var id := info.uses[ident.pos].pos;
      if id in s.uninit then
        s.(uninit := s.uninit[id := s.uninit[id].(changed := true, uninit := map[])])
      else s
  }

  /** Some input tracks `v`. */
  ghost predicate Tracks(inputs: seq<Scope>, v: VarId) {
    exists s :: s in inputs && v in s.uninit
  }

  /** Some input has assigned `v`. */
  ghost predicate AssignedBy(inputs: seq<Scope>, v: VarId) {
    exists s :: s in inputs && v in s.uninit && s.uninit[v].changed
  }

  /**
   * What one input adds to the blame of `v` once the merged `changed` is known: its own
   * branch when the others assigned `v` and it did not, otherwise its own blame.
   */
  function Contribution(s: Scope, v: VarId, changed: bool): map<BranchId, DeclBranch>
    requires v in s.uninit
  {
    if changed && !s.uninit[v].changed then map[s.location := DeclBranch(s.comment)]
    else s.uninit[v].uninit
  }

  /** Some input contributes branch `b` to the blame of `v`. */
  ghost predicate Blamed(inputs: seq<Scope>, v: VarId, changed: bool, b: BranchId) {
    exists s :: s in inputs && v in s.uninit && b in Contribution(s, v, changed)
  }

  /** The variables tracked by at least one input. */
  function TrackedIn(inputs: seq<Scope>): (r: set<VarId>)
    ensures forall v :: v in r <==> Tracks(inputs, v)
  {
    if inputs == [] then {}
    else
      var init := inputs[..|inputs| - 1];
      assert forall s :: s in inputs <==> s in init || s == inputs[|inputs| - 1];
      TrackedIn(init) + inputs[|inputs| - 1].uninit.Keys
  }

  /** First pass: whether some input has assigned `v`. */
  function ChangedIn(inputs: seq<Scope>, v: VarId): (r: bool)
    ensures r <==> AssignedBy(inputs, v)
  {
    if inputs == [] then false
    else
      var init := inputs[..|inputs| - 1];
      assert forall s :: s in inputs <==> s in init || s == inputs[|inputs| - 1];
      var last := inputs[|inputs| - 1];
      ChangedIn(init, v) || (v in last.uninit && last.uninit[v].changed)
  }

  /** Second pass: the inputs' contributions folded in order, a later entry overwriting an earlier one. */
  function Blame(inputs: seq<Scope>, v: VarId, changed: bool): (r: map<BranchId, DeclBranch>)
    ensures forall b :: b in r <==> Blamed(inputs, v, changed, b)
    ensures forall b :: b in r ==>
      exists s :: s in inputs && v in s.uninit && b in Contribution(s, v, changed) && r[b] == Contribution(s, v, changed)[b]
  {
    if inputs == [] then map[]
    else
      var init := inputs[..|inputs| - 1];
      assert forall s :: s in inputs <==> s in init || s == inputs[|inputs| - 1];
      var last := inputs[|inputs| - 1];
      Blame(init, v, changed) + (if v in last.uninit then Contribution(last, v, changed) else map[])
  }

  /** The name recorded by the first input that tracks `v`. */
  function FirstName(inputs: seq<Scope>, v: VarId): (r: string)
    requires Tracks(inputs, v)
    ensures exists s :: s in inputs && v in s.uninit && s.uninit[v].name == r
  {
    if v in inputs[0].uninit then inputs[0].uninit[v].name
    else
      assert forall s :: s in inputs ==> s == inputs[0] || s in inputs[1..];
      FirstName(inputs[1..], v)
  }

  /** The merged record of one variable. */
  function MergedDecl(inputs: seq<Scope>, v: VarId): Decl
    requires Tracks(inputs, v)
  {
    var changed := ChangedIn(inputs, v);
    Decl(FirstName(inputs, v), changed, Blame(inputs, v, changed))
  }

  /**
   * The join of the scopes of a block's predecessors. The result belongs to `block`, or
   * to no block (position 0, empty label) when merging a function's exits.
   */
  function MergeScopes(block: Option<Block>, inputs: seq<Scope>): (r: Scope)
    ensures forall v :: v in r.uninit <==> Tracks(inputs, v)
    ensures forall v :: v in r.uninit ==> (r.uninit[v].changed <==> AssignedBy(inputs, v))
    ensures forall v, b :: v in r.uninit ==>
      (b in r.uninit[v].uninit <==> Blamed(inputs, v, r.uninit[v].changed, b))
    ensures inputs == [] ==> r.uninit == map[]
    ensures block.None? ==> r.location == 0 && r.comment == ""
    ensures block.Some? ==> r.location == block.value.pos && r.comment == block.value.comment
  {
    var tracked := TrackedIn(inputs);
    var merged := map v | v in tracked :: MergedDecl(inputs, v);
    match block
    case None => Scope(0, "", merged)
    case Some(b) => Scope(b.pos, b.comment, merged)
  }

  /**
   * The three cases of the blame rule, for one input `s` tracking `v`: when some path
   * assigned `v`, an assigning input passes on its remaining blame and a non-assigning
   * input is blamed itself; when no path assigned `v`, every input passes on its blame.
   */
  lemma MergeBlameCases(block: Option<Block>, inputs: seq<Scope>, s: Scope, v: VarId)
    requires s in inputs && v in s.uninit
    ensures var m := MergeScopes(block, inputs).uninit[v];
      && (m.changed && s.uninit[v].changed ==> s.uninit[v].uninit.Keys <= m.uninit.Keys)
      && (m.changed && !s.uninit[v].changed ==> s.location in m.uninit)
      && (!m.changed ==> s.uninit[v].uninit.Keys <= m.uninit.Keys)
  {
    assert Tracks(inputs, v);
    var m := MergeScopes(block, inputs).uninit[v];
    var c := Contribution(s, v, m.changed);
    if m.changed && !s.uninit[v].changed {
      assert s.location in c;
      assert Blamed(inputs, v, m.changed, s.location);
    } else {
      assert c == s.uninit[v].uninit;
      forall b | b in s.uninit[v].uninit
        ensures b in m.uninit
      {
        assert Blamed(inputs, v, m.changed, b);
      }
    }
  }

  /** The record the join builds for a variable some input tracks. */
  lemma MergeAt(block: Option<Block>, inputs: seq<Scope>, v: VarId)
    requires Tracks(inputs, v)
    ensures v in MergeScopes(block, inputs).uninit
    ensures MergeScopes(block, inputs).uninit[v] == MergedDecl(inputs, v)
  {
  }

  /** With `v` assigned somewhere, the blame is empty exactly when every tracking input is clear. */
  lemma BlameClearsIff(inputs: seq<Scope>, v: VarId)
    ensures Blame(inputs, v, true) == map[] <==>
      forall s :: s in inputs && v in s.uninit ==> s.uninit[v].changed && s.uninit[v].uninit == map[]
  {
    var m := Blame(inputs, v, true);
    forall s | s in inputs && v in s.uninit
      ensures m == map[] ==> s.uninit[v].changed && s.uninit[v].uninit == map[]
    {
      if !s.uninit[v].changed {
        assert s.location in Contribution(s, v, true);
        assert Blamed(inputs, v, true, s.location);
      } else if s.uninit[v].uninit != map[] {
        var b :| b in s.uninit[v].uninit;
        assert b in Contribution(s, v, true);
        assert Blamed(inputs, v, true, b);
      }
    }
    if m != map[] {
      var b :| b in m;
      var s :| s in inputs && v in s.uninit && b in Contribution(s, v, true);
      assert !(s.uninit[v].changed && s.uninit[v].uninit == map[]);
    }
  }

  /** With `v` assigned nowhere, every input passes its blame on unchanged. */
  lemma BlameUnion(inputs: seq<Scope>, v: VarId)
    requires !AssignedBy(inputs, v)
    ensures forall b :: b in Blame(inputs, v, false) <==>
      exists s :: s in inputs && v in s.uninit && b in s.uninit[v].uninit
  {
    assert forall s :: s in inputs && v in s.uninit ==> Contribution(s, v, false) == s.uninit[v].uninit;
  }

  /**
   * A variable assigned on every incoming path that tracks it (with nothing left to
   * blame there) is assigned with an empty blame after the join; and only then.
   */
  lemma MergeClearsBlameIff(block: Option<Block>, inputs: seq<Scope>, v: VarId)
    requires AssignedBy(inputs, v)
    ensures v in MergeScopes(block, inputs).uninit
    ensures MergeScopes(block, inputs).uninit[v].changed
    ensures MergeScopes(block, inputs).uninit[v].uninit == map[] <==>
      forall s :: s in inputs && v in s.uninit ==> s.uninit[v].changed && s.uninit[v].uninit == map[]
  {
    MergeAt(block, inputs, v);
    BlameClearsIff(inputs, v);
  }

  /** A variable nobody has assigned keeps the union of the inputs' blame (the declaration site). */
  lemma MergeKeepsProvenance(block: Option<Block>, inputs: seq<Scope>, v: VarId)
    requires exists s :: s in inputs && v in s.uninit
    requires forall s :: s in inputs && v in s.uninit ==> !s.uninit[v].changed
    ensures v in MergeScopes(block, inputs).uninit
    ensures !MergeScopes(block, inputs).uninit[v].changed
    ensures forall b :: b in MergeScopes(block, inputs).uninit[v].uninit <==>
      exists s :: s in inputs && v in s.uninit && b in s.uninit[v].uninit
  {
    assert !AssignedBy(inputs, v);
    MergeAt(block, inputs, v);
    BlameUnion(inputs, v);
  }

  /** A block with a single predecessor inherits that predecessor's variables unchanged. */
  lemma MergeSingleton(block: Option<Block>, s: Scope)
    ensures MergeScopes(block, [s]).uninit == s.uninit
  {
    var r := MergeScopes(block, [s]);
    forall v | v in s.uninit
      ensures v in r.uninit && r.uninit[v] == s.uninit[v]
    {
      assert s in [s];
      MergeAt(block, [s], v);
      SingleDecl(s, v);
    }
  }

  /** Joining one scope rebuilds each of its records. */
  lemma SingleDecl(s: Scope, v: VarId)
    requires v in s.uninit
    ensures Tracks([s], v)
    ensures MergedDecl([s], v) == s.uninit[v]
  {
    assert s in [s];
    assert [s][..0] == [];
    assert ChangedIn([s], v) == s.uninit[v].changed;
    assert Blame([s], v, s.uninit[v].changed) == Contribution(s, v, s.uninit[v].changed);
  }

  /**
   * The join does not depend on the order of the predecessors: the tracked variables,
   * their `changed` flags and the blamed branches are the same.
   */
  lemma MergeOrderIndependent(block: Option<Block>, a: seq<Scope>, b: seq<Scope>)
    requires multiset(a) == multiset(b)
    ensures MergeScopes(block, a).uninit.Keys == MergeScopes(block, b).uninit.Keys
    ensures forall v :: v in MergeScopes(block, a).uninit ==>
      && MergeScopes(block, a).uninit[v].changed == MergeScopes(block, b).uninit[v].changed
      && MergeScopes(block, a).uninit[v].uninit.Keys == MergeScopes(block, b).uninit[v].uninit.Keys
  {
    forall s
      ensures s in a <==> s in b
    {
      assert s in a <==> s in multiset(a);
      assert s in b <==> s in multiset(b);
    }
    forall v | v in MergeScopes(block, a).uninit
      ensures v in MergeScopes(block, b).uninit
      ensures MergeScopes(block, a).uninit[v].changed == MergeScopes(block, b).uninit[v].changed
      ensures MergeScopes(block, a).uninit[v].uninit.Keys == MergeScopes(block, b).uninit[v].uninit.Keys
    {
      MergeSameMembers(block, a, b, v);
    }
    forall v | v in MergeScopes(block, b).uninit
      ensures v in MergeScopes(block, a).uninit
    {
      MergeSameMembers(block, b, a, v);
    }
  }

  /** Two input lists with the same members join one tracked variable alike. */
  lemma MergeSameMembers(block: Option<Block>, a: seq<Scope>, b: seq<Scope>, v: VarId)
    requires forall s :: s in a <==> s in b
    requires Tracks(a, v)
    ensures v in MergeScopes(block, a).uninit && v in MergeScopes(block, b).uninit
    ensures MergeScopes(block, a).uninit[v].changed == MergeScopes(block, b).uninit[v].changed
    ensures MergeScopes(block, a).uninit[v].uninit.Keys == MergeScopes(block, b).uninit[v].uninit.Keys
  {
    var ra := MergeScopes(block, a).uninit;
    var rb := MergeScopes(block, b).uninit;
    assert Tracks(b, v);
    assert AssignedBy(a, v) == AssignedBy(b, v);
    forall x | x in ra[v].uninit
      ensures x in rb[v].uninit
    {
      assert Blamed(b, v, rb[v].changed, x);
    }
    forall x | x in rb[v].uninit
      ensures x in ra[v].uninit
    {
      assert Blamed(a, v, ra[v].changed, x);
    }
  }

}
