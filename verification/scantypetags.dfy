/**
 * Opt-in tags on type declarations.
 *
 * A declaration group whose doc comment has a line containing `check:<name>` enables
 * the check `<name>` for every type it declares. The enabled set is exported as a fact
 * on each declared type object and read back by the analyzers that honour it.
 */
module ScanTypeTags {
  import opened Wrappers
  import opened Ast

  /** The set of enabled check names attached to a type. */
  type ChecksFact = set<string>

  /** The facts exported so far, by type object. */
  type Facts = map<Object, ChecksFact>

  const CheckPrefix: string := "check:"

  predicate IsLower(c: char) {
    'a' <= c <= 'z'
  }

  /** The pattern `check:[a-z]+` matches starting at index `i`. */
  predicate MatchAt(line: string, i: nat) {
    i + |CheckPrefix| < |line| && line[i..i + |CheckPrefix|] == CheckPrefix && IsLower(line[i + |CheckPrefix|])
  }

  /** The length of the run of lower-case letters starting at `j`. */
  function LowerRun(s: string, j: nat): (r: nat)
    requires j <= |s|
    ensures j + r <= |s|
    ensures forall k :: j <= k < j + r ==> IsLower(s[k])
    ensures j + r == |s| || !IsLower(s[j + r])
    decreases |s| - j
  {
    if j == |s| || !IsLower(s[j]) then 0 else 1 + LowerRun(s, j + 1)
  }

  /** The name captured by a match at `i`: the longest run of lower-case letters after the prefix. */
  function CaptureAt(line: string, i: nat): string
    requires MatchAt(line, i)
  {
    var j := i + |CheckPrefix|;
    line[j..j + LowerRun(line, j)]
  }

  /** The pattern matches nowhere at or after `i`. */
  predicate NoMatchFrom(line: string, i: nat) {
    forall k :: i <= k < |line| ==> !MatchAt(line, k)
  }

  predicate AllLower(s: string) {
    forall c :: c in s ==> IsLower(c)
  }

  /** `k` is the leftmost match at or after `i`. */
  predicate FirstMatchFrom(line: string, i: nat, k: nat) {
    i <= k < |line| && MatchAt(line, k) && forall k' :: i <= k' < k ==> !MatchAt(line, k')
  }

  /** The leftmost match at or after `i`. */
  function FindFrom(line: string, i: nat): (r: Option<string>)
    requires i <= |line|
    ensures r.None? <==> NoMatchFrom(line, i)
    ensures r.Some? ==> exists k :: FirstMatchFrom(line, i, k) && r.value == CaptureAt(line, k)
    decreases |line| - i
  {
    if i == |line| then None
    else if MatchAt(line, i) then Some(CaptureAt(line, i))
    else FindFrom(line, i + 1)
  }

  /**
   * The first submatch of `check:([a-z]+)` in one line: the name after the leftmost
   * `check:` that is followed by a lower-case letter, taken as long as possible.
   */
  function FindCheck(line: string): (r: Option<string>)
    ensures r.None? <==> NoMatchFrom(line, 0)
    ensures r.Some? ==> |r.value| > 0 && AllLower(r.value)
    ensures r.Some? ==> exists k :: FirstMatchFrom(line, 0, k) && r.value == CaptureAt(line, k)
  {
    FindFrom(line, 0)
  }

  /** Splitting on `\n`, as `strings.Split(text, "\n")`: one more piece than there are separators. */
  function SplitLines(s: string): (r: seq<string>)
    ensures |r| >= 1
    ensures forall i :: 0 <= i < |r| ==> '\n' !in r[i]
  {
    if s == [] then [""]
    else
      var rest := SplitLines(s[1..]);
      if s[0] == '\n' then [""] + rest
      else [[s[0]] + rest[0]] + rest[1..]
  }

  /** The pieces joined back with `\n` between consecutive pieces. */
  function JoinLines(ls: seq<string>): string
    requires |ls| >= 1
  {
    if |ls| == 1 then ls[0] else ls[0] + "\n" + JoinLines(ls[1..])
  }

  /** Some line of `lines` enables check `c`. */
  predicate EnabledBy(lines: seq<string>, c: string) {
    exists i :: 0 <= i < |lines| && FindCheck(lines[i]) == Some(c)
  }

  /** The match of each line, in order. */
  function Matches(lines: seq<string>): (r: seq<Option<string>>)
    ensures |r| == |lines|
    ensures forall i :: 0 <= i < |lines| ==> r[i] == FindCheck(lines[i])
  {
    if lines == [] then [] else [FindCheck(lines[0])] + Matches(lines[1..])
  }

  /** The names that occur in `found`. */
  function Collect(found: seq<Option<string>>): (r: set<string>)
    ensures forall c :: c in r <==> exists i :: 0 <= i < |found| && found[i] == Some(c)
  {
    if found == [] then {}
    else
      var init := found[..|found| - 1];
      assert forall i :: 0 <= i < |init| ==> init[i] == found[i];
      var last := found[|found| - 1];
      Collect(init) + (if last.Some? then {last.value} else {})
  }

  /** The check names found on the lines, one at most per line. */
  function LineChecks(lines: seq<string>): (r: ChecksFact)
    ensures forall c :: c in r <==> EnabledBy(lines, c)
  {
    var found := Matches(lines);
    assert forall c :: (exists i :: 0 <= i < |found| && found[i] == Some(c)) <==> EnabledBy(lines, c);
    Collect(found)
  }

  /** The checks enabled by a doc comment's text. */
  function DocChecks(text: string): ChecksFact {
    LineChecks(SplitLines(text))
  }

  /** A declaration group (`type (...)`, `var ...`, ...) with its doc comment's text, if any. */
  datatype GenDecl = GenDecl(doc: Option<string>, specs: seq<Spec>)

  /** Every type name of the group is defined by the resolver (it is the declaring occurrence). */
  predicate TypeNamesDefined(info: Info, d: GenDecl) {
    forall i :: 0 <= i < |d.specs| && d.specs[i].TSpec? ==> d.specs[i].name.pos in info.defs
  }

  /** The type objects declared by the specs `0 .. n-1`. */
  function DeclaredTypes(info: Info, specs: seq<Spec>, n: nat): (r: set<Object>)
    requires n <= |specs|
    requires forall i :: 0 <= i < |specs| && specs[i].TSpec? ==> specs[i].name.pos in info.defs
    ensures forall o :: o in r <==> exists i :: 0 <= i < n && specs[i].TSpec? && info.defs[specs[i].name.pos] == o
  {
    if n == 0 then {}
    else
      var s := specs[n - 1];
      DeclaredTypes(info, specs, n - 1) + (if s.TSpec? then {info.defs[s.name.pos]} else {})
  }

  /**
   * The facts one declaration group exports: nothing without a doc comment or when the
   * comment enables no check; otherwise the same enabled set on every declared type.
   */
  function ScanDecl(info: Info, d: GenDecl): (r: Facts)
    requires TypeNamesDefined(info, d)
    ensures d.doc.None? ==> r == map[]
    ensures d.doc.Some? && DocChecks(d.doc.value) == {} ==> r == map[]
    ensures d.doc.Some? ==> forall o :: o in r ==> r[o] == DocChecks(d.doc.value)
    ensures d.doc.Some? && DocChecks(d.doc.value) != {} ==>
      forall o :: o in r <==> exists i :: 0 <= i < |d.specs| && d.specs[i].TSpec? && info.defs[d.specs[i].name.pos] == o
  {
    match d.doc
    case None => map[]
    case Some(text) =>
      var checks := DocChecks(text);
      if checks == {} then map[]
      else Export(DeclaredTypes(info, d.specs, |d.specs|), checks)
  }

  /** The same fact exported on every object of `objs`. */
  function Export(objs: set<Object>, checks: ChecksFact): (r: Facts)
    ensures r.Keys == objs
    ensures forall o :: o in r ==> r[o] == checks
  {
    map o | o in objs :: checks
  }

  /** `exps[i]` has an entry for `o` and no later map of `exps` has one. */
  predicate LastIn(exps: seq<Facts>, i: int, o: Object) {
    0 <= i < |exps| && o in exps[i] && forall j :: i < j < |exps| ==> o !in exps[j]
  }

  /**
   * `facts` overlaid with each map of `exps` in turn: an object is present exactly when
   * it was or some map has it, the last map that has it gives its value, and an object
   * no map has keeps its value.
   */
  function Overlay(facts: Facts, exps: seq<Facts>): (r: Facts)
    ensures forall o :: o in r <==> o in facts || exists i :: 0 <= i < |exps| && o in exps[i]
    ensures forall o :: o in facts && (forall i :: 0 <= i < |exps| ==> o !in exps[i]) ==> r[o] == facts[o]
    ensures forall i, o :: LastIn(exps, i, o) ==> r[o] == exps[i][o]
    decreases |exps|
  {
    if exps == [] then facts
    else
      var r := Overlay(facts + exps[0], exps[1..]);
      assert forall i, o :: 0 < i < |exps| && LastIn(exps, i, o) ==> LastIn(exps[1..], i - 1, o);
      assert forall i, o :: 0 <= i < |exps| - 1 && o in exps[1..][i] ==> o in exps[i + 1];
      r
  }

  /** The facts each declaration of the file exports, in order. */
  function Exported(info: Info, decls: seq<GenDecl>): (r: seq<Facts>)
    requires forall i :: 0 <= i < |decls| ==> TypeNamesDefined(info, decls[i])
    ensures |r| == |decls|
    ensures forall i :: 0 <= i < |decls| ==> r[i] == ScanDecl(info, decls[i])
    decreases |decls|
  {
    if decls == [] then [] else [ScanDecl(info, decls[0])] + Exported(info, decls[1..])
  }

  /** Scans a file's declaration groups in order; a later export on the same object replaces the earlier one. */
  function ScanFile(info: Info, decls: seq<GenDecl>, facts: Facts): (r: Facts)
    requires forall i :: 0 <= i < |decls| ==> TypeNamesDefined(info, decls[i])
    ensures facts.Keys <= r.Keys
    ensures forall o :: o in r ==> r[o] != {} || (o in facts && r[o] == facts[o])
    ensures r == Overlay(facts, Exported(info, decls))
    decreases |decls|
  {
    if decls == [] then facts
    else
      assert Exported(info, decls)[1..] == Exported(info, decls[1..]);
      ScanFile(info, decls[1..], facts + ScanDecl(info, decls[0]))
  }

  /** `decls[i]` is the last declaration of the file exporting a fact on `o`. */
  ghost predicate LastExport(info: Info, decls: seq<GenDecl>, i: int, o: Object)
    requires forall k :: 0 <= k < |decls| ==> TypeNamesDefined(info, decls[k])
  {
    0 <= i < |decls| && o in ScanDecl(info, decls[i]) && forall j :: i < j < |decls| ==> o !in ScanDecl(info, decls[j])
  }

  /**
   * A file's scan in terms of its declarations: an object has a fact exactly when it had
   * one or some declaration exports one; the last declaration exporting on an object gives
   * its checks; an object no declaration exports keeps its fact.
   */
  lemma ScanFileExports(info: Info, decls: seq<GenDecl>, facts: Facts)
    requires forall i :: 0 <= i < |decls| ==> TypeNamesDefined(info, decls[i])
    ensures forall i, o :: 0 <= i < |decls| && o in ScanDecl(info, decls[i]) ==> o in ScanFile(info, decls, facts)
    ensures forall o :: o in ScanFile(info, decls, facts) ==>
      o in facts || exists i :: 0 <= i < |decls| && o in ScanDecl(info, decls[i])
    ensures forall o :: o in facts && (forall i :: 0 <= i < |decls| ==> o !in ScanDecl(info, decls[i])) ==>
      ScanFile(info, decls, facts)[o] == facts[o]
    ensures forall i, o :: LastExport(info, decls, i, o) ==> ScanFile(info, decls, facts)[o] == ScanDecl(info, decls[i])[o]
  {
    var exps := Exported(info, decls);
    var r := ScanFile(info, decls, facts);
    forall i, o | 0 <= i < |decls| && o in ScanDecl(info, decls[i])
      ensures o in r
    {
      assert o in exps[i];
    }
    forall o | o in r && o !in facts
      ensures exists i :: 0 <= i < |decls| && o in ScanDecl(info, decls[i])
    {
      var i :| 0 <= i < |exps| && o in exps[i];
      assert o in ScanDecl(info, decls[i]);
    }
    forall o | o in facts && (forall i :: 0 <= i < |decls| ==> o !in ScanDecl(info, decls[i]))
      ensures r[o] == facts[o]
    {
      assert forall i :: 0 <= i < |exps| ==> o !in exps[i];
    }
    forall i, o | LastExport(info, decls, i, o)
      ensures r[o] == ScanDecl(info, decls[i])[o]
    {
      assert LastIn(exps, i, o);
    }
  }

  /** The checks enabled on a type object; none when it carries no fact. */
  function GetTypeTags(facts: Facts, o: Object): (r: ChecksFact)
    ensures o in facts ==> r == facts[o]
    ensures o !in facts ==> r == {}
  {
    if o in facts then facts[o] else {}
  }

  /** Splitting and then joining gives the text back. */
  lemma {:induction false} JoinSplitLines(s: string)
    ensures JoinLines(SplitLines(s)) == s
    decreases |s|
  {
    if s != [] {
      var rest := SplitLines(s[1..]);
      JoinSplitLines(s[1..]);
      if s[0] == '\n' {
        assert ([""] + rest)[1..] == rest;
      } else {
        var r := [[s[0]] + rest[0]] + rest[1..];
        if |rest| == 1 {
          assert JoinLines(r) == [s[0]] + rest[0];
        } else {
          assert r[1..] == rest[1..];
          assert JoinLines(r) == [s[0]] + rest[0] + "\n" + JoinLines(rest[1..]);
        }
        assert s == [s[0]] + s[1..];
      }
    }
  }

  /** Joining newline-free pieces and splitting again gives the pieces back. */
  lemma {:induction false} SplitJoinLines(ls: seq<string>)
    requires |ls| >= 1
    requires forall i :: 0 <= i < |ls| ==> '\n' !in ls[i]
    ensures SplitLines(JoinLines(ls)) == ls
    decreases |JoinLines(ls)|
  {
    var j := JoinLines(ls);
    if ls[0] == [] {
      if |ls| > 1 {
        assert j == "\n" + JoinLines(ls[1..]);
        assert j[1..] == JoinLines(ls[1..]);
        SplitJoinLines(ls[1..]);
        assert ls == [""] + ls[1..];
      }
    } else {
      var c := ls[0][0];
      assert c != '\n' by { assert c in ls[0]; }
      var ls' := [ls[0][1..]] + ls[1..];
      assert forall i :: 1 <= i < |ls'| ==> ls'[i] == ls[i];
      assert forall i :: 0 <= i < |ls'| ==> '\n' !in ls'[i];
      if |ls| == 1 {
        assert JoinLines(ls') == ls[0][1..];
      } else {
        assert ls'[1..] == ls[1..];
        assert JoinLines(ls') == ls[0][1..] + "\n" + JoinLines(ls[1..]);
      }
      assert j == [c] + JoinLines(ls');
      assert j[1..] == JoinLines(ls');
      SplitJoinLines(ls');
      assert ls[0] == [c] + ls'[0];
      assert ls'[1..] == ls[1..];
      assert ls == [[c] + ls'[0]] + ls'[1..];
    }
  }

  /** A run of lower-case letters to the end of the text is as long as what is left. */
  lemma {:induction false} LowerRunToEnd(s: string, j: nat)
    requires j <= |s|
    requires forall k :: j <= k < |s| ==> IsLower(s[k])
    ensures LowerRun(s, j) == |s| - j
    decreases |s| - j
  {
    if j < |s| {
      LowerRunToEnd(s, j + 1);
    }
  }

  /** A line that is exactly `check:` followed by a lower-case name enables that name. */
  lemma TagLine(name: string)
    requires |name| > 0 && forall c :: c in name ==> IsLower(c)
    ensures FindCheck(CheckPrefix + name) == Some(name)
  {
    var line := CheckPrefix + name;
    assert line[0..|CheckPrefix|] == CheckPrefix;
    assert line[|CheckPrefix|] == name[0];
    assert MatchAt(line, 0);
    assert FindCheck(line) == Some(CaptureAt(line, 0));
    forall k | |CheckPrefix| <= k < |line|
      ensures IsLower(line[k])
    {
      assert line[k] == name[k - |CheckPrefix|];
    }
    LowerRunToEnd(line, |CheckPrefix|);
    assert CaptureAt(line, 0) == line[|CheckPrefix|..|line|] == name;
  }

  /** A doc comment of a single line enables what that line names, and nothing else. */
  lemma OneLineDoc(text: string)
    requires '\n' !in text
    ensures DocChecks(text) == if FindCheck(text).Some? then {FindCheck(text).value} else {}
  {
    SplitJoinLines([text]);
    assert SplitLines(text) == [text];
  }
}
