/**
 * The `allfields` check: a composite literal of a struct type tagged `check:allfields`
 * must name every field that is not tagged `optional:"1"`.
 *
 * Type information is an input: a literal comes with its type (when the type checker
 * has one), a named type with its object and underlying type, and a struct field with
 * the value of its `optional` tag key.
 */
module AllFields {
  import opened Wrappers
  import opened Ast
  import opened ScanTypeTags

  const AllfieldsCheck: string := "allfields"

  /** A struct field: its name and the value of the `optional` key of its tag ("" when absent). */
  datatype StructField = StructField(name: string, optional: string)

  datatype Underlying = StructType(fields: seq<StructField>) | NonStruct

  datatype LitType = Unnamed | Named(obj: Object, underlying: Underlying)

  /** The outcome for one literal. */
  datatype Verdict = NoReport | NotAStruct | MissingFields(names: set<string>)

  /** The fields a literal has to name. */
  function Required(fields: seq<StructField>): (r: set<string>)
    ensures forall n :: n in r <==> exists i :: 0 <= i < |fields| && fields[i].name == n && fields[i].optional != "1"
  {
    if fields == [] then {}
    else
      var init := fields[..|fields| - 1];
      assert forall i :: 0 <= i < |init| ==> init[i] == fields[i];
      var f := fields[|fields| - 1];
      Required(init) + (if f.optional != "1" then {f.name} else {})
  }

  /** Element `e` is `n: value` with an identifier key spelled `n`. */
  predicate NamesKey(e: Expr, n: string) {
    e.KeyValue? && e.key.Name? && e.key.id.name == n
  }

  /** Some key-value element has the identifier key `n`. */
  predicate KeyedIn(elts: seq<Expr>, n: string) {
    exists i :: 0 <= i < |elts| && NamesKey(elts[i], n)
  }

  /** The required names no key-value element names. */
  function Remaining(required: set<string>, elts: seq<Expr>): (r: set<string>)
    ensures forall n :: n in r <==> n in required && !KeyedIn(elts, n)
  {
    if elts == [] then required
    else
      var rest := Remaining(required, elts[1..]);
      var e := elts[0];
      assert forall n :: KeyedIn(elts, n) <==> NamesKey(e, n) || KeyedIn(elts[1..], n) by {
        forall n, i | 0 <= i < |elts| && NamesKey(elts[i], n) && i > 0
          ensures KeyedIn(elts[1..], n)
        {
          assert elts[1..][i - 1] == elts[i];
        }
      }
      if e.KeyValue? && e.key.Name? then rest - {e.key.id.name} else rest
  }

  /** Some element is not of the key-value form (a positional literal). */
  predicate HasPositional(elts: seq<Expr>) {
    exists i :: 0 <= i < |elts| && !elts[i].KeyValue?
  }

  /** The literal's type is named and tagged `allfields`. */
  predicate Tagged(facts: Facts, t: Option<LitType>) {
    t.Some? && t.value.Named? && AllfieldsCheck in GetTypeTags(facts, t.value.obj)
  }

  /**
   * The decision for one composite literal. Literals without a type, of an unnamed type,
   * or of a named type without the tag are skipped; a tagged type that is not a struct is
   * an error of its own; otherwise the required fields no key names are reported, unless
   * some element is positional.
   */
  function CheckLiteral(facts: Facts, t: Option<LitType>, elts: seq<Expr>): (r: Verdict)
    ensures r.NotAStruct? <==> Tagged(facts, t) && t.value.underlying.NonStruct?
    ensures r.MissingFields? <==>
      && Tagged(facts, t) && t.value.underlying.StructType?
      && !HasPositional(elts)
      && exists n :: n in Required(t.value.underlying.fields) && !KeyedIn(elts, n)
    ensures r.MissingFields? ==> forall n :: n in r.names <==>
      n in Required(t.value.underlying.fields) && !KeyedIn(elts, n)
  {
    match t
    case None => NoReport
    case Some(Unnamed) => NoReport
    case Some(Named(obj, underlying)) =>
      var checks := GetTypeTags(facts, obj);
      if |checks| == 0 then NoReport
      else if AllfieldsCheck !in checks then NoReport
      else
        match underlying
        case NonStruct => NotAStruct
        case StructType(fields) =>
          var remaining := Remaining(Required(fields), elts);
          var nonKv := exists i :: 0 <= i < |elts| && !elts[i].KeyValue?;
          assert |remaining| > 0 <==> exists n :: n in remaining by {
            if |remaining| > 0 {
              var n :| n in remaining;
            }
          }
          if !nonKv && |remaining| > 0 then MissingFields(remaining) else NoReport
  }

  /** A literal that names every required field by key is never reported as incomplete. */
  lemma NamingEveryRequiredFieldSuffices(facts: Facts, t: Option<LitType>, elts: seq<Expr>)
    requires t.Some? && t.value.Named? && t.value.underlying.StructType?
    requires forall n :: n in Required(t.value.underlying.fields) ==> KeyedIn(elts, n)
    ensures !CheckLiteral(facts, t, elts).MissingFields?
  {
  }

  /** One positional element silences the missing-field report, whatever the keys name. */
  lemma PositionalElementSuppresses(facts: Facts, t: Option<LitType>, elts: seq<Expr>, e: Expr)
    requires !e.KeyValue?
    ensures !CheckLiteral(facts, t, elts + [e]).MissingFields?
  {
    assert (elts + [e])[|elts|] == e;
  }

  /** A type whose only tag is some other check is never reported by this one. */
  lemma OtherTagsIgnored(facts: Facts, obj: Object, u: Underlying, elts: seq<Expr>)
    requires AllfieldsCheck !in GetTypeTags(facts, obj)
    ensures CheckLiteral(facts, Some(Named(obj, u)), elts) == NoReport
  {
  }

  /** The doc comment `check:allfields` enables exactly this check. */
  lemma AllfieldsDoc()
    ensures DocChecks(CheckPrefix + AllfieldsCheck) == {AllfieldsCheck}
  {
    TagLine(AllfieldsCheck);
    var text := CheckPrefix + AllfieldsCheck;
    forall i | 0 <= i < |text|
      ensures text[i] != '\n'
    {
      assert i < 6 ==> text[i] == CheckPrefix[i];
      assert i >= 6 ==> IsLower(text[i]);
    }
    OneLineDoc(text);
  }

  /** The empty literal of a tagged one-field struct misses that field. */
  lemma TaggedEmptyLiteral(facts: Facts, obj: Object)
    requires AllfieldsCheck in GetTypeTags(facts, obj)
    ensures CheckLiteral(facts, Some(Named(obj, StructType([StructField("X", "")]))), []) == MissingFields({"X"})
  {
    var fields := [StructField("X", "")];
    assert fields[0].name == "X";
    assert Required(fields) == {"X"};
    assert Remaining({"X"}, []) == {"X"};
  }

  /**
   * End to end: a struct `MyStruct { X int }` declared under the doc comment
   * `check:allfields` and written as the empty literal `{}` is reported as missing `X`.
   */
  lemma EmptyLiteralOfTaggedStruct(info: Info, name: Ident, obj: Object)
    requires name.pos in info.defs && info.defs[name.pos] == obj
    ensures var facts := ScanDecl(info, GenDecl(Some(CheckPrefix + AllfieldsCheck), [TSpec(name, OtherExpr([]))]));
      CheckLiteral(facts, Some(Named(obj, StructType([StructField("X", "")]))), []) == MissingFields({"X"})
  {
    var d := GenDecl(Some(CheckPrefix + AllfieldsCheck), [TSpec(name, OtherExpr([]))]);
    AllfieldsDoc();
    var facts := ScanDecl(info, d);
    assert d.specs[0].TSpec?;
    assert obj in facts;
    TaggedEmptyLiteral(facts, obj);
  }
}
