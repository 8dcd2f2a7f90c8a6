/**
 * The generic slice and map helpers shared by the analyzers, with value semantics:
 * a helper that mutates its argument in place returns the new value instead.
 */
module Utils {
  import opened Ast

  /** `*d = append(*d, v...)`: the old contents followed by `v`, in order. */
  function Append<E>(d: seq<E>, v: seq<E>): (r: seq<E>)
    ensures |r| == |d| + |v|
    ensures r[..|d|] == d
    ensures forall i :: 0 <= i < |v| ==> r[|d| + i] == v[i]
  {
    d + v
  }

  /**
   * Deletes `count` elements starting at `start`, keeping the order of the rest.
   * The two slice expressions of the source demand both bounds below.
   */
  function Remove<E>(d: seq<E>, start: int, count: int): (r: seq<E>)
    requires 0 <= start <= |d|
    requires 0 <= start + count <= |d|
    ensures |r| == |d| - count
    ensures r[..start] == d[..start]
    ensures forall i :: start <= i < |r| ==> r[i] == d[i + count]
  {
    d[..start] + d[start + count..]
  }

  /** Removes `key` and returns what it held, or `zero` when it was absent. */
  function PopMap<K, V>(m: map<K, V>, key: K, zero: V): (r: (V, map<K, V>))
    ensures key in m ==> r.0 == m[key]
    ensures key !in m ==> r.0 == zero
    ensures r.1.Keys == m.Keys - {key}
    ensures forall k :: k in r.1 ==> r.1[k] == m[k]
  {
    (if key in m then m[key] else zero, m - {key})
  }

  /** `m[key] = updater(old, exists)`, where `old` is `zero` for an absent key. */
  function UpdateMap<K, V>(m: map<K, V>, key: K, updater: (V, bool) -> V, zero: V): (r: map<K, V>)
    ensures r.Keys == m.Keys + {key}
    ensures key in m ==> r[key] == updater(m[key], true)
    ensures key !in m ==> r[key] == updater(zero, false)
    ensures forall k :: k in m && k != key ==> r[k] == m[k]
  {
    var prev := if key in m then m[key] else zero;
    m[key := updater(prev, key in m)]
  }

  /** Copies every entry of `source` into `dest`; on a shared key `source` wins. */
  function MergeMap<K, V>(dest: map<K, V>, source: map<K, V>): (r: map<K, V>)
    ensures r.Keys == dest.Keys + source.Keys
    ensures forall k :: k in source ==> r[k] == source[k]
    ensures forall k :: k in dest && k !in source ==> r[k] == dest[k]
  {
    dest + source
  }

  /** All but the last `count` elements. */
  function ArrAntiSuffix<V>(v: seq<V>, count: int): (r: seq<V>)
    requires 0 <= count <= |v|
    ensures |r| == |v| - count
    ensures r <= v
  {
    v[..|v| - count]
  }

  /** The final element: what `ArrAntiSuffix(v, 1)` leaves out. */
  function Last<V>(v: seq<V>): (r: V)
    requires |v| > 0
    ensures ArrAntiSuffix(v, 1) + [r] == v
  {
    v[|v| - 1]
  }

  /** The names of a field list, field by field, in order. */
  function FieldNames(fields: seq<Field>): (r: seq<Ident>)
    ensures forall id :: id in r <==> exists i :: 0 <= i < |fields| && id in fields[i].names
    ensures |fields| == 1 ==> r == fields[0].names
  {
    if fields == [] then []
    else
      var init := fields[..|fields| - 1];
      assert forall i :: 0 <= i < |init| ==> init[i] == fields[i];
      FieldNames(init) + fields[|fields| - 1].names
  }

  /** The named results of a signature; unnamed results contribute nothing. */
  function NamedReturns(spec: FuncType): (r: seq<Ident>)
    ensures forall id :: id in r <==> exists i :: 0 <= i < |spec.results| && id in spec.results[i].names
    ensures spec.results == [] ==> r == []
    ensures spec.results != [] ==> r == spec.results[0].names + FieldNames(spec.results[1..])
  {
    if spec.results == [] then FieldNames(spec.results)
    else
      FieldNamesCons(spec.results);
      FieldNames(spec.results)
  }

  /** The names of two field lists are those of the first followed by those of the second. */
  lemma {:induction false} FieldNamesConcat(a: seq<Field>, b: seq<Field>)
    ensures FieldNames(a + b) == FieldNames(a) + FieldNames(b)
    decreases |b|
  {
    if b == [] {
      assert a + b == a;
    } else {
      var b' := b[..|b| - 1];
      var ab := a + b;
      assert ab[..|ab| - 1] == a + b';
      assert ab[|ab| - 1] == b[|b| - 1];
      FieldNamesConcat(a, b');
      assert FieldNames(ab) == FieldNames(a + b') + b[|b| - 1].names;
      assert FieldNames(b) == FieldNames(b') + b[|b| - 1].names;
    }
  }

  /** The names of a non-empty field list are the first field's names followed by the rest's. */
  lemma FieldNamesCons(fields: seq<Field>)
    requires fields != []
    ensures FieldNames(fields) == fields[0].names + FieldNames(fields[1..])
  {
    assert fields == [fields[0]] + fields[1..];
    FieldNamesConcat([fields[0]], fields[1..]);
  }

  /** Appending `v` and then removing the `|v|` elements at the old end gives the old slice back. */
  lemma AppendThenRemove<E>(d: seq<E>, v: seq<E>)
    ensures Remove(Append(d, v), |d|, |v|) == d
  {
    assert Append(d, v)[..|d|] == d;
  }

  /** `ArrAntiSuffix` undoes `Append`. */
  lemma AppendThenAntiSuffix<E>(d: seq<E>, v: seq<E>)
    ensures ArrAntiSuffix(Append(d, v), |v|) == d
  {
  }

  /** Removing `[start, start+count)` keeps exactly the other elements (as a multiset). */
  lemma RemoveKeepsOthers<E>(d: seq<E>, start: int, count: int)
    requires 0 <= start && 0 <= count && start + count <= |d|
    ensures multiset(Remove(d, start, count)) + multiset(d[start..start + count]) == multiset(d)
  {
    assert d == d[..start] + d[start..start + count] + d[start + count..];
  }

  /** The source's own example: removing one element at index 1 of `a b c`. */
  lemma RemoveExample()
    ensures Remove(["a", "b", "c"], 1, 1) == ["a", "c"]
  {
  }

  /** Popping a key just updated returns the updater's value and leaves the other keys as they were. */
  lemma UpdateThenPop<K, V>(m: map<K, V>, key: K, updater: (V, bool) -> V, zero: V)
    ensures PopMap(UpdateMap(m, key, updater, zero), key, zero).0
         == updater(if key in m then m[key] else zero, key in m)
    ensures PopMap(UpdateMap(m, key, updater, zero), key, zero).1 == m - {key}
  {
  }

  /** Merging the same source twice changes nothing more. */
  lemma MergeMapIdempotent<K, V>(dest: map<K, V>, source: map<K, V>)
    ensures MergeMap(MergeMap(dest, source), source) == MergeMap(dest, source)
  {
  }
}
