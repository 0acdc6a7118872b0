/**
 * Reference definition of getGroupKeyMapping (CollectionDiffAndIntersectUtil.java:35-80).
 * The grouping loop performs a sequence of "filings": record e is appended to the list of key k.
 * `Filings` lists them in the order the loop performs them, and `Build` says which insertion-ordered
 * map a sequence of filings produces. The imperative method lives in module Grouping.
 */
module GroupSpec {
  import opened Results

  /** What a key getter can return: Java null, a key object, or a java.util.List of such values. */
  datatype KVal<K> = Null | Atom(key: K) | ListOf(items: seq<KVal<K>>)

  /** Reading the key of one record: the reflective call or Map lookup threw, or it returned a value. */
  datatype Extracted<K> = Failed | Got(value: KVal<K>)

  /** A LinkedHashMap<K, List<T>>: its keys in insertion order, and the list held under each key. */
  datatype GroupMap<K(==), T> = GroupMap(keys: seq<KVal<K>>, groups: map<KVal<K>, seq<T>>)

  /** Java's `map.get(k)` on a group map, with an absent key read as the empty list. */
  function Lookup<K(==), T>(g: GroupMap<K, T>, k: KVal<K>): seq<T>
  {
    if k in g.groups then g.groups[k] else []
  }

  /** The list `lk` built from one extracted value: its elements when flattening a list, otherwise the value itself. */
  function Candidates<K(==)>(v: KVal<K>, flattenList: bool): seq<KVal<K>>
  {
    if flattenList && v.ListOf? then v.items else [v]
  }

  /** The candidates the loop over `lk` does not skip, in order: nulls are skipped when ignoreNullKey. */
  function Kept<K(==)>(ks: seq<KVal<K>>, ignoreNullKey: bool): seq<KVal<K>>
    decreases |ks|
  {
    if ks == [] then []
    else Kept(ks[..|ks| - 1], ignoreNullKey)
         + (if ignoreNullKey && ks[|ks| - 1] == Null then [] else [ks[|ks| - 1]])
  }

  /** The keys a record is filed under, with repetitions; none when its key cannot be read. */
  function KeysOf<K(==)>(x: Extracted<K>, ignoreNullKey: bool, flattenList: bool): seq<KVal<K>>
  {
    match x
    case Failed => []
    case Got(v) => Kept(Candidates(v, flattenList), ignoreNullKey)
  }

  /** The filings of one record e under the keys ks. */
  function Filed<K(==), T>(ks: seq<KVal<K>>, e: T): seq<(KVal<K>, T)>
  {
    seq(|ks|, i requires 0 <= i < |ks| => (ks[i], e))
  }

  /** Every filing the grouping loop performs on `entities`, in order. */
  function Filings<K(==), T>(entities: seq<T>, extract: T -> Extracted<K>, ignoreNullKey: bool, flattenList: bool)
    : seq<(KVal<K>, T)>
    decreases |entities|
  {
    if entities == [] then []
    else
      var e := entities[|entities| - 1];
      Filings(entities[..|entities| - 1], extract, ignoreNullKey, flattenList)
      + Filed(KeysOf(extract(e), ignoreNullKey, flattenList), e)
  }

  /** The key of each filing. */
  function KeysFiled<K(==), T>(fs: seq<(KVal<K>, T)>): seq<KVal<K>>
  {
    seq(|fs|, i requires 0 <= i < |fs| => fs[i].0)
  }

  /** The records filed under k, in filing order. */
  function FiledUnder<K(==), T>(fs: seq<(KVal<K>, T)>, k: KVal<K>): seq<T>
    decreases |fs|
  {
    if fs == [] then []
    else FiledUnder(fs[..|fs| - 1], k) + (if fs[|fs| - 1].0 == k then [fs[|fs| - 1].1] else [])
  }

  /** The distinct elements of s, in the order of their first occurrence. */
  function FirstOccurrences<X(==)>(s: seq<X>): seq<X>
    decreases |s|
  {
    if s == [] then []
    else if s[|s| - 1] in s[..|s| - 1] then FirstOccurrences(s[..|s| - 1])
    else FirstOccurrences(s[..|s| - 1]) + [s[|s| - 1]]
  }

  /** The index of the first occurrence of x in s. */
  function FirstIndex<X(==)>(s: seq<X>, x: X): (i: nat)
    requires x in s
    ensures i < |s| && s[i] == x && x !in s[..i]
    decreases |s|
  {
    if x in s[..|s| - 1] then FirstIndex(s[..|s| - 1], x) else |s| - 1
  }

  /** The map a sequence of filings builds: one key per distinct filed key, in the order of its first filing,
      holding the records filed under it. */
  function Build<K(==), T>(fs: seq<(KVal<K>, T)>): GroupMap<K, T>
  {
    GroupMap(FirstOccurrences(KeysFiled(fs)), map k | k in KeysFiled(fs) :: FiledUnder(fs, k))
  }

  /** What getGroupKeyMapping returns; a null collection gives the empty map. */
  function Grouped<K(==), T>(entities: Option<seq<T>>, extract: T -> Extracted<K>, ignoreNullKey: bool, flattenList: bool)
    : GroupMap<K, T>
  {
    match entities
    case None => GroupMap([], map[])
    case Some(es) => Build(Filings(es, extract, ignoreNullKey, flattenList))
  }

  /** One step of the loop body (lines 67-72): fetch the list of k, creating and inserting it when absent, then append e. */
  function Append<K(==), T>(g: GroupMap<K, T>, k: KVal<K>, e: T): GroupMap<K, T>
  {
    if k in g.groups then GroupMap(g.keys, g.groups[k := g.groups[k] + [e]])
    else GroupMap(g.keys + [k], g.groups[k := [e]])
  }

  lemma KeysFiledSnoc<K, T>(fs: seq<(KVal<K>, T)>, f: (KVal<K>, T))
    ensures KeysFiled(fs + [f]) == KeysFiled(fs) + [f.0]
  {
  }

  /** A key has a non-empty list of filed records exactly when something was filed under it. */
  lemma {:induction false} FiledUnderNonEmpty<K, T>(fs: seq<(KVal<K>, T)>, k: KVal<K>)
    ensures FiledUnder(fs, k) != [] <==> k in KeysFiled(fs)
    decreases |fs|
  {
    if fs != [] {
      var init := fs[..|fs| - 1];
      FiledUnderNonEmpty(init, k);
      KeysFiledSnoc(init, fs[|fs| - 1]);
      assert init + [fs[|fs| - 1]] == fs;
    }
  }

  /** Filing one more record under k changes the built map exactly as one step of the loop body does. */
  lemma BuildStep<K, T>(fs: seq<(KVal<K>, T)>, k: KVal<K>, e: T)
    ensures Build(fs + [(k, e)]) == Append(Build(fs), k, e)
  {
    BuildStepKeys(fs, k, e);
    BuildStepGroups(fs, k, e);
  }

  /** The key order after one more filing under k: k is appended when it is new. */
  lemma BuildStepKeys<K, T>(fs: seq<(KVal<K>, T)>, k: KVal<K>, e: T)
    ensures Build(fs + [(k, e)]).keys == Append(Build(fs), k, e).keys
  {
    var fs' := fs + [(k, e)];
    KeysFiledSnoc(fs, (k, e));
    var ks' := KeysFiled(fs');
    assert ks'[..|ks'| - 1] == KeysFiled(fs) && ks'[|ks'| - 1] == k;
    assert k in Build(fs).groups <==> k in KeysFiled(fs);
  }

  /** The lists after one more filing under k: k's list gains e, or is created holding e. */
  lemma BuildStepGroups<K, T>(fs: seq<(KVal<K>, T)>, k: KVal<K>, e: T)
    ensures Build(fs + [(k, e)]).groups == Append(Build(fs), k, e).groups
  {
    var fs' := fs + [(k, e)];
    assert fs'[..|fs'| - 1] == fs;
    KeysFiledSnoc(fs, (k, e));
    var g, g' := Build(fs), Build(fs');
    var h := Append(g, k, e).groups;
    assert g'.groups.Keys == h.Keys by {
      forall k' ensures k' in g'.groups <==> k' in h {
        assert k' in KeysFiled(fs') <==> k' in KeysFiled(fs) || k' == k;
      }
    }
    forall k' | k' in g'.groups
      ensures g'.groups[k'] == h[k']
    {
      assert FiledUnder(fs', k') == FiledUnder(fs, k') + (if k' == k then [e] else []);
      if k' == k && k !in g.groups {
        FiledUnderNonEmpty(fs, k);
        assert FiledUnder(fs, k) == [];
      }
    }
  }

  /** The filings made for the first i + 1 records extend those for the first i by the filings of record i. */
  lemma FilingsStep<K, T>(es: seq<T>, i: nat, extract: T -> Extracted<K>, ignoreNullKey: bool, flattenList: bool)
    requires i < |es|
    ensures Filings(es[..i + 1], extract, ignoreNullKey, flattenList)
            == Filings(es[..i], extract, ignoreNullKey, flattenList)
               + Filed(KeysOf(extract(es[i]), ignoreNullKey, flattenList), es[i])
  {
    assert es[..i + 1][..i] == es[..i];
  }

  /** Visiting candidate lk[j] either skips it (a null under ignoreNullKey) or files the record under it. */
  lemma KeptStep<K, T>(done: seq<(KVal<K>, T)>, lk: seq<KVal<K>>, j: nat, e: T, ignoreNullKey: bool)
    requires j < |lk|
    ensures ignoreNullKey && lk[j] == Null ==>
      done + Filed(Kept(lk[..j + 1], ignoreNullKey), e) == done + Filed(Kept(lk[..j], ignoreNullKey), e)
    ensures !(ignoreNullKey && lk[j] == Null) ==>
      done + Filed(Kept(lk[..j + 1], ignoreNullKey), e) == (done + Filed(Kept(lk[..j], ignoreNullKey), e)) + [(lk[j], e)]
  {
    assert lk[..j + 1][..j] == lk[..j];
    var ks := Kept(lk[..j], ignoreNullKey);
    assert Filed(ks + [lk[j]], e) == Filed(ks, e) + [(lk[j], e)];
  }
}
