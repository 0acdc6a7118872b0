/**
 * getGroupKeyMapping (CollectionDiffAndIntersectUtil.java:22-80): one pass over the records that fills an
 * insertion-ordered one-to-many map from key to records. The reflective getter call (or the Map lookup) of
 * the source is the parameter `extract`; a call that throws is `Failed`.
 */
module Grouping {
  import opened Results
  import opened GroupSpec
  import GroupFacts

  /** The five-argument overload: group `entities` by the key `extract` reads from each record. */
  method GetGroupKeyMapping<K(==), T>(
    extract: T -> Extracted<K>, entities: Option<seq<T>>, ignoreNullKey: bool, flattenList: bool)
    returns (g: GroupMap<K, T>)
    ensures g == Grouped(entities, extract, ignoreNullKey, flattenList)
    ensures entities.None? ==> g.keys == [] && g.groups == map[]
    ensures GroupFacts.WellFormed(g)
    ensures ignoreNullKey ==> Null !in g.groups
  {
    var keys: seq<KVal<K>> := [];
    var groups: map<KVal<K>, seq<T>> := map[];
    if entities.Some? {
      var es := entities.value;
      for i := 0 to |es|
        invariant GroupMap(keys, groups) == Build(Filings(es[..i], extract, ignoreNullKey, flattenList))
      {
        var entity := es[i];
        ghost var done := Filings(es[..i], extract, ignoreNullKey, flattenList);
        FilingsStep(es, i, extract, ignoreNullKey, flattenList);
        match extract(entity)
        case Failed =>
          // the exception is caught and logged; the record is skipped
          assert Filed(KeysOf(extract(entity), ignoreNullKey, flattenList), entity) == [];
          assert done + [] == done;
        case Got(tempK) =>
          var lk := Candidates(tempK, flattenList);
          keys, groups := FileUnderKeys(keys, groups, done, lk, entity, ignoreNullKey);
      }
      assert es[..|es|] == es;
    }
    g := GroupMap(keys, groups);
    GroupFacts.GroupedWellFormed(entities, extract, ignoreNullKey, flattenList);
  }

  /** The inner loop over `lk` (lines 63-73): file `entity` under every candidate key, skipping nulls when
      ignoreNullKey. `done` are the filings that built the map so far. */
  method FileUnderKeys<K(==), T>(
    keys: seq<KVal<K>>, groups: map<KVal<K>, seq<T>>, ghost done: seq<(KVal<K>, T)>,
    lk: seq<KVal<K>>, entity: T, ignoreNullKey: bool)
    returns (keys': seq<KVal<K>>, groups': map<KVal<K>, seq<T>>)
    requires GroupMap(keys, groups) == Build(done)
    ensures GroupMap(keys', groups') == Build(done + Filed(Kept(lk, ignoreNullKey), entity))
  {
    keys', groups' := keys, groups;
    ghost var filed := done;
    assert done + Filed(Kept(lk[..0], ignoreNullKey), entity) == done;
    for j := 0 to |lk|
      invariant filed == done + Filed(Kept(lk[..j], ignoreNullKey), entity)
      invariant GroupMap(keys', groups') == Build(filed)
    {
      var k := lk[j];
      KeptStep(done, lk, j, entity, ignoreNullKey);
      if ignoreNullKey && k == Null {
        continue;
      }
      BuildStep(filed, k, entity);
      keys', groups' := Put(keys', groups', k, entity);
      filed := filed + [(k, entity)];
    }
    assert lk[..|lk|] == lk;
  }

  /** Lines 67-72: fetch the list of k, creating it and inserting k into the key order when absent, then
      append the record. */
  method Put<K(==), T>(keys: seq<KVal<K>>, groups: map<KVal<K>, seq<T>>, k: KVal<K>, entity: T)
    returns (keys': seq<KVal<K>>, groups': map<KVal<K>, seq<T>>)
    ensures GroupMap(keys', groups') == Append(GroupMap(keys, groups), k, entity)
  {
    var v: seq<T>;
    keys' := keys;
    if k in groups {
      v := groups[k];
    } else {
      v := [];
      keys' := keys + [k];
    }
    groups' := groups[k := v + [entity]];
    if k in groups {
      assert GroupMap(keys', groups') == GroupMap(keys, groups[k := groups[k] + [entity]]);
    } else {
      assert v + [entity] == [entity];
      assert GroupMap(keys', groups') == GroupMap(keys + [k], groups[k := [entity]]);
    }
  }

  /** The three-argument overload (lines 22-24): nulls are ignored and lists are not flattened. */
  method GetGroupKeyMappingByDefault<K(==), T>(extract: T -> Extracted<K>, entities: Option<seq<T>>)
    returns (g: GroupMap<K, T>)
    ensures g == Grouped(entities, extract, true, false)
    ensures GroupFacts.WellFormed(g) && Null !in g.groups
  {
    g := GetGroupKeyMapping(extract, entities, true, false);
  }
}
