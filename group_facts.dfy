/** Properties of the map getGroupKeyMapping builds (CollectionDiffAndIntersectUtil.java:35-80). */
module GroupFacts {
  import opened Results
  import opened SeqUtil
  import opened GroupSpec

  /** The shape of any map the grouping builds: keys listed once each, exactly the keys of the map,
      and no key holding an empty list. */
  ghost predicate WellFormed<K, T>(g: GroupMap<K, T>)
  {
    && (forall i, j :: 0 <= i < j < |g.keys| ==> g.keys[i] != g.keys[j])
    && (forall k :: k in g.groups ==> k in g.keys)
    && (forall i :: 0 <= i < |g.keys| ==> g.keys[i] in g.groups)
    && (forall k :: k in g.groups ==> g.groups[k] != [])
  }

  /** FirstOccurrences lists every element of s exactly once, ordered by where each first occurs in s. */
  lemma {:induction false} FirstOccurrencesOrder<X>(s: seq<X>)
    ensures forall x :: x in FirstOccurrences(s) ==> x in s
    ensures forall x :: x in s ==> x in FirstOccurrences(s)
    ensures forall i, j :: 0 <= i < j < |FirstOccurrences(s)| ==>
      FirstIndex(s, FirstOccurrences(s)[i]) < FirstIndex(s, FirstOccurrences(s)[j])
    decreases |s|
  {
    if s != [] {
      var init, x := s[..|s| - 1], s[|s| - 1];
      assert s == init + [x];
      FirstOccurrencesOrder(init);
      var d := FirstOccurrences(init);
      forall y | y in init ensures FirstIndex(s, y) == FirstIndex(init, y) {
      }
      if x !in init {
        assert FirstIndex(s, x) == |s| - 1;
      }
    }
  }

  /** Ordered by first occurrence, the listed elements are pairwise distinct. */
  lemma FirstOccurrencesDistinct<X>(s: seq<X>)
    ensures forall i, j :: 0 <= i < j < |FirstOccurrences(s)| ==> FirstOccurrences(s)[i] != FirstOccurrences(s)[j]
  {
    FirstOccurrencesOrder(s);
  }

  lemma {:induction false} KeptHasNoNull<K>(ks: seq<KVal<K>>)
    ensures Null !in Kept(ks, true)
    decreases |ks|
  {
    if ks != [] {
      KeptHasNoNull(ks[..|ks| - 1]);
    }
  }

  /** With ignoreNullKey, no filing is ever made under the null key (lines 64-66). */
  lemma {:induction false} NoNullFiling<K, T>(es: seq<T>, extract: T -> Extracted<K>, flattenList: bool)
    ensures Null !in KeysFiled(Filings(es, extract, true, flattenList))
    decreases |es|
  {
    if es != [] {
      var init, e := es[..|es| - 1], es[|es| - 1];
      NoNullFiling(init, extract, flattenList);
      var ks := KeysOf(extract(e), true, flattenList);
      if extract(e).Got? {
        KeptHasNoNull(Candidates(extract(e).value, flattenList));
      }
      assert Null !in ks;
      KeysFiledAppend(Filings(init, extract, true, flattenList), ks, e);
    }
  }

  /** Filing a record under ks adds exactly ks to the filed keys. */
  lemma KeysFiledAppend<K, T>(fs: seq<(KVal<K>, T)>, ks: seq<KVal<K>>, e: T)
    ensures KeysFiled(fs + Filed(ks, e)) == KeysFiled(fs) + ks
  {
  }

  lemma BuildWellFormed<K, T>(fs: seq<(KVal<K>, T)>)
    ensures WellFormed(Build(fs))
  {
    var g := Build(fs);
    FirstOccurrencesOrder(KeysFiled(fs));
    FirstOccurrencesDistinct(KeysFiled(fs));
    forall i | 0 <= i < |g.keys| ensures g.keys[i] in g.groups {
      var x := g.keys[i];
      var ks := KeysFiled(fs);
      FirstOccurrencesOrder(ks);
      assert x in FirstOccurrences(ks);
      assert x in ks;
    }
    forall k | k in g.groups ensures g.groups[k] != [] {
      FiledUnderNonEmpty(fs, k);
    }
  }

  /** The map getGroupKeyMapping returns is well formed and, with ignoreNullKey, has no null key. */
  lemma GroupedWellFormed<K, T>(
    entities: Option<seq<T>>, extract: T -> Extracted<K>, ignoreNullKey: bool, flattenList: bool)
    ensures WellFormed(Grouped(entities, extract, ignoreNullKey, flattenList))
    ensures ignoreNullKey ==> Null !in Grouped(entities, extract, ignoreNullKey, flattenList).groups
  {
    if entities.Some? {
      BuildWellFormed(Filings(entities.value, extract, ignoreNullKey, flattenList));
      if ignoreNullKey {
        NoNullFiling(entities.value, extract, flattenList);
      }
    }
  }

  /** Keys are listed in the order in which something was first filed under them (lines 67-71 insert a key
      into the LinkedHashMap only on its first filing). */
  lemma KeysInFirstFilingOrder<K, T>(es: seq<T>, extract: T -> Extracted<K>, ignoreNullKey: bool, flattenList: bool)
    ensures var g := Grouped(Some(es), extract, ignoreNullKey, flattenList);
            var ks := KeysFiled(Filings(es, extract, ignoreNullKey, flattenList));
            (forall i :: 0 <= i < |g.keys| ==> g.keys[i] in ks)
            && (forall k :: k in ks ==> k in g.keys)
            && (forall i, j :: 0 <= i < j < |g.keys| ==> FirstIndex(ks, g.keys[i]) < FirstIndex(ks, g.keys[j]))
  {
    FirstOccurrencesOrder(KeysFiled(Filings(es, extract, ignoreNullKey, flattenList)));
  }

  lemma {:induction false} FiledUnderConcat<K, T>(fs: seq<(KVal<K>, T)>, gs: seq<(KVal<K>, T)>, k: KVal<K>)
    ensures FiledUnder(fs + gs, k) == FiledUnder(fs, k) + FiledUnder(gs, k)
    decreases |gs|
  {
    if gs != [] {
      var init := gs[..|gs| - 1];
      assert (fs + gs)[..|fs + gs| - 1] == fs + init;
      assert (fs + gs)[|fs + gs| - 1] == gs[|gs| - 1];
      FiledUnderConcat(fs, init, k);
    } else {
      assert fs + gs == fs;
    }
  }

  /** The filings of one record e place it under k once per occurrence of k among its keys. */
  lemma {:induction false} FiledUnderOneRecord<K, T>(ks: seq<KVal<K>>, e: T, k: KVal<K>)
    ensures FiledUnder(Filed(ks, e), k) == Repeat(e, Count(k, ks))
    decreases |ks|
  {
    if ks != [] {
      var init := ks[..|ks| - 1];
      assert Filed(ks, e)[..|ks| - 1] == Filed(init, e);
      FiledUnderOneRecord(init, e, k);
    }
  }

  lemma LookupBuild<K, T>(fs: seq<(KVal<K>, T)>, k: KVal<K>)
    ensures Lookup(Build(fs), k) == FiledUnder(fs, k)
  {
    FiledUnderNonEmpty(fs, k);
  }

  /** Adding one record at the end of the input appends it to the list of each key k, once per occurrence of k
      among the keys it is filed under, and leaves every other list as it was (lines 63-73). */
  lemma AppendRecord<K, T>(
    es: seq<T>, e: T, extract: T -> Extracted<K>, ignoreNullKey: bool, flattenList: bool, k: KVal<K>)
    ensures Lookup(Grouped(Some(es + [e]), extract, ignoreNullKey, flattenList), k)
            == Lookup(Grouped(Some(es), extract, ignoreNullKey, flattenList), k)
               + Repeat(e, Count(k, KeysOf(extract(e), ignoreNullKey, flattenList)))
  {
    var fs := Filings(es, extract, ignoreNullKey, flattenList);
    var ks := KeysOf(extract(e), ignoreNullKey, flattenList);
    assert (es + [e])[..|es|] == es;
    assert Filings(es + [e], extract, ignoreNullKey, flattenList) == fs + Filed(ks, e);
    LookupBuild(fs, k);
    LookupBuild(fs + Filed(ks, e), k);
    FiledUnderConcat(fs, Filed(ks, e), k);
    FiledUnderOneRecord(ks, e, k);
  }

  lemma {:induction false} KeptCount<K>(ks: seq<KVal<K>>, ignoreNullKey: bool, k: KVal<K>)
    requires !(ignoreNullKey && k == Null)
    ensures Count(k, Kept(ks, ignoreNullKey)) == Count(k, ks)
    decreases |ks|
  {
    if ks != [] {
      var init := ks[..|ks| - 1];
      KeptCount(init, ignoreNullKey, k);
      var tail := if ignoreNullKey && ks[|ks| - 1] == Null then [] else [ks[|ks| - 1]];
      CountConcat(Kept(init, ignoreNullKey), tail, k);
    }
  }

  lemma {:induction false} CountConcat<X>(a: seq<X>, b: seq<X>, x: X)
    ensures Count(x, a + b) == Count(x, a) + Count(x, b)
    decreases |b|
  {
    if b != [] {
      assert (a + b)[..|a + b| - 1] == a + b[..|b| - 1];
      assert (a + b)[|a + b| - 1] == b[|b| - 1];
      CountConcat(a, b[..|b| - 1], x);
    } else {
      assert a + b == a;
    }
  }

  /** With flattenList, a record whose key is a list is added to the list of each element k, once per
      occurrence of k in that list (lines 56-59); only nulls are dropped, and only under ignoreNullKey. */
  lemma FlattenedListKey<K, T>(
    es: seq<T>, e: T, extract: T -> Extracted<K>, ignoreNullKey: bool, items: seq<KVal<K>>, k: KVal<K>)
    requires extract(e) == Got(ListOf(items))
    requires !(ignoreNullKey && k == Null)
    ensures Lookup(Grouped(Some(es + [e]), extract, ignoreNullKey, true), k)
            == Lookup(Grouped(Some(es), extract, ignoreNullKey, true), k) + Repeat(e, Count(k, items))
  {
    AppendRecord(es, e, extract, ignoreNullKey, true, k);
    KeptCount(items, ignoreNullKey, k);
  }

  /** Without flattening, or for a value that is not a list, the value itself is the record's one key
      (lines 60-62): the record joins that key's list, inserting the key when it is new, and no other list. */
  lemma SingleKey<K, T>(
    es: seq<T>, e: T, extract: T -> Extracted<K>, ignoreNullKey: bool, flattenList: bool, v: KVal<K>)
    requires extract(e) == Got(v)
    requires !(flattenList && v.ListOf?)
    requires !(ignoreNullKey && v == Null)
    ensures var g := Grouped(Some(es), extract, ignoreNullKey, flattenList);
            var g' := Grouped(Some(es + [e]), extract, ignoreNullKey, flattenList);
            && g'.keys == (if v in g.groups then g.keys else g.keys + [v])
            && forall k :: Lookup(g', k) == Lookup(g, k) + (if k == v then [e] else [])
  {
    var fs := Filings(es, extract, ignoreNullKey, flattenList);
    SingleKeyFiling(es, e, extract, ignoreNullKey, flattenList, v);
    BuildStep(fs, v, e);
    forall k ensures Lookup(Append(Build(fs), v, e), k) == Lookup(Build(fs), k) + (if k == v then [e] else []) {
      LookupAppend(Build(fs), v, e, k);
    }
  }

  /** A record with one kept key v adds the single filing (v, e). */
  lemma SingleKeyFiling<K, T>(
    es: seq<T>, e: T, extract: T -> Extracted<K>, ignoreNullKey: bool, flattenList: bool, v: KVal<K>)
    requires extract(e) == Got(v)
    requires !(flattenList && v.ListOf?)
    requires !(ignoreNullKey && v == Null)
    ensures Filings(es + [e], extract, ignoreNullKey, flattenList)
            == Filings(es, extract, ignoreNullKey, flattenList) + [(v, e)]
  {
    KeysOfSingle(v, ignoreNullKey, flattenList);
    var es' := es + [e];
    FilingsStep(es', |es|, extract, ignoreNullKey, flattenList);
    assert es'[..|es|] == es && es'[..|es| + 1] == es' && es'[|es|] == e;
    assert Filed([v], e) == [(v, e)];
  }

  lemma KeysOfSingle<K>(v: KVal<K>, ignoreNullKey: bool, flattenList: bool)
    requires !(flattenList && v.ListOf?)
    requires !(ignoreNullKey && v == Null)
    ensures KeysOf(Got(v), ignoreNullKey, flattenList) == [v]
  {
    assert Candidates(v, flattenList) == [v];
    assert [v][..0] == [];
    assert Kept([v], ignoreNullKey) == Kept([v][..0], ignoreNullKey) + [v];
  }

  /** One step of the loop body adds e to k's list and changes no other list. */
  lemma LookupAppend<K, T>(g: GroupMap<K, T>, k: KVal<K>, e: T, k': KVal<K>)
    ensures Lookup(Append(g, k, e), k') == Lookup(g, k') + (if k' == k then [e] else [])
  {
  }

  lemma {:induction false} FilingsConcat<K, T>(
    a: seq<T>, b: seq<T>, extract: T -> Extracted<K>, ignoreNullKey: bool, flattenList: bool)
    ensures Filings(a + b, extract, ignoreNullKey, flattenList)
            == Filings(a, extract, ignoreNullKey, flattenList) + Filings(b, extract, ignoreNullKey, flattenList)
    decreases |b|
  {
    if b != [] {
      var init, x := b[..|b| - 1], b[|b| - 1];
      var last := Filed(KeysOf(extract(x), ignoreNullKey, flattenList), x);
      assert (a + b)[..|a + b| - 1] == a + init;
      assert (a + b)[|a + b| - 1] == x;
      assert Filings(a + b, extract, ignoreNullKey, flattenList)
             == Filings(a + init, extract, ignoreNullKey, flattenList) + last;
      assert Filings(b, extract, ignoreNullKey, flattenList) == Filings(init, extract, ignoreNullKey, flattenList) + last;
      FilingsConcat(a, init, extract, ignoreNullKey, flattenList);
    } else {
      assert a + b == a;
    }
  }

  lemma FailedRecordNoFilings<K, T>(x: T, extract: T -> Extracted<K>, ignoreNullKey: bool, flattenList: bool)
    requires extract(x) == Failed
    ensures Filings([x], extract, ignoreNullKey, flattenList) == []
  {
    assert [x][..0] == [];
  }

  lemma FilingsWithout<K, T>(
    es: seq<T>, i: nat, extract: T -> Extracted<K>, ignoreNullKey: bool, flattenList: bool)
    requires i < |es| && extract(es[i]) == Failed
    ensures Filings(es, extract, ignoreNullKey, flattenList)
            == Filings(es[..i] + es[i + 1..], extract, ignoreNullKey, flattenList)
  {
    assert es == es[..i] + [es[i]] + es[i + 1..];
    FilingsDrop(es[..i], es[i], es[i + 1..], extract, ignoreNullKey, flattenList);
  }

  lemma FilingsDrop<K, T>(
    a: seq<T>, x: T, b: seq<T>, extract: T -> Extracted<K>, ignoreNullKey: bool, flattenList: bool)
    requires extract(x) == Failed
    ensures Filings(a + [x] + b, extract, ignoreNullKey, flattenList)
            == Filings(a + b, extract, ignoreNullKey, flattenList)
  {
    var fa := Filings(a, extract, ignoreNullKey, flattenList);
    var fb := Filings(b, extract, ignoreNullKey, flattenList);
    FilingsConcat(a, [x], extract, ignoreNullKey, flattenList);
    FailedRecordNoFilings(x, extract, ignoreNullKey, flattenList);
    assert Filings(a + [x], extract, ignoreNullKey, flattenList) == fa;
    FilingsConcat(a + [x], b, extract, ignoreNullKey, flattenList);
    FilingsConcat(a, b, extract, ignoreNullKey, flattenList);
  }

  /** A record whose key cannot be read is left out, and the others are grouped exactly as if it had not been
      in the input (lines 74-76 catch the exception inside the loop). */
  lemma FailedRecordSkipped<K, T>(
    es: seq<T>, i: nat, extract: T -> Extracted<K>, ignoreNullKey: bool, flattenList: bool)
    requires i < |es| && extract(es[i]) == Failed
    ensures Grouped(Some(es), extract, ignoreNullKey, flattenList)
            == Grouped(Some(es[..i] + es[i + 1..]), extract, ignoreNullKey, flattenList)
  {
    FilingsWithout(es, i, extract, ignoreNullKey, flattenList);
  }
}
