/**
 * hashDiffAndIntersect (CollectionDiffAndIntersectUtil.java:99-129): group both lists by key, then route the
 * group of every key of either list to diffB (key only in B), diffA (key only in A) or intersect (key in
 * both; A's records when returnA, B's otherwise). The key union is a HashSet whose iteration order is
 * unspecified; the loop below picks the next key arbitrarily, so everything it ensures holds for every order.
 */
module HashDiff {
  import opened Results
  import opened GroupSpec
  import opened HashSpec
  import Grouping

  method HashDiffAndIntersect<K(==), T>(
    collectionA: Option<seq<T>>, collectionB: Option<seq<T>>, extract: T -> Extracted<K>, returnA: bool)
    returns (r: DiffAndIntersect<T>)
    ensures var a, b := Elements(collectionA), Elements(collectionB);
            var ka, kb := KeySet(a, extract), KeySet(b, extract);
            && Selects(r.diffA, a, extract, ka - kb)
            && Selects(r.diffB, b, extract, kb - ka)
            && Selects(r.intersect, if returnA then a else b, extract, ka * kb)
    ensures returnA ==>
              multiset(r.diffA) + multiset(r.intersect) == multiset(WithKey(Elements(collectionA), extract))
    ensures !returnA ==>
              multiset(r.diffB) + multiset(r.intersect) == multiset(WithKey(Elements(collectionB), extract))
  {
    var setA := Grouping.GetGroupKeyMappingByDefault(extract, collectionA);
    var setB := Grouping.GetGroupKeyMappingByDefault(extract, collectionB);
    ghost var a, b := Elements(collectionA), Elements(collectionB);
    assert setA == Grouped(Some(a), extract, true, false);
    assert setB == Grouped(Some(b), extract, true, false);
    var diffA, diffB, intersect, order := Route(setA.groups, setB.groups, returnA);
    r := DiffAndIntersect(diffA, diffB, intersect);
    HashOutputs(a, b, extract, returnA, setA.groups, setB.groups, order, r);
  }

  /** What the routing loop leaves, read against the input lists. */
  lemma HashOutputs<K, T>(
    a: seq<T>, b: seq<T>, extract: T -> Extracted<K>, returnA: bool,
    setA: map<KVal<K>, seq<T>>, setB: map<KVal<K>, seq<T>>, order: seq<KVal<K>>, r: DiffAndIntersect<T>)
    requires setA == Grouped(Some(a), extract, true, false).groups
    requires setB == Grouped(Some(b), extract, true, false).groups
    requires Distinct(order)
    requires forall t :: t in order <==> t in setA.Keys + setB.Keys
    requires r.diffA == Gather(order, setA, setA.Keys - setB.Keys)
    requires r.diffB == Gather(order, setB, setB.Keys - setA.Keys)
    requires r.intersect == Gather(order, if returnA then setA else setB, setA.Keys * setB.Keys)
    ensures var ka, kb := KeySet(a, extract), KeySet(b, extract);
            && Selects(r.diffA, a, extract, ka - kb)
            && Selects(r.diffB, b, extract, kb - ka)
            && Selects(r.intersect, if returnA then a else b, extract, ka * kb)
    ensures returnA ==> multiset(r.diffA) + multiset(r.intersect) == multiset(WithKey(a, extract))
    ensures !returnA ==> multiset(r.diffB) + multiset(r.intersect) == multiset(WithKey(b, extract))
  {
    HashGrouping(a, extract);
    HashGrouping(b, extract);
    var ka, kb := KeySet(a, extract), KeySet(b, extract);
    RoutedOutput(order, a, extract, setA, ka - kb);
    RoutedOutput(order, b, extract, setB, kb - ka);
    if returnA {
      RoutedOutput(order, a, extract, setA, ka * kb);
      SideConserved(a, extract, kb, r.diffA, r.intersect);
    } else {
      RoutedOutput(order, b, extract, setB, ka * kb);
      SideConserved(b, extract, ka, r.diffB, r.intersect);
    }
  }

  /** The loop over the key union (lines 109-123). `order` records the order in which the HashSet happened to
      yield the keys: each key of either map exactly once. */
  method Route<K(==), T>(setA: map<KVal<K>, seq<T>>, setB: map<KVal<K>, seq<T>>, returnA: bool)
    returns (diffA: seq<T>, diffB: seq<T>, intersect: seq<T>, ghost order: seq<KVal<K>>)
    requires forall t :: t in setA ==> setA[t] != []
    requires forall t :: t in setB ==> setB[t] != []
    ensures Distinct(order)
    ensures forall t :: t in order <==> t in setA.Keys + setB.Keys
    ensures diffA == Gather(order, setA, setA.Keys - setB.Keys)
    ensures diffB == Gather(order, setB, setB.Keys - setA.Keys)
    ensures intersect == Gather(order, if returnA then setA else setB, setA.Keys * setB.Keys)
  {
    diffA, diffB, intersect := [], [], [];
    ghost var ka, kb := setA.Keys, setB.Keys;
    ghost var chosen := if returnA then setA else setB;
    var allSet := setA.Keys + setB.Keys;
    var left := allSet;
    order := [];
    while left != {}
      invariant left <= allSet
      invariant Distinct(order)
      invariant forall t :: t in order ==> t in allSet && t !in left
      invariant forall t :: t in allSet && t !in left ==> t in order
      invariant diffA == Gather(order, setA, ka - kb)
      invariant diffB == Gather(order, setB, kb - ka)
      invariant intersect == Gather(order, chosen, ka * kb)
      decreases left
    {
      var t :| t in left;
      GatherSnoc(order, t, setA, ka - kb);
      GatherSnoc(order, t, setB, kb - ka);
      GatherSnoc(order, t, chosen, ka * kb);
      if t !in setA || setA[t] == [] {
        diffB := diffB + setB[t];
      } else if t !in setB || setB[t] == [] {
        diffA := diffA + setA[t];
      } else if returnA {
        intersect := intersect + setA[t];
      } else {
        intersect := intersect + setB[t];
      }
      order := order + [t];
      left := left - {t};
    }
  }

  lemma GatherSnoc<K, T>(order: seq<KVal<K>>, t: KVal<K>, groups: map<KVal<K>, seq<T>>, d: set<KVal<K>>)
    ensures Gather(order + [t], groups, d) == Gather(order, groups, d) + (if t in d && t in groups then groups[t] else [])
  {
    assert (order + [t])[..|order|] == order;
  }

  /** One output of the routing loop: gathering, along a duplicate-free order that covers d, the groups of
      the keys in d from the hash-mode grouping of s gives exactly the records of s with a key in d (as a
      multiset), and for each key those records in input order. */
  lemma RoutedOutput<K, T>(
    order: seq<KVal<K>>, s: seq<T>, extract: T -> Extracted<K>, groups: map<KVal<K>, seq<T>>, d: set<KVal<K>>)
    requires groups == Grouped(Some(s), extract, true, false).groups
    requires d <= KeySet(s, extract)
    requires Distinct(order)
    requires forall t :: t in d ==> t in order
    ensures Selects(Gather(order, groups, d), s, extract, d)
  {
    HashGrouping(s, extract);
    assert (set t | t in order) * d == d;
    GatherMultiset(order, s, extract, groups, d);
    GatherPerKey(order, s, extract, groups, d);
  }

  /** Key by key, the gathered records of a covering order are the source list's records of the keys in d. */
  lemma GatherPerKey<K, T>(
    order: seq<KVal<K>>, s: seq<T>, extract: T -> Extracted<K>, groups: map<KVal<K>, seq<T>>, d: set<KVal<K>>)
    requires forall k :: k in groups ==> groups[k] == OfKey(s, extract, k)
    requires d <= groups.Keys
    requires Distinct(order)
    requires forall t :: t in d ==> t in order
    ensures forall k :: k in d ==> OfKey(Gather(order, groups, d), extract, k) == OfKey(s, extract, k)
    ensures forall k :: k in KeySet(Gather(order, groups, d), extract) ==> k in d
  {
    var out := Gather(order, groups, d);
    forall k | k in d ensures OfKey(out, extract, k) == OfKey(s, extract, k) {
      GatherOfKey(order, s, extract, groups, d, k);
    }
    forall k | k in KeySet(out, extract) ensures k in d {
      OfKeyNonEmpty(out, extract, k);
      GatherOfKey(order, s, extract, groups, d, k);
    }
  }

  /** The returned side's records with a key are found, each exactly once, in its diff list or in intersect. */
  lemma SideConserved<K, T>(s: seq<T>, extract: T -> Extracted<K>, other: set<KVal<K>>, diff: seq<T>, inter: seq<T>)
    requires Selects(diff, s, extract, KeySet(s, extract) - other)
    requires Selects(inter, s, extract, KeySet(s, extract) * other)
             || Selects(inter, s, extract, other * KeySet(s, extract))
    ensures multiset(diff) + multiset(inter) == multiset(WithKey(s, extract))
  {
    assert other * KeySet(s, extract) == KeySet(s, extract) * other;
    OwnKeysSplit(s, extract, other);
  }

  /** Diffing a list against itself leaves both diff lists empty and puts every record with a key into
      intersect. */
  lemma IdenticalListsHaveNoDiff<K, T>(s: seq<T>, extract: T -> Extracted<K>)
    ensures var ks := KeySet(s, extract);
            Keyed(s, extract, ks - ks) == [] && Keyed(s, extract, ks * ks) == WithKey(s, extract)
  {
    var ks := KeySet(s, extract);
    assert ks - ks == {} && ks * ks == ks;
    KeyedEmpty(s, extract);
    KeyedWithKey(s, extract, ks);
  }
}
