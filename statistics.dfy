/** The statistics files written at the end of Program.Main: every package
    (or assembly) reference of the collected results, grouped by its
    (name, version) key, counted, and ordered by name and then by version.

    The ordering the query uses is culture-sensitive string comparison for
    names and the version type's own comparison; both are parameters here.
    Such a comparison can tie values that differ (a precomposed letter and
    its decomposed form), so it is a strict weak order and not always a
    strict total order: the counts and the sortedness of the rows hold for
    weak orders, the uniqueness of the table only for total orders. */
module Statistics {
  import opened Common
  import opened Records
  import AzdoCodeSearchPipeline

  /** One row of a statistics file: a (name, version) key and its hit count. */
  datatype Hit<V> = Hit(key: Reference<V>, count: nat)

  /** `before` is irreflexive, transitive and total on distinct values. */
  ghost predicate StrictTotalOrder<T(!new)>(before: (T, T) -> bool) {
    && (forall a :: !before(a, a))
    && (forall a, b, c :: before(a, b) && before(b, c) ==> before(a, c))
    && (forall a, b :: a != b ==> before(a, b) || before(b, a))
  }

  /** `before` is irreflexive and transitive. */
  ghost predicate StrictOrder<T(!new)>(before: (T, T) -> bool) {
    && (forall a :: !before(a, a))
    && (forall a, b, c :: before(a, b) && before(b, c) ==> before(a, c))
  }

  /** A strict order whose ties (neither value before the other) are
      transitive: what a culture-sensitive comparison gives. */
  ghost predicate StrictWeakOrder<T(!new)>(before: (T, T) -> bool) {
    && StrictOrder(before)
    && (forall a, b, c :: !before(a, b) && !before(b, c) ==> !before(a, c))
  }

  /** `orderby Name ascending, Version ascending` on group keys: versions
      decide between names the name comparison ties. */
  predicate KeyBefore<V>(nameBefore: (string, string) -> bool, versionBefore: (V, V) -> bool,
                         a: Reference<V>, b: Reference<V>)
  {
    nameBefore(a.name, b.name) || (!nameBefore(b.name, a.name) && versionBefore(a.version, b.version))
  }

  /** The key order is a strict order when the name order is a strict weak
      order and the version order a strict order. */
  lemma KeyBeforeIsStrict<V(!new)>(nameBefore: (string, string) -> bool, versionBefore: (V, V) -> bool)
    requires StrictWeakOrder(nameBefore) && StrictOrder(versionBefore)
    ensures StrictOrder((a: Reference<V>, b: Reference<V>) => KeyBefore(nameBefore, versionBefore, a, b))
  {
    forall a: Reference<V>, b: Reference<V>, c: Reference<V> |
      KeyBefore(nameBefore, versionBefore, a, b) && KeyBefore(nameBefore, versionBefore, b, c)
      ensures KeyBefore(nameBefore, versionBefore, a, c)
    {
      if !nameBefore(a.name, c.name) {
        assert !nameBefore(c.name, a.name) && versionBefore(a.version, c.version);
      }
    }
  }

  /** The lexicographic key order is a strict total order when its parts are. */
  lemma KeyBeforeIsTotal<V(!new)>(nameBefore: (string, string) -> bool, versionBefore: (V, V) -> bool)
    requires StrictTotalOrder(nameBefore) && StrictTotalOrder(versionBefore)
    ensures StrictTotalOrder((a: Reference<V>, b: Reference<V>) => KeyBefore(nameBefore, versionBefore, a, b))
  {
  }

  /** Rows strictly ascending by key, so no key appears twice. */
  predicate Ascending<V>(hits: seq<Hit<V>>, before: (Reference<V>, Reference<V>) -> bool) {
    forall i, j :: 0 <= i < j < |hits| ==> before(hits[i].key, hits[j].key)
  }

  /** The hit count a statistics list gives for key k (0 when absent). */
  function CountOf<V(==)>(hits: seq<Hit<V>>, k: Reference<V>): nat {
    if hits == [] then 0
    else (if hits[0].key == k then hits[0].count else 0) + CountOf(hits[1..], k)
  }

  /** The sum of all hit counts. */
  function Total<V>(hits: seq<Hit<V>>): nat {
    if hits == [] then 0 else hits[0].count + Total(hits[1..])
  }

  predicate PositiveCounts<V>(hits: seq<Hit<V>>) {
    forall i :: 0 <= i < |hits| ==> hits[i].count > 0
  }

  /** Counts one more occurrence of r in an ascending statistics list. */
  function Insert<V(==,!new)>(hits: seq<Hit<V>>, r: Reference<V>, before: (Reference<V>, Reference<V>) -> bool)
    : (h: seq<Hit<V>>)
    ensures CountOf(h, r) == CountOf(hits, r) + 1
    ensures forall k :: k != r ==> CountOf(h, k) == CountOf(hits, k)
    ensures Total(h) == Total(hits) + 1
    ensures PositiveCounts(hits) ==> PositiveCounts(h)
  {
    if hits == [] then [Hit(r, 1)]
    else if hits[0].key == r then [Hit(r, hits[0].count + 1)] + hits[1..]
    else if before(r, hits[0].key) then [Hit(r, 1)] + hits
    else
      var h := [hits[0]] + Insert(hits[1..], r, before);
      assert h[1..] == Insert(hits[1..], r, before);
      h
  }

  /** The group-by/count/order-by query over a list of references. */
  function HitStatistics<V(==,!new)>(refs: seq<Reference<V>>, before: (Reference<V>, Reference<V>) -> bool)
    : (h: seq<Hit<V>>)
    ensures forall k :: CountOf(h, k) == multiset(refs)[k]
    ensures Total(h) == |refs|
    ensures PositiveCounts(h)
  {
    if refs == [] then []
    else
      var init := refs[..|refs| - 1];
      assert refs == init + [refs[|refs| - 1]];
      Insert(HitStatistics(init, before), refs[|refs| - 1], before)
  }

  /** Inserting keeps the rows ascending; the new head is r or the old head. */
  lemma {:induction false} InsertAscending<V(!new)>(hits: seq<Hit<V>>, r: Reference<V>,
                                              before: (Reference<V>, Reference<V>) -> bool)
    requires StrictTotalOrder(before)
    requires Ascending(hits, before)
    ensures Ascending(Insert(hits, r, before), before)
    ensures var h := Insert(hits, r, before);
      |h| > 0 && (h[0].key == r || (hits != [] && h[0].key == hits[0].key))
  {
    if hits != [] && hits[0].key != r && !before(r, hits[0].key) {
      var tail := Insert(hits[1..], r, before);
      InsertAscending(hits[1..], r, before);
      assert before(hits[0].key, r);
      assert tail[0].key == r || before(hits[0].key, hits[1].key);
      AscendingCons(hits[0], tail, before);
    }
  }

  /** A row placed before the head of an ascending list keeps it ascending. */
  lemma AscendingCons<V(!new)>(x: Hit<V>, tail: seq<Hit<V>>, before: (Reference<V>, Reference<V>) -> bool)
    requires StrictTotalOrder(before)
    requires Ascending(tail, before)
    requires tail == [] || before(x.key, tail[0].key)
    ensures Ascending([x] + tail, before)
  {
    var h := [x] + tail;
    forall i, j | 0 <= i < j < |h|
      ensures before(h[i].key, h[j].key)
    {
      if i == 0 && j > 1 {
        assert before(tail[0].key, tail[j - 1].key);
      }
    }
  }

  /** The statistics rows are strictly ascending by key. */
  lemma {:induction false} HitStatisticsAscending<V(!new)>(refs: seq<Reference<V>>,
                                                     before: (Reference<V>, Reference<V>) -> bool)
    requires StrictTotalOrder(before)
    ensures Ascending(HitStatistics(refs, before), before)
  {
    if refs != [] {
      var init := refs[..|refs| - 1];
      HitStatisticsAscending(init, before);
      InsertAscending(HitStatistics(init, before), refs[|refs| - 1], before);
    }
  }

  /** A row's key is counted at least as often as that row says. */
  lemma {:induction false} CountOfRow<V>(hits: seq<Hit<V>>, i: nat)
    requires i < |hits|
    ensures CountOf(hits, hits[i].key) >= hits[i].count
  {
    if i > 0 {
      CountOfRow(hits[1..], i - 1);
    }
  }

  /** The first row's key of a list with positive counts is counted. */
  lemma CountOfHead<V>(hits: seq<Hit<V>>)
    ensures hits != [] && PositiveCounts(hits) ==> CountOf(hits, hits[0].key) > 0
  {
  }

  /** A key before every row key is not counted. */
  lemma {:induction false} CountOfBelow<V(!new)>(hits: seq<Hit<V>>, k: Reference<V>,
                                           before: (Reference<V>, Reference<V>) -> bool)
    requires StrictTotalOrder(before)
    requires forall i :: 0 <= i < |hits| ==> before(k, hits[i].key)
    ensures CountOf(hits, k) == 0
  {
    if hits != [] {
      assert before(k, hits[0].key);
      CountOfBelow(hits[1..], k, before);
    }
  }

  /** Two ascending lists with positive counts that count every key the same
      are the same list: the statistics are determined by the counts alone. */
  lemma {:induction false} AscendingUnique<V(!new)>(g: seq<Hit<V>>, h: seq<Hit<V>>,
                                              before: (Reference<V>, Reference<V>) -> bool)
    requires StrictTotalOrder(before)
    requires Ascending(g, before) && Ascending(h, before)
    requires PositiveCounts(g) && PositiveCounts(h)
    requires forall k :: CountOf(g, k) == CountOf(h, k)
    ensures g == h
  {
    CountOfHead(g);
    CountOfHead(h);
    if g != [] && h != [] {
      var a, b := g[0].key, h[0].key;
      if before(a, b) {
        CountOfRow(g, 0);
        CountOfBelow(h, a, before);
        assert false;
      } else if before(b, a) {
        CountOfRow(h, 0);
        CountOfBelow(g, b, before);
        assert false;
      }
      assert a == b;
      CountOfBelow(g[1..], a, before);
      CountOfBelow(h[1..], a, before);
      assert g[0].count == CountOf(g, a) == CountOf(h, a) == h[0].count;
      forall k
        ensures CountOf(g[1..], k) == CountOf(h[1..], k)
      {
        if k != a {
          assert CountOf(g, k) == CountOf(g[1..], k);
        }
      }
      AscendingUnique(g[1..], h[1..], before);
      assert g == [g[0]] + g[1..];
      assert h == [h[0]] + h[1..];
    }
  }

  /** The statistics do not depend on the order the references come in. */
  lemma HitStatisticsOrderIndependent<V(!new)>(a: seq<Reference<V>>, b: seq<Reference<V>>,
                                         before: (Reference<V>, Reference<V>) -> bool)
    requires StrictTotalOrder(before)
    requires forall k :: multiset(a)[k] == multiset(b)[k]
    ensures HitStatistics(a, before) == HitStatistics(b, before)
  {
    HitStatisticsAscending(a, before);
    HitStatisticsAscending(b, before);
    AscendingUnique(HitStatistics(a, before), HitStatistics(b, before), before);
  }

  /** The rows a stable sort of the groups gives under a strict order that
      may tie distinct keys: no row's key comes before the key of an earlier
      row, and no key has two rows. */
  predicate Sorted<V(==)>(hits: seq<Hit<V>>, before: (Reference<V>, Reference<V>) -> bool) {
    forall i, j :: 0 <= i < j < |hits| ==> !before(hits[j].key, hits[i].key) && hits[i].key != hits[j].key
  }

  /** Every row's key may follow x: none comes before it or equals it. */
  predicate Above<V(==)>(hits: seq<Hit<V>>, x: Reference<V>, before: (Reference<V>, Reference<V>) -> bool) {
    forall i :: 0 <= i < |hits| ==> !before(hits[i].key, x) && hits[i].key != x
  }

  lemma SortedCons<V>(x: Hit<V>, tail: seq<Hit<V>>, before: (Reference<V>, Reference<V>) -> bool)
    requires Sorted(tail, before) && Above(tail, x.key, before)
    ensures Sorted([x] + tail, before)
  {
    var h := [x] + tail;
    forall i, j | 0 <= i < j < |h|
      ensures !before(h[j].key, h[i].key) && h[i].key != h[j].key
    {
      assert h[j] == tail[j - 1];
      if i > 0 {
        assert h[i] == tail[i - 1];
      }
    }
  }

  /** Inserting a key that may follow x keeps every key following x. */
  lemma {:induction false} InsertAbove<V(!new)>(hits: seq<Hit<V>>, r: Reference<V>, x: Reference<V>,
                                              before: (Reference<V>, Reference<V>) -> bool)
    requires Above(hits, x, before) && !before(r, x) && r != x
    ensures Above(Insert(hits, r, before), x, before)
  {
    if hits != [] && hits[0].key != r && !before(r, hits[0].key) {
      InsertAbove(hits[1..], r, x, before);
      var h := Insert(hits, r, before);
      assert h == [hits[0]] + Insert(hits[1..], r, before);
    }
  }

  /** Inserting keeps the rows sorted, under any strict order. */
  lemma {:induction false} InsertSorted<V(!new)>(hits: seq<Hit<V>>, r: Reference<V>,
                                               before: (Reference<V>, Reference<V>) -> bool)
    requires StrictOrder(before)
    requires Sorted(hits, before)
    ensures Sorted(Insert(hits, r, before), before)
  {
    if hits == [] {
    } else if hits[0].key == r {
      assert Above(hits[1..], r, before);
      SortedCons(Hit(r, hits[0].count + 1), hits[1..], before);
    } else if before(r, hits[0].key) {
      forall j | 0 <= j < |hits|
        ensures !before(hits[j].key, r) && hits[j].key != r
      {
        if j > 0 {
          assert !before(hits[j].key, hits[0].key);
        }
      }
      SortedCons(Hit(r, 1), hits, before);
    } else {
      InsertSorted(hits[1..], r, before);
      assert Above(hits[1..], hits[0].key, before);
      InsertAbove(hits[1..], r, hits[0].key, before);
      SortedCons(hits[0], Insert(hits[1..], r, before), before);
    }
  }

  /** Under any strict order, ties between distinct keys included, the
      statistics rows are sorted and have one row per key. */
  lemma {:induction false} HitStatisticsSorted<V(!new)>(refs: seq<Reference<V>>,
                                                  before: (Reference<V>, Reference<V>) -> bool)
    requires StrictOrder(before)
    ensures Sorted(HitStatistics(refs, before), before)
  {
    if refs != [] {
      var init := refs[..|refs| - 1];
      HitStatisticsSorted(init, before);
      InsertSorted(HitStatistics(init, before), refs[|refs| - 1], before);
    }
  }

  /** The hit count of every key depends only on the multiset of references,
      whatever the comparison. */
  lemma HitCountsOrderIndependent<V(!new)>(a: seq<Reference<V>>, b: seq<Reference<V>>,
                                          before: (Reference<V>, Reference<V>) -> bool)
    requires forall k :: multiset(a)[k] == multiset(b)[k]
    ensures forall k :: CountOf(HitStatistics(a, before), k) == CountOf(HitStatistics(b, before), k)
  {
  }

  // ---------------------------------------------------------------------
  // From collected results to the two statistics files

  /** `allRecordsList.SelectMany(o => o.PackageReferences)` (or
      AssemblyReferences), in record order. */
  function AllReferences<R, V>(records: seq<R>, refs: R -> seq<Reference<V>>): seq<Reference<V>>
  {
    if records == [] then [] else refs(records[0]) + AllReferences(records[1..], refs)
  }

  /** Every flattened reference belongs to one of the records, and every
      reference of every record is in the flattened list. */
  lemma {:induction false} AllReferencesMembership<R, V>(records: seq<R>, refs: R -> seq<Reference<V>>, x: Reference<V>)
    ensures x in AllReferences(records, refs) <==> exists i :: 0 <= i < |records| && x in refs(records[i])
  {
    if records != [] {
      AllReferencesMembership(records[1..], refs, x);
      if x in AllReferences(records[1..], refs) {
        var i :| 0 <= i < |records[1..]| && x in refs(records[1..][i]);
        assert x in refs(records[i + 1]);
      }
      if i :| 0 <= i < |records| && x in refs(records[i]) {
        if i > 0 {
          assert x in refs(records[1..][i - 1]);
        }
      }
    }
  }

  lemma {:induction false} AllReferencesAppend<R, V>(a: seq<R>, b: seq<R>, refs: R -> seq<Reference<V>>)
    ensures AllReferences(a + b, refs) == AllReferences(a, refs) + AllReferences(b, refs)
  {
    if a == [] {
      assert a + b == b;
    } else {
      assert (a + b)[1..] == a[1..] + b;
      AllReferencesAppend(a[1..], b, refs);
    }
  }

  /** Taking one record out of the middle of the list takes exactly its
      references out of the flattened list. */
  lemma AllReferencesSplit<R, V>(front: seq<R>, m: R, back: seq<R>, refs: R -> seq<Reference<V>>)
    ensures AllReferences(front + [m] + back, refs)
         == AllReferences(front, refs) + refs(m) + AllReferences(back, refs)
  {
    AllReferencesAppend(front + [m], back, refs);
    AllReferencesAppend(front, [m], refs);
    assert AllReferences([m], refs) == refs(m) by {
      assert [m][1..] == [];
    }
  }

  lemma RemoveReferences<R, V(!new)>(front: seq<R>, m: R, back: seq<R>, refs: R -> seq<Reference<V>>)
    ensures multiset(AllReferences(front + [m] + back, refs))
         == multiset(refs(m)) + multiset(AllReferences(front + back, refs))
  {
    AllReferencesSplit(front, m, back, refs);
    AllReferencesAppend(front, back, refs);
    var f, k := AllReferences(front, refs), AllReferences(back, refs);
    assert multiset(f + refs(m) + k) == multiset(f) + multiset(refs(m)) + multiset(k);
    assert multiset(f + k) == multiset(f) + multiset(k);
  }

  lemma AllReferencesRemove<R, V(!new)>(b: seq<R>, j: nat, refs: R -> seq<Reference<V>>)
    requires j < |b|
    ensures multiset(AllReferences(b, refs))
         == multiset(refs(b[j])) + multiset(AllReferences(b[..j] + b[j + 1..], refs))
  {
    SplitAt(b, j);
    RemoveReferences(b[..j], b[j], b[j + 1..], refs);
  }

  lemma SplitAt<R>(b: seq<R>, j: nat)
    requires j < |b|
    ensures b == b[..j] + [b[j]] + b[j + 1..]
  {
  }

  /** Taking one record out of the middle of the list takes exactly that
      record out of its multiset. */
  lemma RemoveMultiset<R>(b: seq<R>, j: nat)
    requires j < |b|
    ensures multiset(b) == multiset{b[j]} + multiset(b[..j] + b[j + 1..])
  {
    var front, back := b[..j], b[j + 1..];
    assert b == front + [b[j]] + back;
    assert multiset(front + [b[j]] + back) == multiset(front) + multiset([b[j]]) + multiset(back);
    assert multiset(front + back) == multiset(front) + multiset(back);
  }

  lemma MultisetCancel<T>(x: multiset<T>, m1: multiset<T>, m2: multiset<T>)
    requires x + m1 == x + m2
    ensures m1 == m2
  {
    forall y
      ensures m1[y] == m2[y]
    {
      assert (x + m1)[y] == (x + m2)[y];
    }
  }

  /** Finds in `b` the first record of `a`; what is left of both lists are
      again permutations of each other. */
  lemma MatchFirst<R>(a: seq<R>, b: seq<R>) returns (j: nat)
    requires a != [] && multiset(a) == multiset(b)
    ensures j < |b| && b[j] == a[0]
    ensures multiset(a[1..]) == multiset(b[..j] + b[j + 1..])
  {
    assert a[0] in multiset(a);
    assert a[0] in b;
    j :| 0 <= j < |b| && b[j] == a[0];
    assert a[..0] + a[1..] == a[1..];
    RemoveMultiset(a, 0);
    RemoveMultiset(b, j);
    MultisetCancel(multiset{a[0]}, multiset(a[1..]), multiset(b[..j] + b[j + 1..]));
  }

  lemma MatchedReferences<R, V(!new)>(a: seq<R>, b: seq<R>, j: nat, refs: R -> seq<Reference<V>>)
    requires a != [] && j < |b| && b[j] == a[0]
    requires multiset(AllReferences(a[1..], refs)) == multiset(AllReferences(b[..j] + b[j + 1..], refs))
    ensures multiset(AllReferences(a, refs)) == multiset(AllReferences(b, refs))
  {
    AllReferencesRemove(b, j, refs);
    assert AllReferences(a, refs) == refs(a[0]) + AllReferences(a[1..], refs);
  }

  lemma {:induction false} AllReferencesPermutation<R, V(!new)>(a: seq<R>, b: seq<R>, refs: R -> seq<Reference<V>>)
    requires multiset(a) == multiset(b)
    ensures multiset(AllReferences(a, refs)) == multiset(AllReferences(b, refs))
    decreases |a|
  {
    if a != [] {
      var j := MatchFirst(a, b);
      AllReferencesPermutation(a[1..], b[..j] + b[j + 1..], refs);
      MatchedReferences(a, b, j, refs);
    } else {
      assert b == [];
    }
  }

  /** The flattened references of two orderings of the same records hold
      every reference equally often. */
  lemma AllReferencesOrderIndependent<R, V(!new)>(a: seq<R>, b: seq<R>, refs: R -> seq<Reference<V>>)
    requires forall x :: multiset(a)[x] == multiset(b)[x]
    ensures forall k :: multiset(AllReferences(a, refs))[k] == multiset(AllReferences(b, refs))[k]
  {
    assert multiset(a) == multiset(b);
    AllReferencesPermutation(a, b, refs);
  }

  /** The packages_stats.csv rows: package references grouped by
      (PackageName, PackageVersion), ordered by name then version. */
  function PackageStatistics<AV, PV(==,!new)>(records: seq<LookupResult<AV, PV>>,
                                     nameBefore: (string, string) -> bool,
                                     versionBefore: (PV, PV) -> bool): seq<Hit<PV>>
  {
    HitStatistics(AllReferences(records, (o: LookupResult<AV, PV>) => o.packageReferences),
                  (a: Reference<PV>, b: Reference<PV>) => KeyBefore(nameBefore, versionBefore, a, b))
  }

  /** The assemblies_stats.csv rows: assembly references grouped by
      (AssemblyName, AssemblyVersion), ordered by name then version. */
  function AssemblyStatistics<AV(==,!new), PV>(records: seq<LookupResult<AV, PV>>,
                                      nameBefore: (string, string) -> bool,
                                      versionBefore: (AV, AV) -> bool): seq<Hit<AV>>
  {
    HitStatistics(AllReferences(records, (o: LookupResult<AV, PV>) => o.assemblyReferences),
                  (a: Reference<AV>, b: Reference<AV>) => KeyBefore(nameBefore, versionBefore, a, b))
  }

  /** Under a name comparison that may tie distinct names (a strict weak
      order) and strict version orders, both tables are sorted by name,
      then version, with one row per key. */
  lemma StatisticsSorted<AV(!new), PV(!new)>(records: seq<LookupResult<AV, PV>>,
                                           nameBefore: (string, string) -> bool,
                                           assemblyVersionBefore: (AV, AV) -> bool,
                                           packageVersionBefore: (PV, PV) -> bool)
    requires StrictWeakOrder(nameBefore)
    requires StrictOrder(assemblyVersionBefore) && StrictOrder(packageVersionBefore)
    ensures Sorted(PackageStatistics(records, nameBefore, packageVersionBefore),
                   (a: Reference<PV>, b: Reference<PV>) => KeyBefore(nameBefore, packageVersionBefore, a, b))
    ensures Sorted(AssemblyStatistics(records, nameBefore, assemblyVersionBefore),
                   (a: Reference<AV>, b: Reference<AV>) => KeyBefore(nameBefore, assemblyVersionBefore, a, b))
  {
    KeyBeforeIsStrict(nameBefore, packageVersionBefore);
    KeyBeforeIsStrict(nameBefore, assemblyVersionBefore);
    HitStatisticsSorted(AllReferences(records, (o: LookupResult<AV, PV>) => o.packageReferences),
                        (a: Reference<PV>, b: Reference<PV>) => KeyBefore(nameBefore, packageVersionBefore, a, b));
    HitStatisticsSorted(AllReferences(records, (o: LookupResult<AV, PV>) => o.assemblyReferences),
                        (a: Reference<AV>, b: Reference<AV>) => KeyBefore(nameBefore, assemblyVersionBefore, a, b));
  }
}
