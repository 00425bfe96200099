/** The aggregators: `generateKindStats` (main.go:1058-1076), which tallies
    resources per kind and sorts the tallies by kind, and `countNamespaces`
    (main.go:1079-1095), which counts distinct namespaces. */
module Stats {

  import opened Values
  import opened Text

  datatype KindStat = KindStat(kind: string, count: int)

  // ---------------------------------------------------------------------
  // What generateKindStats promises

  /** The number of resources of kind `k`. */
  function CountKind(rs: seq<Resource>, k: string): nat
  {
    if rs == [] then 0
    else CountKind(rs[..|rs| - 1], k) + (if rs[|rs| - 1].kind == k then 1 else 0)
  }

  /** Some resource has kind `k`. */
  ghost predicate HasKind(rs: seq<Resource>, k: string)
  {
    exists i :: 0 <= i < |rs| && rs[i].kind == k
  }

  /** A kind occurs exactly when its count is positive. */
  lemma {:induction false} CountKindPositive(rs: seq<Resource>, k: string)
    ensures CountKind(rs, k) > 0 <==> HasKind(rs, k)
  {
    if rs != [] {
      var init := rs[..|rs| - 1];
      CountKindPositive(init, k);
      if HasKind(init, k) {
        var i :| 0 <= i < |init| && init[i].kind == k;
        assert rs[i].kind == k;
      }
      if HasKind(rs, k) && rs[|rs| - 1].kind != k {
        var i :| 0 <= i < |rs| && rs[i].kind == k;
        assert init[i].kind == k;
      }
    }
  }

  /** The stats are strictly ascending by kind. */
  predicate Ascending(stats: seq<KindStat>)
  {
    forall p, q :: 0 <= p < q < |stats| ==> Less(stats[p].kind, stats[q].kind)
  }

  /** Some entry is for kind `k`. */
  ghost predicate Lists(stats: seq<KindStat>, k: string)
  {
    exists i :: 0 <= i < |stats| && stats[i].kind == k
  }

  /** `stats` is a kind-stats list of `rs`: strictly ascending by kind, one
      entry for each kind that occurs and no other, each with its count. */
  ghost predicate IsKindStats(rs: seq<Resource>, stats: seq<KindStat>)
  {
    && Ascending(stats)
    && (forall i :: 0 <= i < |stats| ==> stats[i].count == CountKind(rs, stats[i].kind))
    && (forall k :: HasKind(rs, k) <==> Lists(stats, k))
  }

  // ---------------------------------------------------------------------
  // generateKindStats

  /** generateKindStats: tallies kinds in a map, lists the map's entries in
      whatever order iterating it gives, then sorts them by kind. */
  method GenerateKindStats(resources: seq<Resource>) returns (stats: seq<KindStat>)
    ensures IsKindStats(resources, stats)
  {
    var kindCounts := TallyKinds(resources);
    var unordered := MapEntries(kindCounts);
    var a := new KindStat[|unordered|](i requires 0 <= i < |unordered| => unordered[i]);
    assert a[..] == unordered;
    SortByKind(a);
    stats := a[..];
    SortedEntries(resources, kindCounts, unordered, stats);
  }

  /** Sorting the map's entries keeps them the kind stats of the resources. */
  lemma SortedEntries(rs: seq<Resource>, kindCounts: map<string, int>, unordered: seq<KindStat>, stats: seq<KindStat>)
    requires forall k :: k in kindCounts <==> HasKind(rs, k)
    requires forall k :: k in kindCounts ==> kindCounts[k] == CountKind(rs, k)
    requires forall i :: 0 <= i < |unordered| ==>
               unordered[i].kind in kindCounts && unordered[i].count == kindCounts[unordered[i].kind]
    requires forall k :: k in kindCounts ==> Lists(unordered, k)
    requires multiset(stats) == multiset(unordered)
    requires Ascending(stats)
    ensures IsKindStats(rs, stats)
  {
    forall k | Lists(unordered, k) ensures Lists(stats, k) {
      var i :| 0 <= i < |unordered| && unordered[i].kind == k;
      assert unordered[i] in multiset(stats);
    }
    forall i | 0 <= i < |stats|
      ensures stats[i].kind in kindCounts && stats[i].count == kindCounts[stats[i].kind]
    {
      assert stats[i] in multiset(unordered);
    }
  }

  /** The first loop of generateKindStats: `kindCounts[kind]++` over the
      resources, a missing key counting as zero. */
  method TallyKinds(resources: seq<Resource>) returns (kindCounts: map<string, int>)
    ensures forall k :: k in kindCounts <==> HasKind(resources, k)
    ensures forall k :: k in kindCounts ==> kindCounts[k] == CountKind(resources, k)
  {
    kindCounts := map[];
    for i := 0 to |resources|
      invariant forall k :: k in kindCounts <==> HasKind(resources[..i], k)
      invariant forall k :: k in kindCounts ==> kindCounts[k] == CountKind(resources[..i], k)
    {
      var k := resources[i].kind;
      PrefixStep(resources, i);
      if k !in kindCounts {
        CountKindPositive(resources[..i], k);
      }
      kindCounts := kindCounts[k := (if k in kindCounts then kindCounts[k] else 0) + 1];
    }
    assert resources[..|resources|] == resources;
  }

  /** One more resource adds its kind and one to its kind's count. */
  lemma PrefixStep(rs: seq<Resource>, i: nat)
    requires i < |rs|
    ensures forall k :: HasKind(rs[..i + 1], k) <==> HasKind(rs[..i], k) || k == rs[i].kind
    ensures forall k :: CountKind(rs[..i + 1], k) == CountKind(rs[..i], k) + (if rs[i].kind == k then 1 else 0)
  {
    assert rs[..i + 1][..i] == rs[..i];
    assert rs[..i + 1][i] == rs[i];
    forall k ensures HasKind(rs[..i + 1], k) <==> HasKind(rs[..i], k) || k == rs[i].kind {
      if HasKind(rs[..i + 1], k) {
        var j :| 0 <= j < i + 1 && rs[..i + 1][j].kind == k;
        if j < i { assert rs[..i][j].kind == k; }
      }
      if HasKind(rs[..i], k) {
        var j :| 0 <= j < i && rs[..i][j].kind == k;
        assert rs[..i + 1][j].kind == k;
      }
    }
  }

  /** The second loop of generateKindStats: one entry per key of the map, in
      an order the map does not fix. */
  method MapEntries(kindCounts: map<string, int>) returns (entries: seq<KindStat>)
    ensures DistinctKinds(entries)
    ensures forall i :: 0 <= i < |entries| ==>
              entries[i].kind in kindCounts && entries[i].count == kindCounts[entries[i].kind]
    ensures forall k :: k in kindCounts ==> Lists(entries, k)
  {
    entries := [];
    var rest := kindCounts.Keys;
    while rest != {}
      invariant rest <= kindCounts.Keys
      invariant forall i :: 0 <= i < |entries| ==>
                  entries[i].kind in kindCounts && entries[i].kind !in rest
                  && entries[i].count == kindCounts[entries[i].kind]
      invariant forall k :: k in kindCounts && k !in rest ==> Lists(entries, k)
      invariant DistinctKinds(entries)
      decreases rest
    {
      var k :| k in rest;
      var before := entries;
      entries := entries + [KindStat(k, kindCounts[k])];
      rest := rest - {k};
      forall k' | k' in kindCounts && k' !in rest ensures Lists(entries, k') {
        if k' == k {
          assert entries[|before|].kind == k;
        } else {
          var i :| 0 <= i < |before| && before[i].kind == k';
          assert entries[i].kind == k';
        }
      }
    }
  }

  /** No two entries share a kind. */
  predicate DistinctKinds(stats: seq<KindStat>)
  {
    Distinct(Kinds(stats))
  }

  /** Entries lo..hi of `a` are strictly ascending by kind. */
  ghost predicate AscendingIn(a: array<KindStat>, lo: int, hi: int)
    requires 0 <= lo <= hi <= a.Length
    reads a
  {
    forall p, q :: lo <= p < q < hi ==> Less(a[p].kind, a[q].kind)
  }

  ghost predicate DistinctIn(a: array<KindStat>)
    reads a
  {
    forall p, q :: 0 <= p < a.Length && 0 <= q < a.Length && p != q ==> a[p].kind != a[q].kind
  }

  /** Exchanges two adjacent entries. */
  method SwapAdjacent(a: array<KindStat>, j: int)
    requires 0 < j < a.Length
    requires DistinctIn(a)
    modifies a
    ensures a[j - 1] == old(a[j]) && a[j] == old(a[j - 1])
    ensures forall k :: 0 <= k < a.Length && k != j - 1 && k != j ==> a[k] == old(a[k])
    ensures multiset(a[..]) == old(multiset(a[..]))
    ensures DistinctIn(a)
  {
    a[j - 1], a[j] := a[j], a[j - 1];
  }

  /** sort.Slice(stats, less by kind), as an insertion sort. */
  method SortByKind(a: array<KindStat>)
    requires DistinctKinds(a[..])
    modifies a
    ensures Ascending(a[..])
    ensures multiset(a[..]) == old(multiset(a[..]))
  {
    assert DistinctIn(a) by {
      forall p, q | 0 <= p < a.Length && 0 <= q < a.Length && p != q ensures a[p].kind != a[q].kind {
        if p < q { assert a[..][p] == a[p] && a[..][q] == a[q]; }
        else { assert a[..][q] == a[q] && a[..][p] == a[p]; }
      }
    }
    var i := 0;
    while i < a.Length
      invariant 0 <= i <= a.Length
      invariant AscendingIn(a, 0, i)
      invariant DistinctIn(a)
      invariant multiset(a[..]) == old(multiset(a[..]))
    {
      var j := i;
      while j > 0 && Less(a[j].kind, a[j - 1].kind)
        invariant 0 <= j <= i
        invariant AscendingIn(a, 0, j) && AscendingIn(a, j, i + 1)
        invariant forall p, q :: 0 <= p < j < q <= i ==> Less(a[p].kind, a[q].kind)
        invariant DistinctIn(a)
        invariant multiset(a[..]) == old(multiset(a[..]))
      {
        SwapAdjacent(a, j);
        j := j - 1;
      }
      InsertionDone(a, j, i);
      i := i + 1;
    }
  }

  /** Once the new entry stops moving down, the first i + 1 entries are in
      order. */
  lemma InsertionDone(a: array<KindStat>, j: int, i: int)
    requires 0 <= j <= i < a.Length
    requires AscendingIn(a, 0, j) && AscendingIn(a, j, i + 1)
    requires forall p, q :: 0 <= p < j < q <= i ==> Less(a[p].kind, a[q].kind)
    requires DistinctIn(a)
    requires j == 0 || !Less(a[j].kind, a[j - 1].kind)
    ensures AscendingIn(a, 0, i + 1)
  {
    if j > 0 {
      LessTotal(a[j - 1].kind, a[j].kind);
      forall p | 0 <= p < j - 1 ensures Less(a[p].kind, a[j].kind) {
        LessTransitive(a[p].kind, a[j - 1].kind, a[j].kind);
      }
    }
  }

  // ---------------------------------------------------------------------
  // Properties of kind stats

  /** The sum of the counts of a stats list. */
  function Total(stats: seq<KindStat>): int
  {
    if stats == [] then 0 else Total(stats[..|stats| - 1]) + stats[|stats| - 1].count
  }

  /** The kinds of a stats list, in order. */
  function Kinds(stats: seq<KindStat>): (ks: seq<string>)
    ensures |ks| == |stats| && forall i :: 0 <= i < |ks| ==> ks[i] == stats[i].kind
  {
    seq(|stats|, i requires 0 <= i < |stats| => stats[i].kind)
  }

  /** The summed counts of the kinds `ks` among `rs`. */
  function CountAll(rs: seq<Resource>, ks: seq<string>): int
  {
    if ks == [] then 0 else CountAll(rs, ks[..|ks| - 1]) + CountKind(rs, ks[|ks| - 1])
  }

  /** How often `k` occurs in `ks`. */
  function Occurrences(ks: seq<string>, k: string): int
  {
    if ks == [] then 0 else Occurrences(ks[..|ks| - 1], k) + (if ks[|ks| - 1] == k then 1 else 0)
  }

  predicate Distinct(ks: seq<string>)
  {
    forall p, q :: 0 <= p < q < |ks| ==> ks[p] != ks[q]
  }

  /** One more resource adds one to the total once for each time its kind
      is listed. */
  lemma {:induction false} CountAllSnoc(rs: seq<Resource>, r: Resource, ks: seq<string>)
    ensures CountAll(rs + [r], ks) == CountAll(rs, ks) + Occurrences(ks, r.kind)
  {
    if ks != [] {
      CountAllSnoc(rs, r, ks[..|ks| - 1]);
      assert (rs + [r])[..|rs|] == rs;
    }
  }

  lemma {:induction false} OccurrencesDistinct(ks: seq<string>, k: string)
    requires Distinct(ks)
    ensures Occurrences(ks, k) == if k in ks then 1 else 0
  {
    if ks != [] {
      var init := ks[..|ks| - 1];
      OccurrencesDistinct(init, k);
      if k in init {
        var i :| 0 <= i < |init| && init[i] == k;
        assert ks[i] == k;
      }
      if k in ks && ks[|ks| - 1] != k {
        var i :| 0 <= i < |ks| && ks[i] == k;
        assert init[i] == k;
      }
    }
  }

  /** Counting every kind of a list that names each kind of `rs` once
      counts every resource once. */
  lemma {:induction false} CountAllCovers(rs: seq<Resource>, ks: seq<string>)
    requires Distinct(ks)
    requires forall i :: 0 <= i < |rs| ==> rs[i].kind in ks
    ensures CountAll(rs, ks) == |rs|
  {
    if rs == [] {
      CountAllZero(ks);
    } else {
      var init := rs[..|rs| - 1];
      var r := rs[|rs| - 1];
      assert init + [r] == rs;
      CountAllCovers(init, ks);
      CountAllSnoc(init, r, ks);
      OccurrencesDistinct(ks, r.kind);
    }
  }

  lemma {:induction false} CountAllZero(ks: seq<string>)
    ensures CountAll([], ks) == 0
  {
    if ks != [] {
      CountAllZero(ks[..|ks| - 1]);
    }
  }

  /** The total of a stats list whose counts are those of `rs` sums those
      counts over its kinds. */
  lemma {:induction false} TotalIsCountAll(rs: seq<Resource>, stats: seq<KindStat>)
    requires forall i :: 0 <= i < |stats| ==> stats[i].count == CountKind(rs, stats[i].kind)
    ensures Total(stats) == CountAll(rs, Kinds(stats))
  {
    if stats != [] {
      var init := stats[..|stats| - 1];
      TotalIsCountAll(rs, init);
      assert Kinds(stats)[..|stats| - 1] == Kinds(init);
    }
  }

  /** A kind-stats list has one entry per kind, each with a count of at least
      one, and its counts add up to the number of resources; it is empty
      exactly when there are no resources. */
  lemma KindStatsShape(rs: seq<Resource>, stats: seq<KindStat>)
    requires IsKindStats(rs, stats)
    ensures Distinct(Kinds(stats))
    ensures forall i :: 0 <= i < |stats| ==> stats[i].count >= 1
    ensures Total(stats) == |rs|
    ensures stats == [] <==> rs == []
  {
    var ks := Kinds(stats);
    forall p, q | 0 <= p < q < |ks| ensures ks[p] != ks[q] {
      if ks[p] == ks[q] { LessIrreflexive(ks[p]); }
    }
    forall i | 0 <= i < |stats| ensures stats[i].count >= 1 {
      assert Lists(stats, stats[i].kind);
      CountKindPositive(rs, stats[i].kind);
    }
    forall i | 0 <= i < |rs| ensures rs[i].kind in ks {
      assert HasKind(rs, rs[i].kind);
      var j :| 0 <= j < |stats| && stats[j].kind == rs[i].kind;
      assert ks[j] == rs[i].kind;
    }
    TotalIsCountAll(rs, stats);
    CountAllCovers(rs, ks);
    if rs != [] {
      assert HasKind(rs, rs[0].kind);
    }
  }

  /** Two non-empty strictly ascending lists that list the same kinds start
      with the same kind: the least one. */
  lemma AscendingHeads(s1: seq<KindStat>, s2: seq<KindStat>)
    requires Ascending(s1) && Ascending(s2) && s1 != [] && s2 != []
    requires forall k :: Lists(s1, k) <==> Lists(s2, k)
    ensures s1[0].kind == s2[0].kind
  {
    assert Lists(s1, s1[0].kind);
    var j :| 0 <= j < |s2| && s2[j].kind == s1[0].kind;
    assert Lists(s2, s2[0].kind);
    var i :| 0 <= i < |s1| && s1[i].kind == s2[0].kind;
    if j > 0 {
      if i == 0 {
        LessIrreflexive(s1[0].kind);
      } else {
        LessAsymmetric(s1[0].kind, s2[0].kind);
      }
    }
  }

  /** Past a shared first kind, the rests list the same kinds. */
  lemma AscendingTails(s1: seq<KindStat>, s2: seq<KindStat>, k: string)
    requires Ascending(s1) && Ascending(s2) && s1 != [] && s2 != []
    requires forall k :: Lists(s1, k) <==> Lists(s2, k)
    requires s1[0].kind == s2[0].kind
    requires Lists(s1[1..], k)
    ensures Lists(s2[1..], k)
  {
    var a :| 0 <= a < |s1| - 1 && s1[1..][a].kind == k;
    assert Lists(s1, k) by { assert s1[a + 1].kind == k; }
    var b :| 0 <= b < |s2| && s2[b].kind == k;
    if b == 0 {
      assert Less(s1[0].kind, s1[a + 1].kind);
      LessIrreflexive(k);
    } else {
      assert s2[1..][b - 1].kind == k;
    }
  }

  /** Two strictly ascending lists that list the same kinds list them in the
      same order. */
  lemma {:induction false} AscendingSameKinds(s1: seq<KindStat>, s2: seq<KindStat>)
    requires Ascending(s1) && Ascending(s2)
    requires forall k :: Lists(s1, k) <==> Lists(s2, k)
    ensures Kinds(s1) == Kinds(s2)
  {
    if s1 == [] || s2 == [] {
      if s2 != [] { assert Lists(s2, s2[0].kind); }
      if s1 != [] { assert Lists(s1, s1[0].kind); }
    } else {
      AscendingHeads(s1, s2);
      var t1, t2 := s1[1..], s2[1..];
      forall k ensures Lists(t1, k) <==> Lists(t2, k) {
        if Lists(t1, k) { AscendingTails(s1, s2, k); }
        if Lists(t2, k) { AscendingTails(s2, s1, k); }
      }
      AscendingSameKinds(t1, t2);
      assert Kinds(s1) == [s1[0].kind] + Kinds(t1);
      assert Kinds(s2) == [s2[0].kind] + Kinds(t2);
    }
  }

  /** There is only one kind-stats list of a resource list: whatever order
      the map iteration produced, the sorted result is the same. */
  lemma KindStatsUnique(rs: seq<Resource>, s1: seq<KindStat>, s2: seq<KindStat>)
    requires IsKindStats(rs, s1) && IsKindStats(rs, s2)
    ensures s1 == s2
  {
    AscendingSameKinds(s1, s2);
    assert |s1| == |Kinds(s1)| == |Kinds(s2)| == |s2|;
    forall i | 0 <= i < |s1| ensures s1[i] == s2[i] {
      assert Kinds(s1)[i] == Kinds(s2)[i];
    }
  }

  /** Three Pods and a Service give [(Pod, 3), (Service, 1)]. */
  lemma KindStatsExample(rs: seq<Resource>, stats: seq<KindStat>)
    requires |rs| == 4 && rs[0].kind == rs[1].kind == rs[2].kind == "Pod" && rs[3].kind == "Service"
    requires IsKindStats(rs, stats)
    ensures stats == [KindStat("Pod", 3), KindStat("Service", 1)]
  {
    ExampleIsKindStats(rs);
    KindStatsUnique(rs, stats, [KindStat("Pod", 3), KindStat("Service", 1)]);
  }

  lemma ExampleCounts(rs: seq<Resource>)
    requires |rs| == 4 && rs[0].kind == rs[1].kind == rs[2].kind == "Pod" && rs[3].kind == "Service"
    ensures CountKind(rs, "Pod") == 3 && CountKind(rs, "Service") == 1
  {
    assert rs[..3][..2] == rs[..2] && rs[..2][..1] == rs[..1] && rs[..1][..0] == [];
    assert CountKind(rs[..1], "Pod") == 1 && CountKind(rs[..1], "Service") == 0;
    assert CountKind(rs[..2], "Pod") == 2 && CountKind(rs[..2], "Service") == 0;
    assert CountKind(rs[..3], "Pod") == 3 && CountKind(rs[..3], "Service") == 0;
  }

  lemma ExampleIsKindStats(rs: seq<Resource>)
    requires |rs| == 4 && rs[0].kind == rs[1].kind == rs[2].kind == "Pod" && rs[3].kind == "Service"
    ensures IsKindStats(rs, [KindStat("Pod", 3), KindStat("Service", 1)])
  {
    var expected := [KindStat("Pod", 3), KindStat("Service", 1)];
    ExampleCounts(rs);
    assert Less("Pod", "Service");
    forall k ensures HasKind(rs, k) <==> Lists(expected, k) {
      if HasKind(rs, k) {
        var i :| 0 <= i < |rs| && rs[i].kind == k;
        assert expected[if i < 3 then 0 else 1].kind == k;
      }
      if Lists(expected, k) {
        var i :| 0 <= i < 2 && expected[i].kind == k;
        assert rs[if i == 0 then 0 else 3].kind == k;
      }
    }
  }

  // ---------------------------------------------------------------------
  // countNamespaces

  /** The `%v` text of a resource's `namespace` metadata value, as a set
      holding none or one text. */
  function NamespaceOf(r: Resource, show: Value -> string): (ns: set<string>)
    ensures |ns| <= 1
  {
    match MetadataField(r, "namespace")
    case Some(v) => {show(v)}
    case None => {}
  }

  /** The `%v` texts of the `namespace` metadata values of `rs`. */
  function Namespaces(rs: seq<Resource>, show: Value -> string): (ns: set<string>)
    ensures |ns| <= |rs|
  {
    if rs == [] then {}
    else Namespaces(rs[..|rs| - 1], show) + NamespaceOf(rs[|rs| - 1], show)
  }

  /** A text is a namespace exactly when some resource has a `namespace`
      metadata value with that text. */
  lemma {:induction false} NamespacesMembers(rs: seq<Resource>, show: Value -> string, ns: string)
    ensures ns in Namespaces(rs, show) <==>
              exists i :: 0 <= i < |rs| && MetadataField(rs[i], "namespace").Some?
                          && show(MetadataField(rs[i], "namespace").value) == ns
  {
    if rs != [] {
      var init := rs[..|rs| - 1];
      NamespacesMembers(init, show, ns);
      if ns in Namespaces(init, show) {
        var i :| 0 <= i < |init| && MetadataField(init[i], "namespace").Some?
                 && show(MetadataField(init[i], "namespace").value) == ns;
        assert init[i] == rs[i];
      }
      if exists i :: 0 <= i < |rs| && MetadataField(rs[i], "namespace").Some?
                     && show(MetadataField(rs[i], "namespace").value) == ns {
        var i :| 0 <= i < |rs| && MetadataField(rs[i], "namespace").Some?
                 && show(MetadataField(rs[i], "namespace").value) == ns;
        if i < |rs| - 1 {
          assert init[i] == rs[i];
        }
      }
    }
  }

  /** One more resource adds the text of its namespace, if it has one. */
  lemma NamespacesStep(rs: seq<Resource>, i: nat, show: Value -> string)
    requires i < |rs|
    ensures Namespaces(rs[..i + 1], show) == Namespaces(rs[..i], show) + NamespaceOf(rs[i], show)
  {
    assert rs[..i + 1][..i] == rs[..i];
  }

  /** Setting a key of a set-like map adds that key. */
  lemma KeysAfterInsert(m: map<string, bool>, k: string)
    ensures m[k := true].Keys == m.Keys + {k}
  {
  }

  /** The result countNamespaces reports for a set of distinct namespaces. */
  function NamespaceCount(namespaces: set<string>): int
  {
    if namespaces == {} then 1 else |namespaces|
  }

  /** countNamespaces: the number of distinct namespace texts, or 1 when no
      resource has one (cluster-scoped resources). */
  method CountNamespaces(resources: seq<Resource>, show: Value -> string) returns (n: int)
    ensures n == NamespaceCount(Namespaces(resources, show))
    ensures 1 <= n <= if |resources| == 0 then 1 else |resources|
  {
    var namespaces: map<string, bool> := map[];
    for i := 0 to |resources|
      invariant namespaces.Keys == Namespaces(resources[..i], show)
    {
      NamespacesStep(resources, i, show);
      var resource := resources[i];
      if resource.metadata.Some? {
        if "namespace" in resource.metadata.value {
          var namespace := resource.metadata.value["namespace"];
          assert NamespaceOf(resource, show) == {show(namespace)};
          KeysAfterInsert(namespaces, show(namespace));
          namespaces := namespaces[show(namespace) := true];
          continue;
        }
      }
      assert NamespaceOf(resource, show) == {};
    }
    assert resources[..|resources|] == resources;
    if |namespaces| == 0 {
      return 1;
    }
    return |namespaces|;
  }

  /** A namespace occurring among three resources is "a" or "b" when their
      namespaces are "a", "b" and "a", and both occur. */
  lemma ExampleNamespaces(rs: seq<Resource>, show: Value -> string, ns: string)
    requires |rs| == 3
    requires forall i :: 0 <= i < 3 ==> MetadataField(rs[i], "namespace").Some?
    requires show(MetadataField(rs[0], "namespace").value) == "a"
    requires show(MetadataField(rs[1], "namespace").value) == "b"
    requires show(MetadataField(rs[2], "namespace").value) == "a"
    ensures ns in Namespaces(rs, show) <==> ns == "a" || ns == "b"
  {
    NamespacesMembers(rs, show, ns);
    if ns in Namespaces(rs, show) {
      var i :| 0 <= i < |rs| && MetadataField(rs[i], "namespace").Some?
               && show(MetadataField(rs[i], "namespace").value) == ns;
      assert i == 0 || i == 1 || i == 2;
    }
    if ns == "b" {
      assert show(MetadataField(rs[1], "namespace").value) == ns;
    }
  }

  /** Namespaces "a", "b" and "a" count as two. */
  lemma NamespaceCountExample(rs: seq<Resource>, show: Value -> string)
    requires |rs| == 3
    requires forall i :: 0 <= i < 3 ==> MetadataField(rs[i], "namespace").Some?
    requires show(MetadataField(rs[0], "namespace").value) == "a"
    requires show(MetadataField(rs[1], "namespace").value) == "b"
    requires show(MetadataField(rs[2], "namespace").value) == "a"
    ensures NamespaceCount(Namespaces(rs, show)) == 2
  {
    forall ns
      ensures ns in Namespaces(rs, show) <==> ns in {"a", "b"}
    {
      ExampleNamespaces(rs, show, ns);
    }
    assert Namespaces(rs, show) == {"a", "b"};
    assert |{"a", "b"}| == 2 by {
      assert "a" != "b";
    }
  }
}
