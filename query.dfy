/**
 * What one call of `Search` computes (SearchEngine.cs, Search), stated as
 * functions of the lookup and the request: the normalisation of the
 * options, the combinations (colors outer, sizes inner), the concatenated
 * matches and the two counter tables; followed by the properties the engine
 * promises of them.
 */
module Evaluation {
  import opened Wrappers
  import opened Catalog
  import opened Lookup

  /** The requested facet values of a `SearchOptions`, as values. */
  datatype Request = Request(colors: seq<Color>, sizes: seq<Size>)

  /** What `Search` returns: the matched shirts and one counter per known size and per known color. */
  datatype SearchResults = SearchResults(shirts: seq<Shirt>, sizeCounts: seq<SizeCount>, colorCounts: seq<ColorCount>)

  /**
   * Absent options count as fresh ones; an empty color or size list stands
   * for the whole enumeration, a non-empty one is kept as it is (repeats
   * included).
   */
  function Normalize(options: Option<Request>): (q: Request)
    ensures q.colors != [] && q.sizes != []
    ensures options.Some? && options.value.colors != [] ==> q.colors == options.value.colors
    ensures options.Some? && options.value.sizes != [] ==> q.sizes == options.value.sizes
    ensures options.None? || options.value.colors == [] ==> q.colors == AllColors
    ensures options.None? || options.value.sizes == [] ==> q.sizes == AllSizes
  {
    var o := if options.Some? then options.value else Request([], []);
    Request(if o.colors == [] then AllColors else o.colors, if o.sizes == [] then AllSizes else o.sizes)
  }

  /** The combinations of one color with every requested size, in size order. */
  function Row(c: Color, sizes: seq<Size>): (ks: seq<Key>)
    ensures |ks| == |sizes|
    ensures forall j :: 0 <= j < |sizes| ==> ks[j] == (sizes[j], c)
  {
    if sizes == [] then [] else [(sizes[0], c)] + Row(c, sizes[1..])
  }

  /** The query `from col in colors from size in sizes select (size, col)`. */
  function Combos(colors: seq<Color>, sizes: seq<Size>): seq<Key>
  {
    if colors == [] then [] else Row(colors[0], sizes) + Combos(colors[1..], sizes)
  }

  /** The combinations are exactly the pairs of a requested size with a requested color. */
  lemma {:induction false} CombosMembers(colors: seq<Color>, sizes: seq<Size>, k: Key)
    ensures k in Combos(colors, sizes) <==> ColorOf(k) in colors && SizeOf(k) in sizes
  {
    if colors != [] {
      var row := Row(colors[0], sizes);
      if ColorOf(k) == colors[0] && SizeOf(k) in sizes {
        var j :| 0 <= j < |sizes| && sizes[j] == SizeOf(k);
        assert row[j] == k;
      }
      assert colors == [colors[0]] + colors[1..];
      CombosMembers(colors[1..], sizes, k);
    }
  }

  /** The shirts gathered for the combinations `ks`, taken in order, each list as stored. */
  function Matched(lookup: Index, ks: seq<Key>): seq<Shirt>
  {
    if ks == [] then []
    else Matched(lookup, ks[..|ks| - 1]) + Probe(lookup, ks[|ks| - 1])
  }

  /** The counter of facet value `v` after the combinations `ks`: the list lengths of the combinations having it. */
  function Tally<T(==)>(lookup: Index, ks: seq<Key>, facet: Key -> T, v: T): nat
  {
    if ks == [] then 0
    else
      var k := ks[|ks| - 1];
      Tally(lookup, ks[..|ks| - 1], facet, v) + (if facet(k) == v then |Probe(lookup, k)| else 0)
  }

  /** A counter table over the values `all`: one entry per value, in that order, holding its tally. */
  function Table<T(==)>(lookup: Index, ks: seq<Key>, facet: Key -> T, all: seq<T>): seq<FacetCount<T>>
  {
    seq(|all|, i requires 0 <= i < |all| => FacetCount(all[i], Tally(lookup, ks, facet, all[i])))
  }

  /** `List.Find` on a counter table: the position of the first entry for value `v`. */
  function FindIndex<T(==)>(t: seq<FacetCount<T>>, v: T): (j: nat)
    requires exists i :: 0 <= i < |t| && t[i].value == v
    ensures j < |t| && t[j].value == v
    ensures forall i :: 0 <= i < j ==> t[i].value != v
  {
    if t[0].value == v then 0
    else
      assert exists i :: 0 <= i < |t[1..]| && t[1..][i].value == v by {
        var i :| 0 <= i < |t| && t[i].value == v;
        assert t[1..][i - 1] == t[i];
      }
      1 + FindIndex(t[1..], v)
  }

  /** A counter table whose first entry for `v` has `amount` more. */
  function Bumped<T(==)>(t: seq<FacetCount<T>>, v: T, amount: nat): seq<FacetCount<T>>
    requires exists i :: 0 <= i < |t| && t[i].value == v
  {
    var j := FindIndex(t, v);
    t[j := FacetCount(v, t[j].count + amount)]
  }

  /** The sum of the counters of a table. */
  function Total<T>(t: seq<FacetCount<T>>): nat
  {
    if t == [] then 0 else t[0].count + Total(t[1..])
  }

  /** The results of a search over `lookup` for the (already normalised) request `q`. */
  function Evaluate(lookup: Index, q: Request): SearchResults
  {
    var ks := Combos(q.colors, q.sizes);
    SearchResults(Matched(lookup, ks), Table(lookup, ks, SizeOf, AllSizes), Table(lookup, ks, ColorOf, AllColors))
  }

  /** The number of shirts of `xs` whose facet is `v`. */
  function CountFacet<T(==)>(xs: seq<Shirt>, facet: Key -> T, v: T): nat
  {
    if xs == [] then 0
    else (if facet(KeyOf(xs[0])) == v then 1 else 0) + CountFacet(xs[1..], facet, v)
  }

  /** The catalog shirts a request asks for: color among its colors and size among its sizes, in catalog order. */
  function Selected(catalog: seq<Shirt>, q: Request): (r: seq<Shirt>)
    ensures forall x :: x in r <==> x in catalog && x.color in q.colors && x.size in q.sizes
  {
    if catalog == [] then []
    else
      var x := catalog[0];
      (if x.color in q.colors && x.size in q.sizes then [x] else []) + Selected(catalog[1..], q)
  }

  // ---------------------------------------------------------------------
  // Order of the combinations and of the matched shirts

  /** Combination number `i * |sizes| + j` pairs the `j`-th size with the `i`-th color: colors outer, sizes inner. */
  lemma {:induction false} ComboOrder(colors: seq<Color>, sizes: seq<Size>, i: nat, j: nat)
    requires i < |colors| && j < |sizes|
    ensures var p := (i as int) * |sizes| + j;
      p < |Combos(colors, sizes)| && Combos(colors, sizes)[p] == (sizes[j], colors[i])
  {
    var n := |sizes|;
    if i > 0 {
      ComboOrder(colors[1..], sizes, i - 1, j);
      ComboShift(colors, sizes, (i - 1) * n + j);
      AddMul(1, i - 1, n);
    } else {
      assert (i as int) * n + j == j;
    }
  }

  /** The combinations of the later colors follow the first color's row. */
  lemma ComboShift(colors: seq<Color>, sizes: seq<Size>, q: int)
    requires colors != [] && 0 <= q < |Combos(colors[1..], sizes)|
    ensures |sizes| + q < |Combos(colors, sizes)| && Combos(colors, sizes)[|sizes| + q] == Combos(colors[1..], sizes)[q]
  {
    var row, rest := Row(colors[0], sizes), Combos(colors[1..], sizes);
    assert (row + rest)[|sizes| + q] == rest[q];
  }

  /** The shirts of earlier combinations come before those of later ones. */
  lemma {:induction false} MatchedConcat(lookup: Index, a: seq<Key>, b: seq<Key>)
    ensures Matched(lookup, a + b) == Matched(lookup, a) + Matched(lookup, b)
  {
    if b == [] {
      assert a + b == a;
    } else {
      var init := b[..|b| - 1];
      assert (a + b)[..|a + b| - 1] == a + init;
      assert (a + b)[|a + b| - 1] == b[|b| - 1];
      MatchedConcat(lookup, a, init);
    }
  }

  // ---------------------------------------------------------------------
  // How often each shirt is returned

  lemma {:induction false} RowCount(c: Color, sizes: seq<Size>, k: Key)
    ensures multiset(Row(c, sizes))[k] == if ColorOf(k) == c then multiset(sizes)[SizeOf(k)] else 0
  {
    if sizes != [] {
      assert sizes == [sizes[0]] + sizes[1..];
      RowCount(c, sizes[1..], k);
    }
  }

  /** A combination occurs as often as its color among the colors times its size among the sizes. */
  lemma {:induction false} CombosCount(colors: seq<Color>, sizes: seq<Size>, k: Key)
    ensures var colorHits: int, sizeHits: int := multiset(colors)[ColorOf(k)], multiset(sizes)[SizeOf(k)];
      multiset(Combos(colors, sizes))[k] == colorHits * sizeHits
  {
    if colors != [] {
      CombosCount(colors[1..], sizes, k);
      CombosFirst(colors, sizes, k);
      FlagStep(multiset(Combos(colors, sizes))[k], multiset(Row(colors[0], sizes))[k],
        multiset(Combos(colors[1..], sizes))[k], multiset(colors)[ColorOf(k)], multiset(colors[1..])[ColorOf(k)],
        multiset(sizes)[SizeOf(k)], colors[0] == ColorOf(k));
    }
  }

  /** What the first color's row adds to a combination's count, and to the count of its color. */
  lemma CombosFirst(colors: seq<Color>, sizes: seq<Size>, k: Key)
    requires colors != []
    ensures var hit := colors[0] == ColorOf(k);
      var added := multiset(Row(colors[0], sizes))[k];
      && multiset(Combos(colors, sizes))[k] == added + multiset(Combos(colors[1..], sizes))[k]
      && added == (if hit then multiset(sizes)[SizeOf(k)] else 0)
      && multiset(colors)[ColorOf(k)] == multiset(colors[1..])[ColorOf(k)] + if hit then 1 else 0
  {
    RowCount(colors[0], sizes, k);
    assert colors == [colors[0]] + colors[1..];
  }

  lemma {:induction false} BucketCount(catalog: seq<Shirt>, k: Key, x: Shirt)
    ensures multiset(Bucket(catalog, k))[x] == if KeyOf(x) == k then multiset(catalog)[x] else 0
  {
    if catalog != [] {
      assert catalog == [catalog[0]] + catalog[1..];
      BucketCount(catalog[1..], k, x);
    }
  }

  lemma AddMul(a: int, m: int, n: int)
    ensures (a + m) * n == a * n + m * n
  {
  }

  /** One more occurrence-or-not of a counted value, with every other factor `n`. */
  lemma FlagStep(total: int, added: int, before: int, hits: int, m: int, n: int, hit: bool)
    requires total == added + before && added == (if hit then n else 0) && before == m * n
    requires hits == m + if hit then 1 else 0
    ensures total == hits * n
  {
  }

  lemma MulAssoc(a: int, b: int, c: int)
    ensures (b * c) * a == a * b * c
  {
  }

  lemma ProductPositive(a: int, b: int, c: int)
    requires a >= 0 && b >= 0 && c >= 0
    ensures a * b * c > 0 <==> a > 0 && b > 0 && c > 0
  {
    if a > 0 && b > 0 && c > 0 {
      assert a * b >= 1;
    }
  }

  /** The multiplicity of a shirt with both facet counts in {0, 1}. */
  lemma ProductOfFlags(m: int, b: int, c: int)
    requires 0 <= b <= 1 && 0 <= c <= 1
    ensures m * b * c == if b == 1 && c == 1 then m else 0
  {
  }

  /** Over the lookup of a catalog, a shirt is gathered once per copy in the catalog and per combination equal to its key. */
  lemma {:induction false} MatchedCount(catalog: seq<Shirt>, ks: seq<Key>, x: Shirt)
    ensures var copies: int, keyHits: int := multiset(catalog)[x], multiset(ks)[KeyOf(x)];
      multiset(Matched(Group(catalog), ks))[x] == keyHits * copies
  {
    if ks != [] {
      var init, k := ks[..|ks| - 1], ks[|ks| - 1];
      MatchedCount(catalog, init, x);
      MatchedLast(catalog, ks, x);
      FlagStep(multiset(Matched(Group(catalog), ks))[x], multiset(Probe(Group(catalog), k))[x],
        multiset(Matched(Group(catalog), init))[x], multiset(ks)[KeyOf(x)], multiset(init)[KeyOf(x)],
        multiset(catalog)[x], KeyOf(x) == k);
    }
  }

  /** What the last combination adds to a shirt's count, and to the count of its key among the combinations. */
  lemma MatchedLast(catalog: seq<Shirt>, ks: seq<Key>, x: Shirt)
    requires ks != []
    ensures var init, k := ks[..|ks| - 1], ks[|ks| - 1];
      var added := multiset(Probe(Group(catalog), k))[x];
      && multiset(Matched(Group(catalog), ks))[x] == multiset(Matched(Group(catalog), init))[x] + added
      && added == (if KeyOf(x) == k then multiset(catalog)[x] else 0)
      && multiset(ks)[KeyOf(x)] == multiset(init)[KeyOf(x)] + if KeyOf(x) == k then 1 else 0
  {
    var init, k := ks[..|ks| - 1], ks[|ks| - 1];
    GroupIsBuckets(catalog, k);
    BucketCount(catalog, k, x);
    assert ks == init + [k];
  }

  /**
   * Repeated requested values are not removed: a shirt is returned as many
   * times as it occurs in the catalog, times the occurrences of its color
   * among the requested colors, times those of its size among the requested
   * sizes.
   */
  lemma SearchMultiplicity(catalog: seq<Shirt>, q: Request, x: Shirt)
    ensures var copies: int, colorHits: int, sizeHits: int := multiset(catalog)[x], multiset(q.colors)[x.color], multiset(q.sizes)[x.size];
      multiset(Evaluate(Group(catalog), q).shirts)[x] == copies * colorHits * sizeHits
  {
    MatchedCount(catalog, Combos(q.colors, q.sizes), x);
    CombosCount(q.colors, q.sizes, KeyOf(x));
    MulAssoc(multiset(catalog)[x], multiset(q.colors)[x.color], multiset(q.sizes)[x.size]);
  }

  /** Soundness and completeness: a shirt is returned exactly when it is in the catalog and has a requested color and a requested size. */
  lemma SearchMembership(catalog: seq<Shirt>, q: Request, x: Shirt)
    ensures x in Evaluate(Group(catalog), q).shirts <==> x in catalog && x.color in q.colors && x.size in q.sizes
  {
    SearchMultiplicity(catalog, q, x);
    ProductPositive(multiset(catalog)[x], multiset(q.colors)[x.color], multiset(q.sizes)[x.size]);
  }

  lemma {:induction false} DistinctCount<T>(s: seq<T>, v: T)
    requires NoDuplicates(s)
    ensures multiset(s)[v] == if v in s then 1 else 0
  {
    if s != [] {
      assert s == [s[0]] + s[1..];
      DistinctCount(s[1..], v);
    }
  }

  lemma {:induction false} SelectedCount(catalog: seq<Shirt>, q: Request, x: Shirt)
    ensures multiset(Selected(catalog, q))[x] == if x.color in q.colors && x.size in q.sizes then multiset(catalog)[x] else 0
  {
    if catalog != [] {
      assert catalog == [catalog[0]] + catalog[1..];
      SelectedCount(catalog[1..], q, x);
    }
  }

  /** With duplicate-free request lists, every requested catalog shirt is returned exactly once (per catalog copy) and nothing else. */
  lemma SearchExact(catalog: seq<Shirt>, q: Request)
    requires NoDuplicates(q.colors) && NoDuplicates(q.sizes)
    ensures multiset(Evaluate(Group(catalog), q).shirts) == multiset(Selected(catalog, q))
  {
    forall x ensures multiset(Evaluate(Group(catalog), q).shirts)[x] == multiset(Selected(catalog, q))[x] {
      SearchMultiplicity(catalog, q, x);
      DistinctCount(q.colors, x.color);
      DistinctCount(q.sizes, x.size);
      ProductOfFlags(multiset(catalog)[x], multiset(q.colors)[x.color], multiset(q.sizes)[x.size]);
      SelectedCount(catalog, q, x);
    }
  }

  /** Every shirt has a known size and a known color, so the full request selects the whole catalog. */
  lemma {:induction false} FullRequestSelectsAll(catalog: seq<Shirt>)
    ensures Selected(catalog, Request(AllColors, AllSizes)) == catalog
  {
    if catalog != [] {
      EnumerationsAreComplete();
      FullRequestSelectsAll(catalog[1..]);
    }
  }

  /** The lookup accounts for the catalog: its lists, taken over every key once, are the catalog rearranged. */
  lemma LookupPartitionsCatalog(catalog: seq<Shirt>)
    ensures multiset(Matched(Group(catalog), Combos(AllColors, AllSizes))) == multiset(catalog)
    ensures |Matched(Group(catalog), Combos(AllColors, AllSizes))| == |catalog|
  {
    EnumerationsAreComplete();
    SearchExact(catalog, Request(AllColors, AllSizes));
    FullRequestSelectsAll(catalog);
    assert |multiset(Matched(Group(catalog), Combos(AllColors, AllSizes)))| == |multiset(catalog)|;
  }

  /** Absent options and options with both lists empty are the same search, and it returns the whole catalog. */
  lemma UnconstrainedSearch(catalog: seq<Shirt>)
    ensures Normalize(Some(Request([], []))) == Normalize(None) == Request(AllColors, AllSizes)
    ensures multiset(Evaluate(Group(catalog), Normalize(None)).shirts) == multiset(catalog)
  {
    LookupPartitionsCatalog(catalog);
  }

  // ---------------------------------------------------------------------
  // The counter tables

  /** Both tables list every known value once, in the order of the enumeration, whatever the request. */
  lemma FacetTablesTotal(lookup: Index, q: Request)
    ensures |Evaluate(lookup, q).sizeCounts| == |AllSizes|
    ensures forall i :: 0 <= i < |AllSizes| ==> Evaluate(lookup, q).sizeCounts[i].value == AllSizes[i]
    ensures |Evaluate(lookup, q).colorCounts| == |AllColors|
    ensures forall i :: 0 <= i < |AllColors| ==> Evaluate(lookup, q).colorCounts[i].value == AllColors[i]
  {
  }

  /** Before any combination, every counter of a table is zero. */
  lemma TableStartsAtZero<T>(lookup: Index, facet: Key -> T, all: seq<T>)
    ensures Table(lookup, [], facet, all) == seq(|all|, i requires 0 <= i < |all| => FacetCount(all[i], 0))
  {
  }

  /** A combination adds its list length to the counter of its facet value, found as `List.Find` finds it. */
  lemma TableStep<T>(lookup: Index, ks: seq<Key>, k: Key, facet: Key -> T, all: seq<T>)
    requires NoDuplicates(all) && facet(k) in all
    ensures exists i :: 0 <= i < |all| && Table(lookup, ks, facet, all)[i].value == facet(k)
    ensures Table(lookup, ks + [k], facet, all) == Bumped(Table(lookup, ks, facet, all), facet(k), |Probe(lookup, k)|)
  {
    var t := Table(lookup, ks, facet, all);
    var i :| 0 <= i < |all| && all[i] == facet(k);
    assert t[i].value == facet(k);
    var j := FindIndex(t, facet(k));
    assert all[j] == facet(k);
    assert (ks + [k])[..|ks|] == ks;
  }

  /** A combination that misses changes no counter. */
  lemma TableMiss<T>(lookup: Index, ks: seq<Key>, k: Key, facet: Key -> T, all: seq<T>)
    requires k !in lookup
    ensures Table(lookup, ks + [k], facet, all) == Table(lookup, ks, facet, all)
  {
    assert (ks + [k])[..|ks|] == ks;
  }

  /** A combination appends its list, if any, to the gathered shirts. */
  lemma MatchedAppend(lookup: Index, ks: seq<Key>, k: Key)
    ensures Matched(lookup, ks + [k]) == Matched(lookup, ks) + Probe(lookup, k)
  {
    assert (ks + [k])[..|ks|] == ks;
  }

  lemma {:induction false} TotalStep<T>(lookup: Index, ks: seq<Key>, k: Key, facet: Key -> T, all: seq<T>)
    requires NoDuplicates(all)
    ensures Total(Table(lookup, ks + [k], facet, all))
         == Total(Table(lookup, ks, facet, all)) + (if facet(k) in all then |Probe(lookup, k)| else 0)
  {
    if all != [] {
      assert (ks + [k])[..|ks|] == ks;
      assert forall v :: v in all <==> v == all[0] || v in all[1..];
      assert Table(lookup, ks + [k], facet, all)[1..] == Table(lookup, ks + [k], facet, all[1..]);
      assert Table(lookup, ks, facet, all)[1..] == Table(lookup, ks, facet, all[1..]);
      TotalStep(lookup, ks, k, facet, all[1..]);
    }
  }

  /** When `all` lists every facet value once, the counters of a table add up to the number of matched shirts. */
  lemma {:induction false} TotalIsMatched<T>(lookup: Index, ks: seq<Key>, facet: Key -> T, all: seq<T>)
    requires NoDuplicates(all)
    requires forall k :: facet(k) in all
    ensures Total(Table(lookup, ks, facet, all)) == |Matched(lookup, ks)|
  {
    if ks == [] {
      TotalOfZeros(lookup, facet, all);
    } else {
      var init, k := ks[..|ks| - 1], ks[|ks| - 1];
      assert ks == init + [k];
      TotalIsMatched(lookup, init, facet, all);
      TotalStep(lookup, init, k, facet, all);
    }
  }

  lemma {:induction false} TotalOfZeros<T>(lookup: Index, facet: Key -> T, all: seq<T>)
    ensures Total(Table(lookup, [], facet, all)) == 0
  {
    if all != [] {
      assert Table(lookup, [], facet, all)[1..] == Table(lookup, [], facet, all[1..]);
      TotalOfZeros(lookup, facet, all[1..]);
    }
  }

  /** The size counters and the color counters both add up to the number of returned shirts. */
  lemma CountsAgree(lookup: Index, q: Request)
    ensures Total(Evaluate(lookup, q).sizeCounts) == |Evaluate(lookup, q).shirts|
    ensures Total(Evaluate(lookup, q).colorCounts) == |Evaluate(lookup, q).shirts|
  {
    EnumerationsAreComplete();
    var ks := Combos(q.colors, q.sizes);
    TotalIsMatched(lookup, ks, SizeOf, AllSizes);
    TotalIsMatched(lookup, ks, ColorOf, AllColors);
  }

  lemma {:induction false} CountFacetConcat<T>(a: seq<Shirt>, b: seq<Shirt>, facet: Key -> T, v: T)
    ensures CountFacet(a + b, facet, v) == CountFacet(a, facet, v) + CountFacet(b, facet, v)
  {
    if a == [] {
      assert a + b == b;
    } else {
      assert (a + b)[0] == a[0];
      assert (a + b)[1..] == a[1..] + b;
      CountFacetConcat(a[1..], b, facet, v);
    }
  }

  lemma {:induction false} CountFacetOfOneKey<T>(xs: seq<Shirt>, k: Key, facet: Key -> T, v: T)
    requires forall x :: x in xs ==> KeyOf(x) == k
    ensures CountFacet(xs, facet, v) == if facet(k) == v then |xs| else 0
  {
    if xs != [] {
      assert xs[0] in xs;
      assert forall x :: x in xs[1..] ==> x in xs;
      CountFacetOfOneKey(xs[1..], k, facet, v);
    }
  }

  /** Over a sound lookup, the counter of a value is the number of gathered shirts having that value. */
  lemma {:induction false} TallyCountsMatched<T>(lookup: Index, ks: seq<Key>, facet: Key -> T, v: T)
    requires Sound(lookup)
    ensures Tally(lookup, ks, facet, v) == CountFacet(Matched(lookup, ks), facet, v)
  {
    if ks != [] {
      var init, k := ks[..|ks| - 1], ks[|ks| - 1];
      TallyCountsMatched(lookup, init, facet, v);
      CountFacetConcat(Matched(lookup, init), Probe(lookup, k), facet, v);
      CountFacetOfOneKey(Probe(lookup, k), k, facet, v);
    }
  }

  /** Each counter of a search equals the number of returned shirts with that size, or with that color. */
  lemma CountsMatchResults(lookup: Index, q: Request)
    requires Sound(lookup)
    ensures forall i :: 0 <= i < |AllSizes| ==>
      Evaluate(lookup, q).sizeCounts[i].count == CountFacet(Evaluate(lookup, q).shirts, SizeOf, AllSizes[i])
    ensures forall i :: 0 <= i < |AllColors| ==>
      Evaluate(lookup, q).colorCounts[i].count == CountFacet(Evaluate(lookup, q).shirts, ColorOf, AllColors[i])
  {
    var ks := Combos(q.colors, q.sizes);
    forall i | 0 <= i < |AllSizes| ensures Tally(lookup, ks, SizeOf, AllSizes[i]) == CountFacet(Matched(lookup, ks), SizeOf, AllSizes[i]) {
      TallyCountsMatched(lookup, ks, SizeOf, AllSizes[i]);
    }
    forall i | 0 <= i < |AllColors| ensures Tally(lookup, ks, ColorOf, AllColors[i]) == CountFacet(Matched(lookup, ks), ColorOf, AllColors[i]) {
      TallyCountsMatched(lookup, ks, ColorOf, AllColors[i]);
    }
  }

  lemma {:induction false} TallyUntouched<T>(lookup: Index, ks: seq<Key>, facet: Key -> T, v: T)
    requires forall k :: k in ks ==> facet(k) != v
    ensures Tally(lookup, ks, facet, v) == 0
  {
    if ks != [] {
      assert forall k :: k in ks[..|ks| - 1] ==> k in ks;
      TallyUntouched(lookup, ks[..|ks| - 1], facet, v);
    }
  }

  /** A size or color the request does not contain keeps a counter of zero. */
  lemma UnrequestedCountsZero(lookup: Index, q: Request)
    ensures forall i :: 0 <= i < |AllSizes| && AllSizes[i] !in q.sizes ==> Evaluate(lookup, q).sizeCounts[i].count == 0
    ensures forall i :: 0 <= i < |AllColors| && AllColors[i] !in q.colors ==> Evaluate(lookup, q).colorCounts[i].count == 0
  {
    var ks := Combos(q.colors, q.sizes);
    forall k | k in ks ensures ColorOf(k) in q.colors && SizeOf(k) in q.sizes {
      CombosMembers(q.colors, q.sizes, k);
    }
    forall i | 0 <= i < |AllSizes| && AllSizes[i] !in q.sizes ensures Tally(lookup, ks, SizeOf, AllSizes[i]) == 0 {
      TallyUntouched(lookup, ks, SizeOf, AllSizes[i]);
    }
    forall i | 0 <= i < |AllColors| && AllColors[i] !in q.colors ensures Tally(lookup, ks, ColorOf, AllColors[i]) == 0 {
      TallyUntouched(lookup, ks, ColorOf, AllColors[i]);
    }
  }

  lemma {:induction false} NothingMatchedInEmptyLookup(ks: seq<Key>)
    ensures Matched(map[], ks) == []
  {
    if ks != [] {
      NothingMatchedInEmptyLookup(ks[..|ks| - 1]);
    }
  }

  /** An engine built from an empty catalog returns no shirts and all-zero counters for every request. */
  lemma EmptyCatalogFindsNothing(q: Request)
    ensures Evaluate(Group([]), q).shirts == []
    ensures forall i :: 0 <= i < |AllSizes| ==> Evaluate(Group([]), q).sizeCounts[i].count == 0
    ensures forall i :: 0 <= i < |AllColors| ==> Evaluate(Group([]), q).colorCounts[i].count == 0
  {
    NothingMatchedInEmptyLookup(Combos(q.colors, q.sizes));
    CountsMatchResults(Group([]), q);
  }
}
