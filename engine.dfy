/**
 * The engine itself (SearchEngine.cs): the class holding the lookup, its
 * construction with the null check, and `Search`, which fills in the
 * caller's options, walks the combinations once and accumulates the matched
 * shirts and the two counter tables in place.
 */
module Engine {
  import opened Wrappers
  import opened Catalog
  import opened Lookup
  import opened Evaluation

  /** The error the constructor throws (an `ArgumentException` on a null shirt list). */
  datatype ConstructionError = NullShirts

  /** The caller's search options; `Search` overwrites an empty list with the full enumeration. */
  class SearchOptions {
    var colors: seq<Color>
    var sizes: seq<Size>

    constructor ()
      ensures colors == [] && sizes == []
    {
      colors := [];
      sizes := [];
    }
  }

  /**
   * One step of the search loop: when the lookup holds the combination, its
   * shirts are appended to the results and their number is added to the
   * counter of its size and to the counter of its color; otherwise nothing
   * changes.
   */
  method VisitCombo(index: Index, ghost done: seq<Key>, combo: Key, results: seq<Shirt>,
                    sizeCounts: seq<SizeCount>, colorCounts: seq<ColorCount>)
    returns (results': seq<Shirt>, sizeCounts': seq<SizeCount>, colorCounts': seq<ColorCount>)
    requires results == Matched(index, done)
    requires sizeCounts == Table(index, done, SizeOf, AllSizes)
    requires colorCounts == Table(index, done, ColorOf, AllColors)
    ensures results' == Matched(index, done + [combo])
    ensures sizeCounts' == Table(index, done + [combo], SizeOf, AllSizes)
    ensures colorCounts' == Table(index, done + [combo], ColorOf, AllColors)
  {
    MatchedAppend(index, done, combo);
    if combo in index {
      var matchedShirts := index[combo];
      results' := results + matchedShirts;
      EnumerationsAreComplete();
      TableStep(index, done, combo, SizeOf, AllSizes);
      TableStep(index, done, combo, ColorOf, AllColors);
      sizeCounts' := AddToCounter(sizeCounts, SizeOf(combo), |matchedShirts|);
      colorCounts' := AddToCounter(colorCounts, ColorOf(combo), |matchedShirts|);
    } else {
      results', sizeCounts', colorCounts' := results, sizeCounts, colorCounts;
      TableMiss(index, done, combo, SizeOf, AllSizes);
      TableMiss(index, done, combo, ColorOf, AllColors);
    }
  }

  /**
   * `t.Find(x => x.Value == v).Count += amount`: the first entry for `v`
   * gets `amount` more, every other entry is left as it was.
   */
  method AddToCounter<T(==)>(t: seq<FacetCount<T>>, v: T, amount: nat) returns (t': seq<FacetCount<T>>)
    requires exists i :: 0 <= i < |t| && t[i].value == v
    ensures t' == Bumped(t, v, amount)
  {
    var j := FindIndex(t, v);
    t' := t[j := FacetCount(t[j].value, t[j].count + amount)];
  }

  class SearchEngine {
    /** The shirts the engine was built from (not kept by the source; it names what the lookup stands for). */
    ghost var catalog: seq<Shirt>
    /** `_shirtsLookup`: the shirt lists keyed by (size, color). */
    var lookup: Index

    ghost predicate Valid()
      reads this
    {
      lookup == Group(catalog)
    }

    /** The constructor once the null check has passed: group the shirts by (size, color). */
    constructor (shirts: seq<Shirt>)
      ensures Valid() && catalog == shirts
    {
      catalog := shirts;
      lookup := Group(shirts);
    }

    /** `new SearchEngine(shirts)`: a null list is refused, any list (the empty one included) gives an engine. */
    static method Create(shirts: Option<seq<Shirt>>) returns (r: Result<SearchEngine, ConstructionError>)
      ensures r.Failure? <==> shirts.None?
      ensures r.Failure? ==> r.error == NullShirts
      ensures r.Success? ==> fresh(r.value) && r.value.Valid() && r.value.catalog == shirts.value
    {
      if shirts.None? {
        return Failure(NullShirts);
      }
      var engine := new SearchEngine(shirts.value);
      return Success(engine);
    }

    /**
     * Search: absent options become fresh ones, an empty color or size list
     * of the caller's options is overwritten with the full enumeration, and
     * the result is the evaluation of the (normalised) request. The lookup
     * is only read.
     */
    method Search(options: SearchOptions?) returns (r: SearchResults)
      modifies options
      ensures options != null ==>
        Request(options.colors, options.sizes) == Normalize(Some(Request(old(options.colors), old(options.sizes))))
      ensures options != null ==> r == Evaluate(lookup, Request(options.colors, options.sizes))
      ensures options == null ==> r == Evaluate(lookup, Normalize(None))
    {
      var opts := options;
      if opts == null {
        opts := new SearchOptions();
      }
      if |opts.colors| == 0 {
        opts.colors := AllColors;
      }
      if |opts.sizes| == 0 {
        opts.sizes := AllSizes;
      }
      r := Accumulate(opts.colors, opts.sizes);
    }

    /**
     * The body of `Search` after normalisation: one pass over the
     * combinations (colors outer, sizes inner); each one found in the lookup
     * appends its shirts to the results and adds their number to the counter
     * of its size and of its color, both tables starting at zero for every
     * known value.
     */
    method Accumulate(colors: seq<Color>, sizes: seq<Size>) returns (r: SearchResults)
      ensures r == Evaluate(lookup, Request(colors, sizes))
    {
      var index := lookup;
      var combos := Combos(colors, sizes);
      var results: seq<Shirt> := [];
      var sizeCounts := seq(|AllSizes|, i requires 0 <= i < |AllSizes| => FacetCount(AllSizes[i], 0));
      var colorCounts := seq(|AllColors|, i requires 0 <= i < |AllColors| => FacetCount(AllColors[i], 0));
      TableStartsAtZero(index, SizeOf, AllSizes);
      TableStartsAtZero(index, ColorOf, AllColors);
      assert combos[..0] == [];

      for n := 0 to |combos|
        invariant results == Matched(index, combos[..n])
        invariant sizeCounts == Table(index, combos[..n], SizeOf, AllSizes)
        invariant colorCounts == Table(index, combos[..n], ColorOf, AllColors)
      {
        ghost var done := combos[..n];
        assert combos[..n + 1] == done + [combos[n]];
        results, sizeCounts, colorCounts := VisitCombo(index, done, combos[n], results, sizeCounts, colorCounts);
      }
      assert combos[..|combos|] == combos;
      r := SearchResults(results, sizeCounts, colorCounts);
    }
  }
}
