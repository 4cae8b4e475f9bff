/**
 * Concrete searches over the small catalog the engine's unit tests use
 * (one small red, one medium black and one large blue shirt), the no-match
 * test's catalog (its small red shirt replaced by a medium red one), and a
 * request with a repeated size, which shows that repeated values are not removed.
 * Each search is first worked out over any lookup holding the right lists,
 * then applied to the lookup the engine builds from the catalog.
 */
module SearchScenarios {
  import opened Wrappers
  import opened Catalog
  import opened Lookup
  import opened Evaluation

  const RedSmall := Shirt(1, "Red - Small", Small, Red)
  const BlackMedium := Shirt(2, "Black - Medium", Medium, Black)
  const BlueLarge := Shirt(3, "Blue - Large", Large, Blue)
  /** The no-match test's red shirt, of a size that search does not ask for. */
  const RedMedium := Shirt(4, "Red - Medium", Medium, Red)

  function Sample(): seq<Shirt>
  {
    [RedSmall, BlackMedium, BlueLarge]
  }

  /** The list the sample's lookup holds under (size, color). */
  lemma ProbeSample(s: Size, c: Color)
    ensures Probe(Group(Sample()), (s, c)) == if (s, c) == (Small, Red) then [RedSmall]
      else if (s, c) == (Medium, Black) then [BlackMedium]
      else if (s, c) == (Large, Blue) then [BlueLarge]
      else []
  {
    GroupIsBuckets(Sample(), (s, c));
    assert Sample()[1..] == [BlackMedium, BlueLarge];
    assert Sample()[1..][1..] == [BlueLarge];
  }

  /** A search asking only for red finds the one red shirt; only Small and Red count it. */
  lemma SearchByRed()
    ensures var r := Evaluate(Group(Sample()), Normalize(Some(Request([Red], []))));
      && r.shirts == [RedSmall]
      && r.sizeCounts == [FacetCount(Small, 1), FacetCount(Medium, 0), FacetCount(Large, 0)]
      && r.colorCounts == [FacetCount(Red, 1), FacetCount(Blue, 0), FacetCount(Yellow, 0), FacetCount(White, 0), FacetCount(Black, 0)]
  {
    var lookup := Group(Sample());
    forall s: Size ensures Probe(lookup, (s, Red)) == if s == Small then [RedSmall] else [] {
      ProbeSample(s, Red);
    }
    assert Normalize(Some(Request([Red], []))) == Request([Red], AllSizes);
    RedOverAllSizes(lookup);
  }

  /** Over any lookup holding only the small red shirt among the red keys: the red-only search. */
  lemma RedOverAllSizes(lookup: Index)
    requires Sound(lookup)
    requires forall s: Size :: Probe(lookup, (s, Red)) == if s == Small then [RedSmall] else []
    ensures var r := Evaluate(lookup, Request([Red], AllSizes));
      && r.shirts == [RedSmall]
      && r.sizeCounts == [FacetCount(Small, 1), FacetCount(Medium, 0), FacetCount(Large, 0)]
      && r.colorCounts == [FacetCount(Red, 1), FacetCount(Blue, 0), FacetCount(Yellow, 0), FacetCount(White, 0), FacetCount(Black, 0)]
  {
    var q := Request([Red], AllSizes);
    var r := Evaluate(lookup, q);
    assert r.shirts == [RedSmall] by {
      var ks := [(Small, Red), (Medium, Red), (Large, Red)];
      assert Combos(q.colors, q.sizes) == ks;
      assert Probe(lookup, ks[0]) == [RedSmall] && Probe(lookup, ks[1]) == [] && Probe(lookup, ks[2]) == [];
      MatchedAppend(lookup, [], ks[0]);
      MatchedAppend(lookup, ks[..1], ks[1]);
      MatchedAppend(lookup, ks[..2], ks[2]);
      assert ks[..1] == [] + [ks[0]] && ks[..2] == ks[..1] + [ks[1]] && ks == ks[..2] + [ks[2]];
    }
    CountsMatchResults(lookup, q);
    FacetTablesTotal(lookup, q);
    assert [RedSmall][1..] == [];
    forall v: Size ensures CountFacet([RedSmall], SizeOf, v) == if v == Small then 1 else 0 {
    }
    forall v: Color ensures CountFacet([RedSmall], ColorOf, v) == if v == Red then 1 else 0 {
    }
    assert r.sizeCounts == [FacetCount(Small, 1), FacetCount(Medium, 0), FacetCount(Large, 0)] by {
      assert r.sizeCounts[0] == FacetCount(Small, 1);
      assert r.sizeCounts[1] == FacetCount(Medium, 0);
      assert r.sizeCounts[2] == FacetCount(Large, 0);
    }
    assert r.colorCounts == [FacetCount(Red, 1), FacetCount(Blue, 0), FacetCount(Yellow, 0), FacetCount(White, 0), FacetCount(Black, 0)] by {
      assert r.colorCounts[0] == FacetCount(Red, 1);
      assert r.colorCounts[1] == FacetCount(Blue, 0);
      assert r.colorCounts[2] == FacetCount(Yellow, 0);
      assert r.colorCounts[3] == FacetCount(White, 0);
      assert r.colorCounts[4] == FacetCount(Black, 0);
    }
  }

  /**
   * A small red request over a catalog whose only red shirt is medium finds
   * nothing and counts nothing.
   */
  lemma SearchWithNoMatch()
    ensures var r := Evaluate(Group([RedMedium, BlackMedium, BlueLarge]), Request([Red], [Small]));
      && r.shirts == []
      && (forall i :: 0 <= i < |r.sizeCounts| ==> r.sizeCounts[i].count == 0)
      && (forall i :: 0 <= i < |r.colorCounts| ==> r.colorCounts[i].count == 0)
  {
    var catalog := [RedMedium, BlackMedium, BlueLarge];
    GroupIsBuckets(catalog, (Small, Red));
    assert catalog[1..] == [BlackMedium, BlueLarge] && catalog[1..][1..] == [BlueLarge] && catalog[1..][1..][1..] == [];
    assert Bucket(catalog[1..][1..], (Small, Red)) == [] + Bucket(catalog[1..][1..][1..], (Small, Red));
    assert Bucket(catalog[1..], (Small, Red)) == [] + Bucket(catalog[1..][1..], (Small, Red));
    assert Bucket(catalog, (Small, Red)) == [] + Bucket(catalog[1..], (Small, Red));
    MissingKeyFindsNothing(Group(catalog), (Small, Red));
  }

  /** A request for one key the lookup lacks finds nothing and leaves every counter at zero. */
  lemma MissingKeyFindsNothing(lookup: Index, k: Key)
    requires Sound(lookup) && k !in lookup
    ensures var r := Evaluate(lookup, Request([ColorOf(k)], [SizeOf(k)]));
      && r.shirts == []
      && (forall i :: 0 <= i < |r.sizeCounts| ==> r.sizeCounts[i].count == 0)
      && (forall i :: 0 <= i < |r.colorCounts| ==> r.colorCounts[i].count == 0)
  {
    var q := Request([ColorOf(k)], [SizeOf(k)]);
    assert Evaluate(lookup, q).shirts == [] by {
      assert Combos(q.colors, q.sizes) == [k];
      MatchedAppend(lookup, [], k);
      assert [k] == [] + [k];
    }
    CountsMatchResults(lookup, q);
  }

  /** Asking for Small twice returns the small red shirt twice and counts it twice. */
  lemma RepeatedSizeRepeatsShirts()
    ensures Evaluate(Group(Sample()), Request([Red], [Small])).shirts == [RedSmall]
    ensures var r := Evaluate(Group(Sample()), Request([Red], [Small, Small]));
      r.shirts == [RedSmall, RedSmall] && r.sizeCounts[0] == FacetCount(Small, 2)
  {
    ProbeSample(Small, Red);
    RepeatedKey(Group(Sample()), (Small, Red), RedSmall);
  }

  /** Over a lookup holding one shirt under a key: asking for its size twice doubles the answer. */
  lemma RepeatedKey(lookup: Index, k: Key, x: Shirt)
    requires SizeOf(k) == Small && Probe(lookup, k) == [x]
    ensures Evaluate(lookup, Request([ColorOf(k)], [Small])).shirts == [x]
    ensures var r := Evaluate(lookup, Request([ColorOf(k)], [Small, Small]));
      r.shirts == [x, x] && r.sizeCounts[0] == FacetCount(Small, 2)
  {
    var c := ColorOf(k);
    assert Combos([c], [Small]) == [k];
    assert Combos([c], [Small, Small]) == [k, k];
    MatchedAppend(lookup, [], k);
    MatchedAppend(lookup, [k], k);
    assert [k] == [] + [k] && [k, k] == [k] + [k];
    assert Tally(lookup, [k], SizeOf, Small) == 1;
    assert [k, k][..1] == [k];
    assert Tally(lookup, [k, k], SizeOf, Small) == 2;
  }
}
