/**
 * The entities the search engine works on: the two closed facet enumerations
 * (Size and Color, each with its `All` list), shirts, the composite
 * (size, color) key of the lookup, and the per-facet counter records.
 */
module Catalog {

  /** The known shirt sizes; `AllSizes` is `Size.All`, in its order. */
  datatype Size = Small | Medium | Large

  /** The known shirt colors; `AllColors` is `Color.All`, in its order. */
  datatype Color = Red | Blue | Yellow | White | Black

  const AllSizes: seq<Size> := [Small, Medium, Large]
  const AllColors: seq<Color> := [Red, Blue, Yellow, White, Black]

  /** A catalog item: identifier, display name, one size and one color. */
  datatype Shirt = Shirt(id: nat, name: string, size: Size, color: Color)

  /** The composite key of the lookup and of a search combination: (size, color). */
  type Key = (Size, Color)

  function KeyOf(x: Shirt): Key
  {
    (x.size, x.color)
  }

  /** The two facets of a key, as used by the size and color counter tables. */
  function SizeOf(k: Key): Size { k.0 }
  function ColorOf(k: Key): Color { k.1 }

  /** One entry of a counter table: `SizeCount` or `ColorCount` of the source. */
  datatype FacetCount<T> = FacetCount(value: T, count: nat)

  type SizeCount = FacetCount<Size>
  type ColorCount = FacetCount<Color>

  predicate NoDuplicates<T(==)>(s: seq<T>)
  {
    forall i, j :: 0 <= i < j < |s| ==> s[i] != s[j]
  }

  /** Each `All` list names every value of its enumeration exactly once. */
  lemma EnumerationsAreComplete()
    ensures NoDuplicates(AllSizes) && forall s: Size :: s in AllSizes
    ensures NoDuplicates(AllColors) && forall c: Color :: c in AllColors
  {
    forall s: Size ensures s in AllSizes {
      assert s == AllSizes[(if s.Small? then 0 else if s.Medium? then 1 else 2)];
    }
    forall c: Color ensures c in AllColors {
      assert c == AllColors[if c.Red? then 0 else if c.Blue? then 1 else if c.Yellow? then 2 else if c.White? then 3 else 4];
    }
  }
}
