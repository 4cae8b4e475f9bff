/**
 * The lookup the engine builds once from its shirt list (SearchEngine.cs,
 * constructor): a group-by on the (size, color) key, each group keeping the
 * shirts in input order. The group-by is a single pass that appends each
 * shirt to its key's list; `Bucket` is the independent definition of what
 * each list must hold (the input filtered on one key).
 */
module Lookup {
  import opened Catalog

  type Index = map<Key, seq<Shirt>>

  /** Every list sits under the key of all its shirts, and no list is empty. */
  ghost predicate Sound(lookup: Index)
  {
    forall k :: k in lookup ==> lookup[k] != [] && forall x :: x in lookup[k] ==> KeyOf(x) == k
  }

  /** The group-by of the constructor: one left-to-right pass that appends each shirt to its key's list. */
  function Group(shirts: seq<Shirt>): (lookup: Index)
    ensures Sound(lookup)
  {
    if shirts == [] then map[]
    else
      var rest := Group(shirts[..|shirts| - 1]);
      var x := shirts[|shirts| - 1];
      rest[KeyOf(x) := Probe(rest, KeyOf(x)) + [x]]
  }

  /** `TryGetValue`: the list stored under `k`, or nothing when `k` was never observed. */
  function Probe(lookup: Index, k: Key): seq<Shirt>
  {
    if k in lookup then lookup[k] else []
  }

  /** The shirts of the input whose key is `k`, in input order. */
  function Bucket(shirts: seq<Shirt>, k: Key): (b: seq<Shirt>)
    ensures forall x :: x in b <==> x in shirts && KeyOf(x) == k
  {
    if shirts == [] then []
    else (if KeyOf(shirts[0]) == k then [shirts[0]] else []) + Bucket(shirts[1..], k)
  }

  lemma {:induction false} BucketAppend(shirts: seq<Shirt>, x: Shirt, k: Key)
    ensures Bucket(shirts + [x], k) == Bucket(shirts, k) + (if KeyOf(x) == k then [x] else [])
  {
    if shirts == [] {
      assert [x][1..] == [];
    } else {
      assert (shirts + [x])[1..] == shirts[1..] + [x];
      BucketAppend(shirts[1..], x, k);
    }
  }

  /**
   * The lookup is a partition of the input: the list under every key is
   * exactly the input filtered on that key, in input order, and a key is
   * present exactly when some shirt has it.
   */
  lemma {:induction false} GroupIsBuckets(shirts: seq<Shirt>, k: Key)
    ensures Probe(Group(shirts), k) == Bucket(shirts, k)
    ensures k in Group(shirts) <==> Bucket(shirts, k) != []
  {
    if shirts != [] {
      var init, x := shirts[..|shirts| - 1], shirts[|shirts| - 1];
      assert shirts == init + [x];
      GroupIsBuckets(init, k);
      BucketAppend(init, x, k);
    }
  }

  /** Every shirt of the input sits in the list of its own key and in no other. */
  lemma ShirtInOwnBucketOnly(shirts: seq<Shirt>, x: Shirt, k: Key)
    requires x in shirts
    ensures KeyOf(x) in Group(shirts) && x in Group(shirts)[KeyOf(x)]
    ensures x in Probe(Group(shirts), k) <==> k == KeyOf(x)
  {
    GroupIsBuckets(shirts, KeyOf(x));
    GroupIsBuckets(shirts, k);
  }
}
