/**
 Recursive deep merge (`deepMerge`) over nested maps. A value is either a
 record list or a nested map; the merge descends only where both sides hold a
 nested map, and otherwise the newer value overwrites the original one.
 */
module SnapshotMerge {
  import opened Records

  datatype Variant = Leaf(records: seq<FileRecord>) | Node(children: map<string, Variant>)

  /** The merged map: every key of either side, the newer value winning unless both sides nest. */
  function Merge(original: map<string, Variant>, newer: map<string, Variant>): (r: map<string, Variant>)
    ensures r.Keys == original.Keys + newer.Keys
    decreases Node(newer)
  {
    map k | k in original.Keys + newer.Keys ::
      if k !in newer then original[k]
      else if k in original && original[k].Node? && newer[k].Node? then
        Node(Merge(original[k].children, newer[k].children))
      else newer[k]
  }

  /**
   The source's loop over the newer keys, putting each merged value into the
   original map. Keys are taken in an unspecified order, as a hash map yields
   them; each key is written once, so the result does not depend on it.
   */
  method DeepMerge(original: map<string, Variant>, newer: map<string, Variant>)
    returns (merged: map<string, Variant>)
    ensures merged == Merge(original, newer)
    decreases Node(newer)
  {
    merged := original;
    var keys := newer.Keys;
    while keys != {}
      invariant keys <= newer.Keys
      invariant merged.Keys == original.Keys + (newer.Keys - keys)
      invariant forall k :: k in merged && k !in keys ==> merged[k] == Merge(original, newer)[k]
      invariant forall k :: k in keys && k in original ==> merged[k] == original[k]
      decreases keys
    {
      var key :| key in keys;
      if key in original && newer[key].Node? && original[key].Node? {
        var child := DeepMerge(original[key].children, newer[key].children);
        merged := merged[key := Node(child)];
      } else {
        merged := merged[key := newer[key]];
      }
      keys := keys - {key};
    }
  }

  /**
   The merge laws: keys only in the original keep their value; a newer value
   that does not meet a nested map on both sides replaces the original value
   wholesale (never concatenated with it); two nested maps are merged recursively.
   */
  lemma MergeLaws(original: map<string, Variant>, newer: map<string, Variant>, k: string)
    requires k in original.Keys + newer.Keys
    ensures k !in newer ==> Merge(original, newer)[k] == original[k]
    ensures k in newer && !(k in original && original[k].Node? && newer[k].Node?) ==>
      Merge(original, newer)[k] == newer[k]
    ensures k in newer && k in original && original[k].Node? && newer[k].Node? ==>
      Merge(original, newer)[k] == Node(Merge(original[k].children, newer[k].children))
  {
  }

  /** Merging nothing in leaves the original as it was. */
  lemma MergeEmpty(original: map<string, Variant>)
    ensures Merge(original, map[]) == original
  {
  }

  /** Merging a structure into itself changes nothing, at any depth. */
  lemma {:induction false} MergeSelf(m: map<string, Variant>)
    ensures Merge(m, m) == m
    decreases Node(m)
  {
    forall k | k in m ensures Merge(m, m)[k] == m[k] {
      if m[k].Node? {
        MergeSelf(m[k].children);
      }
    }
  }

  /** A snapshot seen as a map of record-list leaves. */
  function Lift(s: Snapshot): (m: map<string, Variant>)
    ensures m.Keys == s.Keys
    ensures forall p :: p in m ==> m[p].Leaf?
  {
    map p | p in s :: Leaf(s[p])
  }

  /** A map of leaves read back as a snapshot. */
  function Lower(m: map<string, Variant>): (s: Snapshot)
    requires forall p :: p in m ==> m[p].Leaf?
    ensures Lift(s) == m
  {
    map p | p in m :: m[p].records
  }

  /**
   At the snapshot level, where every value is a record list, the deep merge is
   the plain map override: for a provider of `newer` the result is exactly
   `newer`'s list, even an empty one, and every other provider keeps its list.
   */
  lemma MergeOfSnapshots(a: Snapshot, b: Snapshot)
    ensures Merge(Lift(a), Lift(b)) == Lift(a + b)
    ensures Lower(Merge(Lift(a), Lift(b))) == a + b
  {
    var m := Merge(Lift(a), Lift(b));
    forall p | p in m ensures m[p] == Lift(a + b)[p] {
      MergeLaws(Lift(a), Lift(b), p);
    }
    assert m == Lift(a + b);
    var l := Lower(m);
    assert l.Keys == (a + b).Keys;
    forall p | p in l ensures l[p] == (a + b)[p] {
      assert Lift(a + b)[p] == Leaf((a + b)[p]);
    }
  }
}
