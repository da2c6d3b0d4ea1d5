/**
 * The `unique` filter: of the items, keep the first one for each value of the given property,
 * in their original order. The filter collects the kept items in `result` and the values seen
 * so far in `propVals`, keeping an item when `propVals.indexOf(value) === -1`.
 *
 * Items are values of any type; the property lookup `item[property]` is the function `prop`.
 */
module UniqueFilter {
  import opened JsLib

  /** The property values of xs, in order. */
  function PropVals<T, V>(xs: seq<T>, prop: T -> V): (r: seq<V>)
    ensures |r| == |xs| && forall i :: 0 <= i < |xs| ==> r[i] == prop(xs[i])
  {
    if xs == [] then [] else PropVals(xs[..|xs| - 1], prop) + [prop(xs[|xs| - 1])]
  }

  /** The filter's result, built the way the loop builds it: item by item, from the front. */
  function UniqueBy<T, V(==)>(xs: seq<T>, prop: T -> V): seq<T> {
    if xs == [] then []
    else
      var kept := UniqueBy(xs[..|xs| - 1], prop);
      if prop(xs[|xs| - 1]) in PropVals(kept, prop) then kept else kept + [xs[|xs| - 1]]
  }

  /** The filter: one pass over the items, looking each value up among the values kept so far. */
  method Unique<T, V(==)>(items: seq<T>, prop: T -> V) returns (result: seq<T>)
    ensures result == UniqueBy(items, prop)
    ensures DistinctValues(result, prop) && CoversValues(items, result, prop)
    ensures exists ks :: FirstOccurrencesAt(items, result, ks, prop)
  {
    result := [];
    var propVals: seq<V> := [];
    for i := 0 to |items|
      invariant result == UniqueBy(items[..i], prop)
      invariant propVals == PropVals(result, prop)
    {
      assert items[..i + 1][..i] == items[..i];
      var propVal := prop(items[i]);
      if IndexOf(propVals, propVal) == -1 {
        propVals := propVals + [propVal];
        result := result + [items[i]];
      }
    }
    assert items[..|items|] == items;
    UniqueByDistinct(items, prop);
    UniqueByCoversValues(items, prop);
    ghost var ks := UniqueByKeepsFirstOccurrences(items, prop);
  }

  /** Every item's property value is among the property values of r. */
  predicate CoversValues<T, V(==)>(xs: seq<T>, r: seq<T>, prop: T -> V) {
    forall i :: 0 <= i < |xs| ==> prop(xs[i]) in PropVals(r, prop)
  }

  /** No two items of r share a property value. */
  predicate DistinctValues<T, V(==)>(r: seq<T>, prop: T -> V) {
    forall a, b :: 0 <= a < b < |r| ==> prop(r[a]) != prop(r[b])
  }

  /**
   * r is the subsequence of xs at the increasing positions ks, and the item at each of those
   * positions is the first item of xs with its property value.
   */
  ghost predicate FirstOccurrencesAt<T, V>(xs: seq<T>, r: seq<T>, ks: seq<nat>, prop: T -> V) {
    |ks| == |r|
    && (forall j :: 0 <= j < |ks| ==> ks[j] < |xs| && r[j] == xs[ks[j]])
    && (forall a, b :: 0 <= a < b < |ks| ==> ks[a] < ks[b])
    && (forall j, i :: 0 <= j < |ks| && 0 <= i < ks[j] ==> prop(xs[i]) != prop(r[j]))
  }

  /** The value of every item appears in the result. */
  lemma {:induction false} UniqueByCoversValues<T, V>(xs: seq<T>, prop: T -> V)
    ensures CoversValues(xs, UniqueBy(xs, prop), prop)
  {
    if xs != [] {
      var init := xs[..|xs| - 1];
      UniqueByCoversValues(init, prop);
      var kept := UniqueBy(init, prop);
      var r := UniqueBy(xs, prop);
      forall i | 0 <= i < |xs| ensures prop(xs[i]) in PropVals(r, prop) {
        if i < |xs| - 1 {
          assert xs[i] == init[i];
          var j :| 0 <= j < |kept| && PropVals(kept, prop)[j] == prop(xs[i]);
          assert PropVals(r, prop)[j] == prop(xs[i]);
        } else if prop(xs[i]) !in PropVals(kept, prop) {
          assert PropVals(r, prop)[|kept|] == prop(xs[i]);
        }
      }
    }
  }

  /** No two items of the result share a property value. */
  lemma {:induction false} UniqueByDistinct<T, V>(xs: seq<T>, prop: T -> V)
    ensures DistinctValues(UniqueBy(xs, prop), prop)
  {
    if xs != [] {
      var init := xs[..|xs| - 1];
      UniqueByDistinct(init, prop);
      var kept := UniqueBy(init, prop);
      var r := UniqueBy(xs, prop);
      if prop(xs[|xs| - 1]) !in PropVals(kept, prop) {
        assert r == kept + [xs[|xs| - 1]];
        forall a, b | 0 <= a < b < |r| ensures prop(r[a]) != prop(r[b]) {
          assert r[a] == kept[a];
          if b < |kept| {
            assert r[b] == kept[b];
          } else {
            assert PropVals(kept, prop)[a] == prop(r[a]);
          }
        }
      }
    }
  }

  /** Appending an item that is not kept keeps the positions valid. */
  lemma FirstOccurrencesSkip<T, V>(xs: seq<T>, r: seq<T>, ks: seq<nat>, prop: T -> V, x: T)
    requires FirstOccurrencesAt(xs, r, ks, prop)
    ensures FirstOccurrencesAt(xs + [x], r, ks, prop)
  {
    assert forall i :: 0 <= i < |xs| ==> (xs + [x])[i] == xs[i];
  }

  /** Appending an item with a value not seen so far keeps it at the new last position. */
  lemma FirstOccurrencesKeep<T, V>(xs: seq<T>, r: seq<T>, ks: seq<nat>, prop: T -> V, x: T)
    requires FirstOccurrencesAt(xs, r, ks, prop)
    requires CoversValues(xs, r, prop) && prop(x) !in PropVals(r, prop)
    ensures FirstOccurrencesAt(xs + [x], r + [x], ks + [|xs|], prop)
  {
    var ys, r', ks' := xs + [x], r + [x], ks + [|xs|];
    assert forall i :: 0 <= i < |xs| ==> ys[i] == xs[i];
    assert forall j :: 0 <= j < |ks| ==> ks'[j] == ks[j] && r'[j] == r[j];
    forall j, i | 0 <= j < |ks'| && 0 <= i < ks'[j] ensures prop(ys[i]) != prop(r'[j]) {
      if j == |ks| {
        assert prop(xs[i]) in PropVals(r, prop);
      }
    }
  }

  /**
   * The result is a subsequence of the items in their original order, and each kept item is
   * the first item with its property value: ks gives the positions of the kept items.
   */
  lemma {:induction false} UniqueByKeepsFirstOccurrences<T, V>(xs: seq<T>, prop: T -> V) returns (ks: seq<nat>)
    ensures FirstOccurrencesAt(xs, UniqueBy(xs, prop), ks, prop)
  {
    if xs == [] {
      ks := [];
    } else {
      var init := xs[..|xs| - 1];
      var x := xs[|xs| - 1];
      assert xs == init + [x];
      var ks0 := UniqueByKeepsFirstOccurrences(init, prop);
      var kept := UniqueBy(init, prop);
      if prop(x) in PropVals(kept, prop) {
        ks := ks0;
        FirstOccurrencesSkip(init, kept, ks0, prop, x);
      } else {
        ks := ks0 + [|init|];
        UniqueByCoversValues(init, prop);
        FirstOccurrencesKeep(init, kept, ks0, prop, x);
      }
    }
  }
}
