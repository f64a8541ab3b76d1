/** Fetching the targeted items of an order: the items whose id is requested, failing with
    not-found when nothing or not exactly one item per requested id comes back. */
module ItemSelection {
  import opened Wrappers
  import opened StatusRules
  import opened Errors
  import opened Aggregate

  /** The number of the order's items whose id was requested: the size of the fetched list. */
  function CountSelected(items: seq<Item>, ids: seq<ItemId>): (n: nat)
    ensures n <= |items|
    ensures n == 0 <==> forall k :: 0 <= k < |items| ==> items[k].id !in ids
  {
    if |items| == 0 then 0
    else (if items[0].id in ids then 1 else 0) + CountSelected(items[1..], ids)
  }

  /** The fetch succeeds only if it returned something and one item per requested id. */
  function CheckSelection(items: seq<Item>, ids: seq<ItemId>): (r: Outcome<Error>)
    ensures r.Fail? ==> r.error == NotFound
    ensures |ids| == 0 ==> r.Fail?
    ensures UniqueItemIds(items) ==>
              (r.Pass? <==> |ids| > 0 && Distinct(ids) && forall i :: 0 <= i < |ids| ==> ids[i] in IdsOf(items))
  {
    SelectionFound(items, ids);
    var n := CountSelected(items, ids);
    if n == 0 || n != |ids| then Fail(NotFound) else Pass
  }

  /** With item ids unique within the order, the fetch succeeds exactly when the request is
      non-empty, names no id twice, and names only ids of this order's items. */
  lemma SelectionFound(items: seq<Item>, ids: seq<ItemId>)
    ensures UniqueItemIds(items) ==>
              (0 < CountSelected(items, ids) == |ids|
               <==> |ids| > 0 && Distinct(ids) && forall i :: 0 <= i < |ids| ==> ids[i] in IdsOf(items))
  {
    if UniqueItemIds(items) {
      var xs := IdsOf(items);
      var have := ValuesOf(xs);
      var wanted := ValuesOf(ids);
      CountIsOverlap(items, ids);
      DistinctCard(ids);
      CountCriterion(CountSelected(items, ids), |ids|, have, wanted, Distinct(ids));
      assert wanted <= have <==> forall i :: 0 <= i < |ids| ==> ids[i] in xs by {
        if wanted <= have {
          forall i | 0 <= i < |ids| ensures ids[i] in xs {
            assert ids[i] in wanted;
          }
        }
        if forall i :: 0 <= i < |ids| ==> ids[i] in xs {
          forall x | x in wanted ensures x in have {
            var i :| 0 <= i < |ids| && ids[i] == x;
          }
        }
      }
    }
  }

  /** The arithmetic behind the fetch check: a count equal to the overlap of `have` and `wanted`
      reaches a length bounding `|wanted|` exactly when `wanted <= have` and the bound is tight. */
  lemma CountCriterion<T>(n: nat, len: nat, have: set<T>, wanted: set<T>, tight: bool)
    requires n == |have * wanted|
    requires |wanted| <= len
    requires |wanted| == len <==> tight
    ensures 0 < n == len <==> len > 0 && tight && wanted <= have
  {
    OverlapCard(have, wanted);
  }

  /** The values a list holds. */
  ghost function ValuesOf<T>(xs: seq<T>): set<T> {
    set x | x in xs
  }

  /** How many entries of `xs` occur in `ids`. */
  function CountIn<T(==)>(xs: seq<T>, ids: seq<T>): nat {
    if |xs| == 0 then 0 else (if xs[0] in ids then 1 else 0) + CountIn(xs[1..], ids)
  }

  /** The fetched count is counted over the item ids alone. */
  lemma {:induction false} CountSelectedByIds(items: seq<Item>, ids: seq<ItemId>)
    ensures CountSelected(items, ids) == CountIn(IdsOf(items), ids)
  {
    if |items| > 0 {
      CountSelectedByIds(items[1..], ids);
      assert IdsOf(items)[1..] == IdsOf(items[1..]);
    }
  }

  /** With unique item ids, the fetched count is the number of requested ids the order holds. */
  lemma CountIsOverlap(items: seq<Item>, ids: seq<ItemId>)
    ensures UniqueItemIds(items) ==>
              CountSelected(items, ids) == |ValuesOf(IdsOf(items)) * ValuesOf(ids)|
  {
    CountSelectedByIds(items, ids);
    if UniqueItemIds(items) {
      var xs := IdsOf(items);
      assert Distinct(xs) by {
        forall i, j | 0 <= i < j < |xs| ensures xs[i] != xs[j] {
          assert xs[i] == items[i].id && xs[j] == items[j].id;
        }
      }
      CountInDistinct(xs, ids);
    }
  }

  /** Over a duplicate-free list, the count is the size of the overlap of the two value sets. */
  lemma {:induction false} CountInDistinct<T>(xs: seq<T>, ids: seq<T>)
    requires Distinct(xs)
    ensures CountIn(xs, ids) == |ValuesOf(xs) * ValuesOf(ids)|
  {
    if |xs| > 0 {
      var tail := xs[1..];
      assert Distinct(tail) by {
        forall i, j | 0 <= i < j < |tail| ensures tail[i] != tail[j] {
          assert tail[i] == xs[i + 1] && tail[j] == xs[j + 1];
        }
      }
      CountInDistinct(tail, ids);
      var wanted := ValuesOf(ids);
      var head := xs[0];
      var rest := ValuesOf(tail);
      assert ValuesOf(xs) == {head} + rest;
      assert head !in rest by {
        forall k | 0 <= k < |tail| ensures tail[k] != head {
          assert tail[k] == xs[k + 1];
        }
      }
      OverlapAddOne(head, rest, wanted);
    }
  }

  /** Adding one new value to a set grows its overlap with `wanted` by one exactly when wanted. */
  lemma OverlapAddOne<T>(h: T, rest: set<T>, wanted: set<T>)
    requires h !in rest
    ensures |({h} + rest) * wanted| == (if h in wanted then 1 else 0) + |rest * wanted|
  {
    var one := if h in wanted then {h} else {};
    assert ({h} + rest) * wanted == one + rest * wanted;
    assert one * (rest * wanted) == {};
  }

  /** A list has at least as many entries as distinct values, as many exactly when it repeats none. */
  lemma {:induction false} DistinctCard<T>(xs: seq<T>)
    ensures |ValuesOf(xs)| <= |xs|
    ensures |ValuesOf(xs)| == |xs| <==> Distinct(xs)
  {
    if |xs| > 0 {
      var tail := xs[1..];
      DistinctCard(tail);
      assert ValuesOf(xs) == {xs[0]} + ValuesOf(tail);
      if xs[0] in tail {
        var j :| 0 <= j < |tail| && tail[j] == xs[0];
        assert xs[j + 1] == xs[0];
        assert ValuesOf(xs) == ValuesOf(tail);
        assert !Distinct(xs);
      } else {
        assert xs[0] !in ValuesOf(tail);
        assert |ValuesOf(xs)| == 1 + |ValuesOf(tail)|;
        if Distinct(xs) {
          assert Distinct(tail) by {
            forall i, j | 0 <= i < j < |tail| ensures tail[i] != tail[j] {
              assert tail[i] == xs[i + 1] && tail[j] == xs[j + 1];
            }
          }
        }
        if Distinct(tail) {
          forall i, j | 0 <= i < j < |xs| ensures xs[i] != xs[j] {
            if i > 0 {
              assert xs[i] == tail[i - 1] && xs[j] == tail[j - 1];
            } else {
              assert xs[j] == tail[j - 1];
            }
          }
        }
      }
    }
  }

  /** An intersection is no larger than either side, and as large as `b` exactly when `b <= a`. */
  lemma OverlapCard<T>(a: set<T>, b: set<T>)
    ensures |a * b| <= |b|
    ensures |a * b| == |b| <==> b <= a
  {
    assert b == (a * b) + (b - a);
    assert (a * b) !! (b - a);
    assert |b| == |a * b| + |b - a|;
    if |a * b| == |b| {
      assert |b - a| == 0;
      assert b - a == {};
    }
  }
}
