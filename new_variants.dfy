/** `check_new_variants`: the parsed variants that the store already has
    are deleted from the product record, and the rest are created in the
    store. */
module NewVariants {
  import opened ShopRecords

  /** The product record the parsed variants live in; the filter deletes
      from its variant list in place. */
  class ProductRecord {
    var variants: seq<Variant>

    constructor (variants: seq<Variant>)
      ensures this.variants == variants
    {
      this.variants := variants;
    }
  }

  /** A store variant is the parsed variant when `option1` and `option2`
      agree and, only when the parsed variant has an `option3`, that agrees
      too. */
  predicate Matches(parsed: Variant, store: StoreVariant) {
    if parsed.option3.Some? then
      store.option1 == parsed.option1 && store.option2 == parsed.option2 && store.option3 == parsed.option3
    else
      store.option1 == parsed.option1 && store.option2 == parsed.option2
  }

  /** How many store variants a parsed variant matches. */
  function MatchCount(parsed: Variant, store: seq<StoreVariant>): (n: nat)
    ensures n <= |store|
  {
    if store == [] then 0
    else
      var init := store[..|store| - 1];
      assert store == init + [store[|store| - 1]];
      MatchCount(parsed, init) + (if Matches(parsed, store[|store| - 1]) then 1 else 0)
  }

  /** `n` copies of `x`. */
  function Repeat(x: nat, n: nat): (r: seq<nat>)
    ensures |r| == n && forall t :: 0 <= t < n ==> r[t] == x
  {
    if n == 0 then [] else Repeat(x, n - 1) + [x]
  }

  /** The `delete` list the nested loop builds: the index of each parsed
      variant, once for every store variant it matches. */
  function DeleteList(parsed: seq<Variant>, store: seq<StoreVariant>): (d: seq<nat>)
    ensures forall t :: 0 <= t < |d| ==> d[t] < |parsed|
  {
    if parsed == [] then []
    else
      var n := |parsed| - 1;
      DeleteList(parsed[..n], store) + Repeat(n, MatchCount(parsed[n], store))
  }

  /** `del s[i]`. */
  function DeleteAt<T>(s: seq<T>, i: nat): (r: seq<T>)
    requires i < |s|
    ensures |r| == |s| - 1
  {
    s[..i] + s[i + 1..]
  }

  /** `for index in delete[::-1]: del s[index]`: the last index first. None
      when some index is past the end of the list at the time it is used,
      where Python raises IndexError. */
  function DeleteInReverse<T>(s: seq<T>, indices: seq<nat>): (r: Option<seq<T>>)
    ensures r.Some? ==> |r.value| == |s| - |indices|
    decreases |indices|
  {
    if indices == [] then Some(s)
    else
      var i := indices[|indices| - 1];
      if i < |s| then DeleteInReverse(DeleteAt(s, i), indices[..|indices| - 1]) else None
  }

  /** The parsed variants that match no store variant, in their order. */
  function Unmatched(parsed: seq<Variant>, store: seq<StoreVariant>): seq<Variant> {
    if parsed == [] then []
    else
      var n := |parsed| - 1;
      Unmatched(parsed[..n], store) + (if MatchCount(parsed[n], store) == 0 then [parsed[n]] else [])
  }

  /** The unmatched variants are exactly the parsed variants that match no
      store variant. */
  lemma {:induction false} UnmatchedMembers(parsed: seq<Variant>, store: seq<StoreVariant>)
    ensures forall v :: v in Unmatched(parsed, store) <==> v in parsed && MatchCount(v, store) == 0
  {
    if parsed != [] {
      var n := |parsed| - 1;
      assert parsed == parsed[..n] + [parsed[n]];
      UnmatchedMembers(parsed[..n], store);
    }
  }

  /** The ids of the variants the store created, in order; a failed
      creation contributes none. */
  function CreatedIds(replies: seq<Option<int>>): (ids: seq<int>)
    ensures |ids| <= |replies|
    ensures forall id :: id in ids <==> Some(id) in replies
  {
    if replies == [] then []
    else
      var n := |replies| - 1;
      assert replies == replies[..n] + [replies[n]];
      CreatedIds(replies[..n]) + (if replies[n].Some? then [replies[n].value] else [])
  }

  /** Deleting from a list that has one more element at the end deletes
      the same elements and keeps that one. */
  lemma {:induction false} DeleteInReverseKeepsLast<T>(s: seq<T>, x: T, indices: seq<nat>)
    requires DeleteInReverse(s, indices).Some?
    ensures DeleteInReverse(s + [x], indices) == Some(DeleteInReverse(s, indices).value + [x])
    decreases |indices|
  {
    if indices != [] {
      var i := indices[|indices| - 1];
      assert DeleteAt(s + [x], i) == DeleteAt(s, i) + [x];
      DeleteInReverseKeepsLast(DeleteAt(s, i), x, indices[..|indices| - 1]);
    }
  }

  /** The delete list as evidently intended: each matched index once. */
  function MatchedOnce(parsed: seq<Variant>, store: seq<StoreVariant>): seq<nat> {
    if parsed == [] then []
    else
      var n := |parsed| - 1;
      MatchedOnce(parsed[..n], store) + (if MatchCount(parsed[n], store) > 0 then [n] else [])
  }

  lemma DeleteInReverseSnoc<T>(s: seq<T>, indices: seq<nat>, i: nat)
    requires i < |s|
    ensures DeleteInReverse(s, indices + [i]) == DeleteInReverse(DeleteAt(s, i), indices)
  {
    assert (indices + [i])[..|indices|] == indices;
  }

  /** Deleting each matched index once, last first, leaves exactly the
      unmatched variants in their original order. */
  lemma {:induction false} DeleteMatchedOnceIsUnmatched(parsed: seq<Variant>, store: seq<StoreVariant>)
    ensures DeleteInReverse(parsed, MatchedOnce(parsed, store)) == Some(Unmatched(parsed, store))
  {
    if parsed != [] {
      var n := |parsed| - 1;
      var init := parsed[..n];
      var d := MatchedOnce(init, store);
      DeleteMatchedOnceIsUnmatched(init, store);
      if MatchCount(parsed[n], store) > 0 {
        assert MatchedOnce(parsed, store) == d + [n];
        assert DeleteAt(parsed, n) == init;
        DeleteInReverseSnoc(parsed, d, n);
        assert Unmatched(parsed, store) == Unmatched(init, store);
      } else {
        assert MatchedOnce(parsed, store) == d;
        assert parsed == init + [parsed[n]];
        DeleteInReverseKeepsLast(init, parsed[n], d);
        assert DeleteInReverse(parsed, d) == Some(Unmatched(init, store) + [parsed[n]]);
        assert Unmatched(parsed, store) == Unmatched(init, store) + [parsed[n]];
      }
    }
  }

  /** When no parsed variant matches two store variants, the delete list
      the source builds is the intended one. */
  lemma {:induction false} AtMostOnceSameList(parsed: seq<Variant>, store: seq<StoreVariant>)
    requires forall v :: v in parsed ==> MatchCount(v, store) <= 1
    ensures DeleteList(parsed, store) == MatchedOnce(parsed, store)
  {
    if parsed != [] {
      var n := |parsed| - 1;
      assert parsed[n] in parsed;
      assert forall v :: v in parsed[..n] ==> v in parsed;
      AtMostOnceSameList(parsed[..n], store);
      if MatchCount(parsed[n], store) == 1 {
        assert Repeat(n, 1) == [n];
      } else {
        assert Repeat(n, 0) == [];
      }
    }
  }

  /** The inner loop of `check_new_variants`: `index` once for every
      store variant that `parsed` matches. */
  method CollectIndex(index: nat, parsed: Variant, store: seq<StoreVariant>) returns (found: seq<nat>)
    ensures found == Repeat(index, MatchCount(parsed, store))
  {
    found := [];
    var k := 0;
    while k < |store|
      invariant 0 <= k <= |store|
      invariant found == Repeat(index, MatchCount(parsed, store[..k]))
    {
      assert store[..k + 1][..k] == store[..k];
      if Matches(parsed, store[k]) {
        found := found + [index];
      }
      k := k + 1;
    }
    assert store[..k] == store;
  }

  /** The nested loop of `check_new_variants`: the delete list. */
  method CollectMatches(parsed: seq<Variant>, store: seq<StoreVariant>) returns (delete: seq<nat>)
    ensures delete == DeleteList(parsed, store)
  {
    delete := [];
    var index := 0;
    while index < |parsed|
      invariant 0 <= index <= |parsed|
      invariant delete == DeleteList(parsed[..index], store)
    {
      var found := CollectIndex(index, parsed[index], store);
      delete := delete + found;
      assert parsed[..index + 1][..index] == parsed[..index];
      index := index + 1;
    }
    assert parsed[..index] == parsed;
  }

  /** The deletion loop: `del product.variants[index]` for each index of
      `delete`, the last first. */
  method DeleteInPlace(product: ProductRecord, delete: seq<nat>)
    requires DeleteInReverse(product.variants, delete).Some?
    modifies product
    ensures product.variants == DeleteInReverse(old(product.variants), delete).value
  {
    var t := |delete|;
    assert delete[..t] == delete;
    while t > 0
      invariant 0 <= t <= |delete|
      invariant DeleteInReverse(product.variants, delete[..t]) == DeleteInReverse(old(product.variants), delete)
    {
      var i := delete[t - 1];
      assert delete[..t] == delete[..t - 1] + [i];
      assert i < |product.variants|;
      DeleteInReverseSnoc(product.variants, delete[..t - 1], i);
      product.variants := product.variants[..i] + product.variants[i + 1..];
      t := t - 1;
    }
  }

  /** The creation loop: every remaining variant is sent, and the id of
      each one the store created is collected. */
  method CreateVariants(variants: seq<Variant>, replies: seq<Option<int>>)
    returns (variantIds: seq<int>, sent: seq<Variant>)
    requires |replies| == |variants|
    ensures sent == variants
    ensures variantIds == CreatedIds(replies)
  {
    variantIds := [];
    sent := [];
    var n := 0;
    while n < |variants|
      invariant 0 <= n <= |variants|
      invariant sent == variants[..n]
      invariant variantIds == CreatedIds(replies[..n])
    {
      sent := sent + [variants[n]];
      assert replies[..n + 1][..n] == replies[..n];
      if replies[n].Some? {
        variantIds := variantIds + [replies[n].value];
      }
      n := n + 1;
    }
    assert replies[..n] == replies;
  }

  /** `check_new_variants`, with the store's variants and the replies of
      the creation calls as inputs. The matched indices are collected and
      deleted from `product.variants` last first; every variant left is
      sent for creation, and the ids of those the store created are
      returned. The deletion must not raise IndexError. When each parsed
      variant matches at most one store variant, exactly the unmatched
      variants remain, in their order. */
  method CheckNewVariants(product: ProductRecord, store: seq<StoreVariant>, replies: seq<Option<int>>)
    returns (variantIds: seq<int>, sent: seq<Variant>)
    requires DeleteInReverse(product.variants, DeleteList(product.variants, store)).Some?
    requires |replies| == |DeleteInReverse(product.variants, DeleteList(product.variants, store)).value|
    modifies product
    ensures product.variants == DeleteInReverse(old(product.variants), DeleteList(old(product.variants), store)).value
    ensures (forall v :: v in old(product.variants) ==> MatchCount(v, store) <= 1)
      ==> product.variants == Unmatched(old(product.variants), store)
    ensures sent == product.variants
    ensures variantIds == CreatedIds(replies)
  {
    var parsed := product.variants;
    var delete := CollectMatches(parsed, store);
    if delete != [] {
      DeleteInPlace(product, delete);
    }
    if forall v :: v in parsed ==> MatchCount(v, store) <= 1 {
      AtMostOnceSameList(parsed, store);
      DeleteMatchedOnceIsUnmatched(parsed, store);
    }
    variantIds, sent := CreateVariants(product.variants, replies);
  }

  /** One parsed variant that the store has twice, followed by a new one:
      the index 0 is deleted twice, so the new variant is deleted too and
      nothing is created, though it is unmatched. */
  lemma DuplicateMatchDeletesUnmatched(a: Variant, b: Variant, s1: StoreVariant, s2: StoreVariant)
    requires Matches(a, s1) && Matches(a, s2)
    requires !Matches(b, s1) && !Matches(b, s2)
    ensures DeleteList([a, b], [s1, s2]) == [0, 0]
    ensures DeleteInReverse([a, b], DeleteList([a, b], [s1, s2])) == Some([])
    ensures Unmatched([a, b], [s1, s2]) == [b]
  {
    var store := [s1, s2];
    assert store[..1] == [s1];
    assert MatchCount(a, store) == 2;
    assert MatchCount(b, store) == 0;
    assert [a, b][..1] == [a];
    assert DeleteList([a], store) == Repeat(0, 2);
    assert Repeat(0, 2) == [0, 0];
    assert DeleteList([a, b], store) == [0, 0] + Repeat(1, 0);
    assert DeleteAt([a, b], 0) == [b];
    assert DeleteAt([b], 0) == [];
    assert [0, 0][..1] == [0];
    assert Unmatched([a], store) == [];
  }
}
