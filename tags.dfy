/** The tag rules: `check_tags`, which decides whether the tags of the
    store differ from the union of the store's and the product's tags, and
    the payload that `check_product` sends to update a product. */
module Tags {
  import opened ShopRecords
  import opened Text

  /** The stripped tags of a comma separated tag string. */
  function TagList(s: string): seq<string> {
    StripAll(Split(s, ","))
  }

  /** `check_tags`: True when the sorted union of both tag lists differs
      from the sorted store tags. That happens exactly when the store lists
      a tag twice or the product has a tag the store lacks. */
  function CheckTags(shopifyTagsString: string, tagsString: string): (changed: bool)
    ensures changed <==>
      !(NoDuplicates(TagList(shopifyTagsString))
        && forall t :: t in TagList(tagsString) ==> t in TagList(shopifyTagsString))
  {
    var shopifyTags := TagList(shopifyTagsString);
    var productTags := TagList(tagsString);
    var finalTags := SortStrings(Distinct(shopifyTags + productTags));
    UnionUnchangedIff(shopifyTags, productTags);
    finalTags != SortStrings(shopifyTags)
  }

  /** The sorted union equals the sorted first list exactly when the first
      list has no duplicates and holds every element of the second. */
  lemma UnionUnchangedIff(shop: seq<string>, product: seq<string>)
    ensures SortStrings(Distinct(shop + product)) == SortStrings(shop)
      <==> NoDuplicates(shop) && forall t :: t in product ==> t in shop
  {
    var d := Distinct(shop + product);
    if NoDuplicates(shop) && forall t :: t in product ==> t in shop {
      assert forall x :: x in d <==> x in shop;
      SameElementsSameMultiset(d, shop);
      SortedUnique(SortStrings(d), SortStrings(shop));
    }
    if SortStrings(d) == SortStrings(shop) {
      assert multiset(d) == multiset(shop);
      NoDuplicatesCounts(d);
      NoDuplicatesCounts(shop);
      forall t | t in product ensures t in shop {
        assert t in d;
        assert t in multiset(d);
      }
    }
  }

  /** The `product` part of the update `check_product` sends: the new tag
      string and the new body HTML, each present only when it changes. */
  datatype ProductPayload = ProductPayload(tags: Option<string>, bodyHtml: Option<string>)

  /** `check_product`, given the store's tags and body HTML (None when the
      store reports it as null): the update it sends, or None when it sends
      none. A null body HTML differs from every description, the empty one
      included. The tag union always contains the
      store's own tags, so the tag branch never fires and only a changed
      description leads to an update. */
  function CheckProduct(shopifyTags: string, shopifyBodyHtml: Option<string>, tags: string, description: string)
    : (update: Option<ProductPayload>)
    ensures update.Some? <==> shopifyBodyHtml != Some(description)
    ensures update.Some? ==> update.value.tags == None && update.value.bodyHtml == Some(description)
  {
    var storeTags := Split(shopifyTags, ", ");
    var productTags := Split(tags, ",");
    var finalTags := Distinct(storeTags + productTags);
    var newTags := if forall t :: t in storeTags ==> t in finalTags then None else Some(Join(finalTags, ","));
    var newBody := if Some(description) != shopifyBodyHtml then Some(description) else None;
    if newTags == None && newBody == None then None else Some(ProductPayload(newTags, newBody))
  }
}
