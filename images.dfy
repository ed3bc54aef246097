/** `create_images`: each local image is matched against the images the
    store already has by its md5 checksum. Every store image whose URL
    contains the checksum is processed (a featured image gets the new
    variants attached to it); an image that matches none is uploaded. */
module Images {
  import opened ShopRecords

  /** `sub` occurs in `s` starting at index `i`. */
  predicate OccursAt(s: string, sub: string, i: nat) {
    i + |sub| <= |s| && s[i..i + |sub|] == sub
  }

  /** Python's `sub in s` on strings. */
  function Contains(s: string, sub: string): (r: bool)
    ensures r <==> exists i: nat :: OccursAt(s, sub, i)
    decreases |s|
  {
    if sub <= s then
      assert OccursAt(s, sub, 0);
      true
    else if s == [] then false
    else
      var r := Contains(s[1..], sub);
      assert r ==> exists i: nat :: OccursAt(s, sub, i) by {
        if r {
          var i: nat :| OccursAt(s[1..], sub, i);
          assert s[i + 1..i + 1 + |sub|] == s[1..][i..i + |sub|];
          assert OccursAt(s, sub, i + 1);
        }
      }
      assert (exists i: nat :: OccursAt(s, sub, i)) ==> r by {
        if exists i: nat :: OccursAt(s, sub, i) {
          var i: nat :| OccursAt(s, sub, i);
          if i > 0 {
            assert s[i..i + |sub|] == s[1..][i - 1..i - 1 + |sub|];
            assert OccursAt(s[1..], sub, i - 1);
          }
        }
      }
      r
  }

  /** Whether some store image's URL contains the checksum. */
  function Found(md5: string, storeImages: seq<StoreImage>): (r: bool)
    ensures r <==> exists i :: 0 <= i < |storeImages| && Contains(storeImages[i].src, md5)
  {
    if storeImages == [] then false
    else
      var n := |storeImages| - 1;
      assert forall i :: 0 <= i < n ==> storeImages[..n][i] == storeImages[i];
      Found(md5, storeImages[..n]) || Contains(storeImages[n].src, md5)
  }

  /** A call the image step makes to the store. */
  datatype ImageAction =
    | UpdateImage(imageId: int, attachedIds: seq<int>)
    | CreateImage(alt: string, attachment: string, fileName: string, variantIds: Option<seq<int>>)

  /** `create_image_found`: a featured image attaches the new variants to
      the store image, after the ones it already has and without removing
      repeats; any other image changes nothing. */
  function FoundAction(image: Image, storeImage: StoreImage, variantIds: seq<int>): seq<ImageAction> {
    if image.featured then [UpdateImage(storeImage.id, storeImage.variantIds + variantIds)] else []
  }

  /** `create_image_not_found`: the upload of the image, with the product's
      colour as alternative text and, for a featured image, the new
      variants. */
  function NotFoundAction(image: Image, color: string, variantIds: seq<int>): ImageAction {
    CreateImage(color, image.data, image.fileName, if image.featured then Some(variantIds) else None)
  }

  /** The calls the inner loop makes for one image: one `FoundAction` per
      matching store image, in the store's order. */
  function FoundActions(image: Image, storeImages: seq<StoreImage>, variantIds: seq<int>): seq<ImageAction> {
    if storeImages == [] then []
    else
      var n := |storeImages| - 1;
      FoundActions(image, storeImages[..n], variantIds)
        + (if Contains(storeImages[n].src, image.md5) then FoundAction(image, storeImages[n], variantIds) else [])
  }

  /** All calls made for one image. */
  function ImageActions(image: Image, storeImages: seq<StoreImage>, variantIds: seq<int>, color: string)
    : seq<ImageAction>
  {
    FoundActions(image, storeImages, variantIds)
      + (if Found(image.md5, storeImages) then [] else [NotFoundAction(image, color, variantIds)])
  }

  /** All calls made for a list of images, image by image. */
  function AllImageActions(images: seq<Image>, storeImages: seq<StoreImage>, variantIds: seq<int>, color: string)
    : seq<ImageAction>
  {
    if images == [] then []
    else
      var n := |images| - 1;
      AllImageActions(images[..n], storeImages, variantIds, color)
        + ImageActions(images[n], storeImages, variantIds, color)
  }

  /** A featured image updates EVERY store image whose URL contains its
      checksum, not only the first. */
  lemma {:induction false} EveryMatchUpdated(image: Image, storeImages: seq<StoreImage>, variantIds: seq<int>, i: nat)
    requires image.featured
    requires i < |storeImages| && Contains(storeImages[i].src, image.md5)
    ensures UpdateImage(storeImages[i].id, storeImages[i].variantIds + variantIds)
      in FoundActions(image, storeImages, variantIds)
  {
    var n := |storeImages| - 1;
    if i < n {
      assert storeImages[..n][i] == storeImages[i];
      EveryMatchUpdated(image, storeImages[..n], variantIds, i);
    }
  }

  /** The calls for one image never upload it when it was found, and
      upload it exactly once, last, when it was not. A non-featured image
      that was found leads to no call at all. */
  lemma {:induction false} UploadIffNotFound(image: Image, storeImages: seq<StoreImage>, variantIds: seq<int>, color: string)
    ensures (forall a :: a in ImageActions(image, storeImages, variantIds, color) ==> a.UpdateImage?)
      <==> Found(image.md5, storeImages)
    ensures !image.featured && Found(image.md5, storeImages)
      ==> ImageActions(image, storeImages, variantIds, color) == []
    ensures !Found(image.md5, storeImages)
      ==> ImageActions(image, storeImages, variantIds, color) == [NotFoundAction(image, color, variantIds)]
  {
    FoundActionsAreUpdates(image, storeImages, variantIds);
    NothingFoundNoUpdates(image, storeImages, variantIds);
    var acts := ImageActions(image, storeImages, variantIds, color);
    var found := FoundActions(image, storeImages, variantIds);
    if Found(image.md5, storeImages) {
      assert acts == found + [];
      assert acts == found;
    } else {
      assert acts == found + [NotFoundAction(image, color, variantIds)];
      assert acts[|acts| - 1] in acts;
    }
  }

  lemma {:induction false} FoundActionsAreUpdates(image: Image, storeImages: seq<StoreImage>, variantIds: seq<int>)
    ensures forall a :: a in FoundActions(image, storeImages, variantIds) ==> a.UpdateImage?
    ensures !image.featured ==> FoundActions(image, storeImages, variantIds) == []
  {
    if storeImages != [] {
      FoundActionsAreUpdates(image, storeImages[..|storeImages| - 1], variantIds);
    }
  }

  /** An image that matches no store image updates none. */
  lemma {:induction false} NothingFoundNoUpdates(image: Image, storeImages: seq<StoreImage>, variantIds: seq<int>)
    ensures !Found(image.md5, storeImages) ==> FoundActions(image, storeImages, variantIds) == []
  {
    if storeImages != [] {
      var n := |storeImages| - 1;
      assert forall i :: 0 <= i < n ==> storeImages[..n][i] == storeImages[i];
      NothingFoundNoUpdates(image, storeImages[..n], variantIds);
    }
  }

  /** `a` is the update of some store image whose URL contains the
      checksum: the new variant ids appended to the ones it has. */
  predicate UpdatesMatch(a: ImageAction, image: Image, storeImages: seq<StoreImage>, variantIds: seq<int>) {
    exists i :: 0 <= i < |storeImages| && Contains(storeImages[i].src, image.md5)
      && a == UpdateImage(storeImages[i].id, storeImages[i].variantIds + variantIds)
  }

  /** Every update comes from a featured image and goes to a store image
      whose URL contains the checksum, appending the new variant ids to the
      ones that image has. */
  lemma {:induction false} UpdatesOnlyMatches(image: Image, storeImages: seq<StoreImage>, variantIds: seq<int>)
    ensures forall a :: a in FoundActions(image, storeImages, variantIds) ==>
      image.featured && UpdatesMatch(a, image, storeImages, variantIds)
  {
    if storeImages != [] {
      var n := |storeImages| - 1;
      var init := storeImages[..n];
      UpdatesOnlyMatches(image, init, variantIds);
      forall a | a in FoundActions(image, storeImages, variantIds)
        ensures image.featured && UpdatesMatch(a, image, storeImages, variantIds)
      {
        if a in FoundActions(image, init, variantIds) {
          var i :| 0 <= i < |init| && Contains(init[i].src, image.md5)
            && a == UpdateImage(init[i].id, init[i].variantIds + variantIds);
          assert init[i] == storeImages[i];
        } else {
          assert Contains(storeImages[n].src, image.md5);
          assert a == UpdateImage(storeImages[n].id, storeImages[n].variantIds + variantIds);
        }
      }
    }
  }

  /** The inner loop of `create_images` for one image. */
  method ProcessImage(image: Image, storeImages: seq<StoreImage>, variantIds: seq<int>, color: string)
    returns (actions: seq<ImageAction>)
    ensures actions == ImageActions(image, storeImages, variantIds, color)
  {
    actions := [];
    var found := false;
    var k := 0;
    while k < |storeImages|
      invariant 0 <= k <= |storeImages|
      invariant actions == FoundActions(image, storeImages[..k], variantIds)
      invariant found == Found(image.md5, storeImages[..k])
    {
      assert storeImages[..k + 1][..k] == storeImages[..k];
      if Contains(storeImages[k].src, image.md5) {
        found := true;
        actions := actions + FoundAction(image, storeImages[k], variantIds);
      }
      k := k + 1;
    }
    assert storeImages[..k] == storeImages;
    if !found {
      actions := actions + [NotFoundAction(image, color, variantIds)];
    }
  }

  /** `create_images`, given the store's images: the store calls it makes,
      in order. */
  method CreateImages(images: seq<Image>, storeImages: seq<StoreImage>, variantIds: seq<int>, color: string)
    returns (actions: seq<ImageAction>)
    ensures actions == AllImageActions(images, storeImages, variantIds, color)
  {
    actions := [];
    var n := 0;
    while n < |images|
      invariant 0 <= n <= |images|
      invariant actions == AllImageActions(images[..n], storeImages, variantIds, color)
    {
      var more := ProcessImage(images[n], storeImages, variantIds, color);
      assert images[..n + 1][..n] == images[..n];
      actions := actions + more;
      n := n + 1;
    }
    assert images[..n] == images;
  }
}
