/** The barcode tools: `check_barcodes` lists repeated barcodes across the
    store, `generate_barcodes` writes each variant's id as the barcode of
    the variants of a product that have none, and `find_variant_by_barcode`
    looks a variant up by its barcode. */
module Barcodes {
  import opened ShopRecords

  /** The variants of all products: product order, then variant order. */
  function AllVariants(products: seq<StoreProduct>): seq<StoreVariant> {
    if products == [] then [] else products[0].variants + AllVariants(products[1..])
  }

  lemma {:induction false} AllVariantsSnoc(products: seq<StoreProduct>, p: StoreProduct)
    ensures AllVariants(products + [p]) == AllVariants(products) + p.variants
  {
    if products == [] {
      assert ([] + [p])[1..] == [];
    } else {
      assert (products + [p])[1..] == products[1..] + [p];
      AllVariantsSnoc(products[1..], p);
    }
  }

  /** The barcodes of a list of variants, in order. */
  function BarcodesOf(variants: seq<StoreVariant>): seq<Barcode> {
    if variants == [] then [] else BarcodesOf(variants[..|variants| - 1]) + [variants[|variants| - 1].barcode]
  }

  lemma {:induction false} BarcodesOfAppend(a: seq<StoreVariant>, b: seq<StoreVariant>)
    ensures BarcodesOf(a + b) == BarcodesOf(a) + BarcodesOf(b)
    decreases |b|
  {
    if b == [] {
      assert a + b == a;
    } else {
      var n := |b| - 1;
      assert (a + b)[..|a + b| - 1] == a + b[..n];
      BarcodesOfAppend(a, b[..n]);
    }
  }

  /** The duplicates list of `check_barcodes` over a list of barcodes: each
      truthy barcode that already occurred earlier, at each repetition. */
  function Repeated(bs: seq<Barcode>): seq<Barcode> {
    if bs == [] then []
    else
      var init := bs[..|bs| - 1];
      var b := bs[|bs| - 1];
      Repeated(init) + (if IsTruthy(b) && b in init then [b] else [])
  }

  /** A truthy barcode that occurs k times is reported k - 1 times; null and
      empty barcodes are never reported. */
  lemma {:induction false} RepeatedCounts(bs: seq<Barcode>, b: Barcode)
    ensures multiset(Repeated(bs))[b] == if IsTruthy(b) && b in bs then multiset(bs)[b] - 1 else 0
  {
    if bs != [] {
      var init := bs[..|bs| - 1];
      var last := bs[|bs| - 1];
      assert bs == init + [last];
      assert multiset(bs) == multiset(init) + multiset{last};
      RepeatedCounts(init, b);
    }
  }

  /** The inner loop of `check_barcodes` over one product's variants. */
  method ScanVariants(variants: seq<StoreVariant>, barcodes0: seq<Barcode>, duplicates0: seq<Barcode>)
    returns (barcodes: seq<Barcode>, duplicates: seq<Barcode>)
    requires duplicates0 == Repeated(barcodes0)
    ensures barcodes == barcodes0 + BarcodesOf(variants)
    ensures duplicates == Repeated(barcodes)
  {
    barcodes, duplicates := barcodes0, duplicates0;
    var k := 0;
    while k < |variants|
      invariant 0 <= k <= |variants|
      invariant barcodes == barcodes0 + BarcodesOf(variants[..k])
      invariant duplicates == Repeated(barcodes)
    {
      var barcode := variants[k].barcode;
      if IsTruthy(barcode) && barcode in barcodes {
        duplicates := duplicates + [barcode];
      }
      assert (barcodes + [barcode])[..|barcodes|] == barcodes;
      barcodes := barcodes + [barcode];
      assert variants[..k + 1][..k] == variants[..k];
      k := k + 1;
    }
    assert variants[..k] == variants;
  }

  /** `check_barcodes`, given the store's products: the repeated barcodes,
      in the order they are met. */
  method CheckBarcodes(products: seq<StoreProduct>) returns (duplicates: seq<Barcode>)
    ensures duplicates == Repeated(BarcodesOf(AllVariants(products)))
  {
    duplicates := [];
    var barcodes: seq<Barcode> := [];
    var p := 0;
    while p < |products|
      invariant 0 <= p <= |products|
      invariant barcodes == BarcodesOf(AllVariants(products[..p]))
      invariant duplicates == Repeated(barcodes)
    {
      barcodes, duplicates := ScanVariants(products[p].variants, barcodes, duplicates);
      assert products[..p + 1] == products[..p] + [products[p]];
      AllVariantsSnoc(products[..p], products[p]);
      BarcodesOfAppend(AllVariants(products[..p]), products[p].variants);
      p := p + 1;
    }
    assert products[..p] == products;
  }

  /** The status of one variant, and of the whole run. */
  datatype Status = Success | Failed | Exists

  /** One entry of the report: the variant's id, the barcode written (only
      when one is), the status and the variant's title. */
  datatype BarcodeEntry = BarcodeEntry(id: int, barcode: Option<int>, status: Status, title: string)

  datatype BarcodeReport = BarcodeReport(status: Status, productId: int, title: string, variants: seq<BarcodeEntry>)

  /** The entry for one variant, given the reply of its update call (which
      is only made when the barcode is unset). */
  function Entry(v: StoreVariant, reply: bool): BarcodeEntry {
    if IsUnset(v.barcode) then BarcodeEntry(v.id, Some(v.id), if reply then Success else Failed, v.title)
    else BarcodeEntry(v.id, None, Exists, v.title)
  }

  function Entries(variants: seq<StoreVariant>, replies: seq<bool>): (es: seq<BarcodeEntry>)
    requires |replies| == |variants|
    ensures |es| == |variants|
  {
    if variants == [] then []
    else
      var n := |variants| - 1;
      Entries(variants[..n], replies[..n]) + [Entry(variants[n], replies[n])]
  }

  /** The ids written as barcodes: those of the variants whose barcode is
      unset, in order. */
  function UnsetIds(variants: seq<StoreVariant>): seq<int> {
    if variants == [] then []
    else
      var n := |variants| - 1;
      UnsetIds(variants[..n]) + (if IsUnset(variants[n].barcode) then [variants[n].id] else [])
  }

  /** Each entry carries its variant's id and title; a variant whose
      barcode is set is marked Exists and gets no barcode; an unset one gets
      its id as barcode and is marked Success or Failed by the reply. */
  lemma {:induction false} EntriesMeaning(variants: seq<StoreVariant>, replies: seq<bool>, i: nat)
    requires |replies| == |variants| && i < |variants|
    ensures Entries(variants, replies)[i].id == variants[i].id
    ensures Entries(variants, replies)[i].title == variants[i].title
    ensures Entries(variants, replies)[i].status == Exists <==> !IsUnset(variants[i].barcode)
    ensures Entries(variants, replies)[i].status == Success <==> IsUnset(variants[i].barcode) && replies[i]
    ensures Entries(variants, replies)[i].status == Failed <==> IsUnset(variants[i].barcode) && !replies[i]
    ensures Entries(variants, replies)[i].barcode == if IsUnset(variants[i].barcode) then Some(variants[i].id) else None
  {
    var n := |variants| - 1;
    if i < n {
      EntriesMeaning(variants[..n], replies[..n], i);
    }
  }

  /** `generate_barcodes`, given the product the store reports and the
      replies of the update calls (`replies[i]` for the i-th variant; it is
      only consulted when a call is made). It returns the report and the
      ids of the variants whose barcode it writes. The report's status is
      Failed exactly when some entry failed, and Success otherwise. */
  method GenerateBarcodes(productId: int, product: StoreProduct, replies: seq<bool>)
    returns (report: BarcodeReport, writes: seq<int>)
    requires |replies| == |product.variants|
    ensures report.productId == productId && report.title == product.title
    ensures report.variants == Entries(product.variants, replies)
    ensures report.status == Failed <==> exists i :: 0 <= i < |report.variants| && report.variants[i].status == Failed
    ensures report.status != Exists
    ensures writes == UnsetIds(product.variants)
  {
    var variants := product.variants;
    var status := Success;
    var entries: seq<BarcodeEntry> := [];
    writes := [];
    var n := 0;
    while n < |variants|
      invariant 0 <= n <= |variants|
      invariant entries == Entries(variants[..n], replies[..n])
      invariant writes == UnsetIds(variants[..n])
      invariant status != Exists
      invariant status == Failed <==> exists i :: 0 <= i < n && entries[i].status == Failed
    {
      var v := variants[n];
      var entry;
      if IsUnset(v.barcode) {
        writes := writes + [v.id];
        if replies[n] {
          entry := BarcodeEntry(v.id, Some(v.id), Success, v.title);
        } else {
          entry := BarcodeEntry(v.id, Some(v.id), Failed, v.title);
          status := Failed;
        }
      } else {
        entry := BarcodeEntry(v.id, None, Exists, v.title);
      }
      assert variants[..n + 1][..n] == variants[..n];
      assert replies[..n + 1][..n] == replies[..n];
      assert forall i :: 0 <= i < n ==> (entries + [entry])[i] == entries[i];
      assert (entries + [entry])[n] == entry;
      entries := entries + [entry];
      n := n + 1;
    }
    assert variants[..n] == variants && replies[..n] == replies;
    report := BarcodeReport(status, productId, product.title, entries);
  }

  /** The decimal text of a natural number. */
  function NatText(n: nat): (t: string)
    ensures t != [] && '0' <= t[0] <= '9'
  {
    var digit := ['0' + (n % 10) as char];
    if n < 10 then digit else NatText(n / 10) + digit
  }

  /** The text the store reports for a barcode written as the integer `n`. */
  function IntText(n: int): (t: string)
    ensures t != [] && t[0] != 'N'
  {
    if n < 0 then "-" + NatText(-n) else NatText(n)
  }

  /** The store's variants after the update calls of a run: the barcode of
      each unset variant whose update succeeded is its id. */
  function Applied(variants: seq<StoreVariant>, replies: seq<bool>): (after: seq<StoreVariant>)
    requires |replies| == |variants|
    ensures |after| == |variants|
    ensures forall i :: 0 <= i < |after| ==>
      after[i] == if IsUnset(variants[i].barcode) && replies[i]
                  then variants[i].(barcode := Some(IntText(variants[i].id))) else variants[i]
  {
    if variants == [] then []
    else
      var n := |variants| - 1;
      var v := variants[n];
      Applied(variants[..n], replies[..n])
        + [if IsUnset(v.barcode) && replies[n] then v.(barcode := Some(IntText(v.id))) else v]
  }

  /** After a run whose updates all succeeded, a second run finds every
      barcode set: it writes nothing and reports every variant as Exists. */
  lemma {:induction false} RerunWritesNothing(variants: seq<StoreVariant>, replies: seq<bool>, again: seq<bool>)
    requires |replies| == |variants| == |again|
    requires forall i :: 0 <= i < |replies| ==> replies[i]
    ensures UnsetIds(Applied(variants, replies)) == []
    ensures forall i :: 0 <= i < |variants| ==> Entries(Applied(variants, replies), again)[i].status == Exists
  {
    var after := Applied(variants, replies);
    forall i | 0 <= i < |after| ensures !IsUnset(after[i].barcode) {
      if IsUnset(variants[i].barcode) {
        assert IntText(variants[i].id) != "None" && IntText(variants[i].id) != "";
      }
    }
    NoUnsetNoWrites(after);
    forall i | 0 <= i < |variants| ensures Entries(after, again)[i].status == Exists {
      EntriesMeaning(after, again, i);
    }
  }

  lemma {:induction false} NoUnsetNoWrites(variants: seq<StoreVariant>)
    requires forall i :: 0 <= i < |variants| ==> !IsUnset(variants[i].barcode)
    ensures UnsetIds(variants) == []
  {
    if variants != [] {
      NoUnsetNoWrites(variants[..|variants| - 1]);
    }
  }

  /** The index of the first variant with the given barcode, or the length
      of the list when there is none. */
  function FirstWith(barcode: Barcode, variants: seq<StoreVariant>): (i: nat)
    ensures i <= |variants|
    ensures forall j :: 0 <= j < i ==> variants[j].barcode != barcode
    ensures i < |variants| ==> variants[i].barcode == barcode
  {
    if variants == [] then 0
    else if variants[0].barcode == barcode then 0
    else 1 + FirstWith(barcode, variants[1..])
  }

  /** The inner loop of `find_variant_by_barcode` over one product. */
  function FindInVariants(barcode: Barcode, variants: seq<StoreVariant>): (r: Option<StoreVariant>)
    ensures r.None? <==> FirstWith(barcode, variants) == |variants|
    ensures r.Some? ==> r.value == variants[FirstWith(barcode, variants)]
  {
    if variants == [] then None
    else if variants[0].barcode == barcode then Some(variants[0])
    else FindInVariants(barcode, variants[1..])
  }

  /** The outer loop over the products. */
  function FindInProducts(barcode: Barcode, products: seq<StoreProduct>): (r: Option<StoreVariant>)
    ensures r.None? <==> FirstWith(barcode, AllVariants(products)) == |AllVariants(products)|
    ensures r.Some? ==> r.value == AllVariants(products)[FirstWith(barcode, AllVariants(products))]
  {
    if products == [] then None
    else
      FirstWithAppend(barcode, products[0].variants, AllVariants(products[1..]));
      match FindInVariants(barcode, products[0].variants)
      case Some(v) => Some(v)
      case None => FindInProducts(barcode, products[1..])
  }

  lemma {:induction false} FirstWithAppend(barcode: Barcode, a: seq<StoreVariant>, b: seq<StoreVariant>)
    ensures FirstWith(barcode, a + b)
      == if FirstWith(barcode, a) < |a| then FirstWith(barcode, a) else |a| + FirstWith(barcode, b)
  {
    if a != [] {
      assert (a + b)[1..] == a[1..] + b;
      FirstWithAppend(barcode, a[1..], b);
    } else {
      assert a + b == b;
    }
  }

  /** `find_variant_by_barcode`: `products` is searched, or, when it is
      empty, all the store's products (`allProducts`). The result is the
      first variant, in product order and then variant order, whose barcode
      equals the argument; None (the source's False) when there is none. */
  function FindVariantByBarcode(barcode: Barcode, products: seq<StoreProduct>, allProducts: seq<StoreProduct>)
    : (r: Option<StoreVariant>)
    ensures var searched := if products == [] then allProducts else products;
      var all := AllVariants(searched);
      (r.None? <==> forall v :: v in all ==> v.barcode != barcode)
      && (r.Some? ==>
            exists i :: 0 <= i < |all| && all[i] == r.value && r.value.barcode == barcode
              && forall j :: 0 <= j < i ==> all[j].barcode != barcode)
  {
    var searched := if products == [] then allProducts else products;
    var all := AllVariants(searched);
    var r := FindInProducts(barcode, searched);
    var i := FirstWith(barcode, all);
    assert r.Some? ==> all[i] == r.value;
    r
  }
}
