/** `update_variant`: the update sent for a store variant that matches a
    parsed variant. */
module VariantDiff {
  import opened ShopRecords
  import opened LeadingNumber

  /** The `variant` part of the update: the fields written and the id of
      the store variant they are written to. */
  datatype VariantPayload = VariantPayload(price: Option<string>, barcode: Option<string>, id: Option<int>)

  /** The update `update_variant` sends, or None when it sends none. The
      price is written whenever the two prices differ as numbers, in either
      direction. A barcode change is detected (store barcode unset and
      different from the parsed one) but its write is disabled, so the
      barcode never reaches the payload. The id is added only to a
      non-empty payload, which is then sent. */
  function UpdateVariant(parsed: Variant, store: StoreVariant): (update: Option<VariantPayload>)
    requires IsDecimalLiteral(parsed.price) && IsDecimalLiteral(store.price)
    ensures update.Some? <==> Value(store.price) != Value(parsed.price)
    ensures update.Some? ==> update.value.price == Some(parsed.price)
    ensures update.Some? ==> update.value.barcode == None && update.value.id == Some(store.id)
  {
    var price := if Value(store.price) != Value(parsed.price) then Some(parsed.price) else None;
    var barcode: Option<string> := None;
    if price == None && barcode == None then None
    else Some(VariantPayload(price, barcode, Some(store.id)))
  }

  /** The barcode difference `update_variant` detects and logs: the store's
      barcode is unset and its text differs from the parsed one. */
  predicate BarcodeDetected(parsed: Variant, store: StoreVariant) {
    IsUnset(store.barcode) && BarcodeText(store.barcode) != BarcodeText(parsed.barcode)
  }

  /** A detected barcode difference is never written: with equal prices no
      update is sent at all, and any update sent carries no barcode. */
  lemma DetectedBarcodeNotWritten(parsed: Variant, store: StoreVariant)
    requires IsDecimalLiteral(parsed.price) && IsDecimalLiteral(store.price)
    requires BarcodeDetected(parsed, store)
    ensures Value(store.price) == Value(parsed.price) ==> UpdateVariant(parsed, store) == None
    ensures UpdateVariant(parsed, store).Some? ==> UpdateVariant(parsed, store).value.barcode == None
  {
  }

  /** Prices that differ only by a trailing zero of the fraction are the
      same number: no update is sent, however the texts differ. */
  lemma {:induction false} PaddedPriceNoUpdate(parsed: Variant, store: StoreVariant, d: string, f: string)
    requires AllDigits(d) && AllDigits(f) && (d != [] || f != [])
    requires parsed.price == d + "." + f && store.price == d + "." + (f + "0")
    ensures IsDecimalLiteral(parsed.price) && IsDecimalLiteral(store.price)
    ensures UpdateVariant(parsed, store) == None
  {
    FractionLiteral(d, f);
    assert AllDigits(f + "0");
    FractionLiteral(d, f + "0");
    TrailingZeroKeepsValue(d, f);
  }
}
