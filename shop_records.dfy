/** The records that the reconciliation code reads from the locally parsed
    product and from the store's replies. The source passes plain JSON
    dictionaries around; each dictionary shape becomes a datatype here. */
module ShopRecords {

  datatype Option<+T> = None | Some(value: T)

  /** A barcode field as the store reports it: JSON null, or a string. */
  type Barcode = Option<string>

  /** The rendering `str(barcode)` gives: null prints as "None". */
  function BarcodeText(b: Barcode): string {
    match b
    case None => "None"
    case Some(s) => s
  }

  /** A barcode that the tools treat as not yet set: null, empty, or the
      literal text "None". */
  predicate IsUnset(b: Barcode) {
    b == None || b == Some("") || b == Some("None")
  }

  /** Truthiness of a barcode value: neither null nor the empty string.
      The text "None" is truthy. */
  predicate IsTruthy(b: Barcode) {
    b != None && b != Some("")
  }

  /** A variant of the locally parsed product; it has no store id yet.
      `option3` is None when the parsed dictionary has no such key. */
  datatype Variant = Variant(
    option1: string,
    option2: string,
    option3: Option<string>,
    price: string,
    barcode: Barcode)

  /** A variant as the store reports it. */
  datatype StoreVariant = StoreVariant(
    id: int,
    title: string,
    option1: string,
    option2: string,
    option3: Option<string>,
    price: string,
    barcode: Barcode)

  datatype StoreProduct = StoreProduct(id: int, title: string, variants: seq<StoreVariant>)

  /** A local image asset: its md5 checksum, its raw data, its file name and
      whether it is the featured image of the new variants. */
  datatype Image = Image(md5: string, data: string, fileName: string, featured: bool)

  /** An image already in the store: the URL its file is served from and the
      variants it is attached to. */
  datatype StoreImage = StoreImage(id: int, src: string, variantIds: seq<int>)
}
