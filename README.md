# Shopify product tools: reconciliation core

This project models the part of `shopify_tools.py` that decides what to send
to a Shopify store when a locally parsed product is reconciled with the
store's copy. It also proves properties of that model. The modelled parts are:

- **Size sorts.** `merge_sort` orders size labels and `merge_sort_variants`
  orders variant records by their `option2` size. Both are top-down merge
  sorts that work in place on the list they are given. The sort key is the
  numeric prefix matched by `^(\d*\.\d*|\d*)`.
- **Tags.** `check_tags` tells whether the store's tags and the product's
  tags call for an update. `check_product` builds the product update it
  sends.
- **Variants.** `update_variant` builds the update for a store variant that
  matches a parsed variant. `check_new_variants` drops the parsed variants
  the store already has and creates the rest.
- **Barcodes.** `check_barcodes` lists repeated barcodes across the store.
  `generate_barcodes` writes a variant's id as its barcode when no barcode
  is set. `find_variant_by_barcode` returns the first variant carrying a
  barcode.
- **Images.** `create_images`, with `create_image_found` and
  `create_image_not_found`, matches local images against the store's
  images by md5 checksum.

Every call to the store becomes an input of the model:

- the store's product, variants and images;
- the reply of each update or create call (a success flag or a created id).

The operations return the calls they would make.

Modules:

- `ShopRecords`: the records.
- `LeadingNumber`: the regular expressions and the numeric value of a label.
- `SizeSort`: both sorts. There is a function specification and an in-place
  array method for each.
- `Text`: Python's `split`, `strip`, `join`, string order, `list.sort` and
  `list(set(...))`.
- `Tags`, `VariantDiff`, `NewVariants`, `Barcodes` and `Images`: the
  operations themselves.

Loops that build lists become methods with loop invariants. The deletion in
`check_new_variants` mutates the product record in place, so that record is
a class, `NewVariants.ProductRecord`.

## Model

| member | source | states |
|---|---|---|
| ShopRecords.IsUnset | src/com_digitalruiz_shopify_tools/shopify_tools.py:210-212 | a barcode is unset when it is null, "" or the text "None" (the same test is at 344-346) |
| ShopRecords.IsTruthy | src/com_digitalruiz_shopify_tools/shopify_tools.py:319 | a barcode is truthy when it is neither null nor ""; the text "None" is truthy |
| ShopRecords.BarcodeText | src/com_digitalruiz_shopify_tools/shopify_tools.py:213 | `str(barcode)`: a null barcode prints as "None", any other barcode as itself |
| LeadingNumber.LeadingDigits | src/com_digitalruiz_shopify_tools/shopify_tools.py:255 | the result is the longest all-digit prefix: a prefix of the label, all digits, followed by a non-digit or the end |
| LeadingNumber.MatchesDigitsOnly | src/com_digitalruiz_shopify_tools/shopify_tools.py:245 | `re.search(r'^\d*$', s)` succeeds: every character is a digit, or every character but a final newline is, since `$` also matches just before a trailing newline |
| LeadingNumber.IsDigit | src/com_digitalruiz_shopify_tools/shopify_tools.py:245 | a character `\d` matches; only the ASCII digits are modelled (see Left out) |
| LeadingNumber.NumericPrefix | src/com_digitalruiz_shopify_tools/shopify_tools.py:255 | the captured group is a prefix made of digits and at most one dot, and it cannot be extended by a digit; a dot after it is only possible when it already holds one |
| LeadingNumber.Parses | src/com_digitalruiz_shopify_tools/shopify_tools.py:256 | `float` accepts the captured group exactly when it holds a digit; on "" and "." it raises ValueError |
| LeadingNumber.Value | src/com_digitalruiz_shopify_tools/shopify_tools.py:256 | the number `float` reads from the group lies between its integer part and the next integer |
| LeadingNumber.Pow10 | src/com_digitalruiz_shopify_tools/shopify_tools.py:256 | a power of ten is at least one, so the fraction digits divide by a positive number |
| LeadingNumber.NaturalBelowPow10 | src/com_digitalruiz_shopify_tools/shopify_tools.py:256 | a run of n digits denotes a number below 10^n |
| LeadingNumber.FractionBelowOne | src/com_digitalruiz_shopify_tools/shopify_tools.py:256 | the fraction digits contribute less than one |
| LeadingNumber.LeadingDigitsOfRun | src/com_digitalruiz_shopify_tools/shopify_tools.py:255 | a run of digits followed by a non-digit is exactly the leading digits |
| LeadingNumber.PrefixDeterminesValue | src/com_digitalruiz_shopify_tools/shopify_tools.py:255-258 | the captured group is a fixed point of the capture, it has the label's value, and it parses exactly when the label does |
| LeadingNumber.DigitsValue | src/com_digitalruiz_shopify_tools/shopify_tools.py:288-291 | an all-digit label reads as the integer it spells, and it parses exactly when it is non-empty |
| LeadingNumber.FractionValue | src/com_digitalruiz_shopify_tools/shopify_tools.py:205 | the value of `d.f` is d plus f divided by ten to the power of the number of digits of f |
| LeadingNumber.FractionLiteral | src/com_digitalruiz_shopify_tools/shopify_tools.py:205 | `d.f` with at least one digit is a decimal literal that `float` accepts |
| LeadingNumber.TrailingZeroKeepsValue | src/com_digitalruiz_shopify_tools/shopify_tools.py:205 | a zero appended to the fraction leaves the price unchanged |
| SizeSort.MergeFrom | src/com_digitalruiz_shopify_tools/shopify_tools.py:287-306 | the merge from positions i and j writes exactly as many elements as remain in both halves |
| SizeSort.MergeFromPermutes | src/com_digitalruiz_shopify_tools/shopify_tools.py:287-306 | the merge writes exactly the remaining elements of both halves, counted with multiplicity |
| SizeSort.MergeSortBy | src/com_digitalruiz_shopify_tools/shopify_tools.py:276-307 | `merge_sort` returns a permutation of its input |
| SizeSort.MergeFromAbove | src/com_digitalruiz_shopify_tools/shopify_tools.py:287-306 | when every remaining element has a key of at least b, so does every element the merge writes |
| SizeSort.MergeFromKeepsSorted | src/com_digitalruiz_shopify_tools/shopify_tools.py:287-306 | merging two key-sorted halves gives a key-sorted list |
| SizeSort.MergeSortBySorts | src/com_digitalruiz_shopify_tools/shopify_tools.py:276-307 | `merge_sort` returns a permutation of its input that is non-decreasing by the numeric key |
| SizeSort.SortsPair | src/com_digitalruiz_shopify_tools/shopify_tools.py:292-297 | of two elements, the left one comes first only when its key is strictly smaller |
| SizeSort.SwapsEqualPair | src/com_digitalruiz_shopify_tools/shopify_tools.py:295-297 | two elements with equal keys come out swapped |
| SizeSort.TiesTakeRightFirst | src/com_digitalruiz_shopify_tools/shopify_tools.py:292-297 | `merge_sort(["7a", "7b"])` gives `["7b", "7a"]`, so ties do not keep their input order |
| SizeSort.SortingTwiceSwapsBack | src/com_digitalruiz_shopify_tools/shopify_tools.py:276-307 | sorting `["7a", "7b"]` changes it, and sorting the result again gives `["7a", "7b"]` back, so the sort is not idempotent |
| SizeSort.ReversesThreeDecreasing | src/com_digitalruiz_shopify_tools/shopify_tools.py:276-307 | three elements in strictly decreasing key order come out reversed |
| SizeSort.ExampleValues | src/com_digitalruiz_shopify_tools/shopify_tools.py:288-291 | "10", "2" and "1.5" read as 10, 2 and 1.5 |
| SizeSort.NumericLabelsExample | src/com_digitalruiz_shopify_tools/shopify_tools.py:276-307 | `merge_sort(["10", "2", "1.5"])` gives `["1.5", "2", "10"]`: numeric order, not text order |
| SizeSort.SortVariantsBySize | src/com_digitalruiz_shopify_tools/shopify_tools.py:240-274 | `merge_sort_variants` returns a permutation of its input |
| SizeSort.DigitSizesSortPlainly | src/com_digitalruiz_shopify_tools/shopify_tools.py:244-247 | when every `option2` is digits only, the check at each level never fires and the result is the plain merge sort by size |
| SizeSort.SortVariantsBySizeMeaning | src/com_digitalruiz_shopify_tools/shopify_tools.py:240-274 | the result is a permutation; a list of at most one variant, or one whose first `option2` is not digits only, is returned unchanged; with every `option2` digits only, the result is sorted by size |
| SizeSort.MixedSizesStayUnsorted | src/com_digitalruiz_shopify_tools/shopify_tools.py:245-247 | a right half that starts with a non-digit size is merged unsorted, so the result is not sorted |
| SizeSort.MixedSizesKept | src/com_digitalruiz_shopify_tools/shopify_tools.py:244-273 | four variants whose left pair is digits only and in order, with a larger non-digit size heading the right pair, come back as they were |
| SizeSort.MixedSizesExample | src/com_digitalruiz_shopify_tools/shopify_tools.py:245-247 | sizes "1", "3", "10W", "2" come back in the same, unsorted, order |
| SizeSort.SortVariantsChecked | src/com_digitalruiz_shopify_tools/shopify_tools.py:244-252 | the corrected sort: a list of at most one variant, or one whose first `option2` is not digits only, is kept as it is; any other list is merge sorted by size without further checks |
| SizeSort.SortVariantsCheckedSorts | src/com_digitalruiz_shopify_tools/shopify_tools.py:244-252 | with the digits-only check made once, on the whole list, the result is a permutation and is sorted whenever the check passes |
| SizeSort.CopyToArray | src/com_digitalruiz_shopify_tools/shopify_tools.py:282-283 | the slice is a fresh array holding that part of the input |
| SizeSort.MergeInto | src/com_digitalruiz_shopify_tools/shopify_tools.py:286-306 | the three merge loops leave the array equal to the merge of the two sorted halves |
| SizeSort.MergeHeads | src/com_digitalruiz_shopify_tools/shopify_tools.py:287-298 | the first merge loop stops when one half is used up, having written exactly the start of the merge and leaving every later slot of the array as it was |
| SizeSort.SizeOfVariant | src/com_digitalruiz_shopify_tools/shopify_tools.py:255-258 | the key the variant merge compares: `float` of the numeric prefix of `option2` (see LeadingNumber.Value) |
| SizeSort.LabelsReadable | src/com_digitalruiz_shopify_tools/shopify_tools.py:288-291 | the exact condition under which `float` raises on no label: a list of at most one label (no comparison is made) or one whose every label has a numeric prefix holding a digit |
| SizeSort.SizesReadable | src/com_digitalruiz_shopify_tools/shopify_tools.py:244-258 | a condition under which `float` raises on no `option2`: at most one variant, or a first `option2` that is not digits only (the list is returned at once), or every `option2` with a numeric prefix holding a digit |
| SizeSort.CopyRest | src/com_digitalruiz_shopify_tools/shopify_tools.py:299-306 | a tail loop copies the rest of one half after the k elements already merged, and leaves those unchanged |
| SizeSort.MergeSortSizes | src/com_digitalruiz_shopify_tools/shopify_tools.py:276-307 | sorting the array in place leaves it equal to `MergeSortBy` of its old contents; the caller must pass labels `float` can read |
| SizeSort.MergeSortVariants | src/com_digitalruiz_shopify_tools/shopify_tools.py:240-274 | sorting the variants in place leaves the array equal to `SortVariantsBySize` of its old contents |
| Text.Split | src/com_digitalruiz_shopify_tools/shopify_tools.py:107 | `split` returns at least one part |
| Text.JoinSplit | src/com_digitalruiz_shopify_tools/shopify_tools.py:107 | joining the parts with the separator gives the text back |
| Text.SplitPartsAvoid | src/com_digitalruiz_shopify_tools/shopify_tools.py:107 | after a split on a character, no part contains it |
| Text.StripLeft | src/com_digitalruiz_shopify_tools/shopify_tools.py:108 | the result is a suffix of the input, only whitespace is removed, and the result starts with a non-space |
| Text.StripRight | src/com_digitalruiz_shopify_tools/shopify_tools.py:108 | the result is a prefix of the input, only whitespace is removed, and the result ends with a non-space |
| Text.Strip | src/com_digitalruiz_shopify_tools/shopify_tools.py:108 | a stripped tag is empty or neither starts nor ends with whitespace |
| Text.StripUnpads | src/com_digitalruiz_shopify_tools/shopify_tools.py:108 | whitespace around a text with no whitespace at either end is exactly what `strip` removes |
| Text.StripLeftUnpads | src/com_digitalruiz_shopify_tools/shopify_tools.py:108 | leading whitespace in front of a text that starts with a non-space is exactly what `lstrip` removes |
| Text.StripRightUnpads | src/com_digitalruiz_shopify_tools/shopify_tools.py:108 | trailing whitespace after a text that ends with a non-space is exactly what `rstrip` removes |
| Text.StripAll | src/com_digitalruiz_shopify_tools/shopify_tools.py:108 | the list comprehension keeps one tag per part |
| Text.IsSpace | src/com_digitalruiz_shopify_tools/shopify_tools.py:108 | the characters `str.strip()` removes: those `str.isspace` accepts |
| Text.Join | src/com_digitalruiz_shopify_tools/shopify_tools.py:132 | `','.join(parts)`: the parts in order with the separator between neighbours, and "" for no parts |
| Text.Less | src/com_digitalruiz_shopify_tools/shopify_tools.py:112-113 | `a < b` on Python strings: the first differing code point decides, and a proper prefix comes first |
| Text.LessIrreflexive | src/com_digitalruiz_shopify_tools/shopify_tools.py:112-113 | no string is below itself |
| Text.LessAsymmetric | src/com_digitalruiz_shopify_tools/shopify_tools.py:112-113 | two strings are never each below the other |
| Text.LessTransitive | src/com_digitalruiz_shopify_tools/shopify_tools.py:112-113 | string order is transitive |
| Text.LessTrichotomy | src/com_digitalruiz_shopify_tools/shopify_tools.py:112-113 | any two strings are equal or one is below the other |
| Text.Insert | src/com_digitalruiz_shopify_tools/shopify_tools.py:112-113 | inserting adds exactly one copy of the element |
| Text.InsertSorted | src/com_digitalruiz_shopify_tools/shopify_tools.py:112-113 | inserting into a sorted list keeps it sorted |
| Text.SortStrings | src/com_digitalruiz_shopify_tools/shopify_tools.py:112-113 | `sort` returns a sorted permutation of the list |
| Text.SortedUnique | src/com_digitalruiz_shopify_tools/shopify_tools.py:112-114 | two sorted lists with the same elements, counted with multiplicity, are equal, so the comparison after sorting does not depend on the sort algorithm |
| Text.Distinct | src/com_digitalruiz_shopify_tools/shopify_tools.py:111 | `list(set(s))` holds exactly the elements of s, each once |
| Text.NoDuplicatesCounts | src/com_digitalruiz_shopify_tools/shopify_tools.py:111 | a list has no duplicates exactly when it holds each element at most once |
| Text.SameElementsSameMultiset | src/com_digitalruiz_shopify_tools/shopify_tools.py:111-114 | two lists without duplicates and with the same elements hold the same multiset |
| Tags.TagList | src/com_digitalruiz_shopify_tools/shopify_tools.py:107-110 | the tags of a comma separated string: split on ",", each part stripped |
| Tags.CheckTags | src/com_digitalruiz_shopify_tools/shopify_tools.py:103-116 | `check_tags` returns True exactly when the store lists a tag twice or the product has a tag the store lacks |
| Tags.UnionUnchangedIff | src/com_digitalruiz_shopify_tools/shopify_tools.py:111-114 | the sorted union equals the sorted store tags exactly when the store tags have no duplicates and contain every product tag |
| Tags.CheckProduct | src/com_digitalruiz_shopify_tools/shopify_tools.py:126-140 | an update is sent exactly when the store's body HTML is not the description, a null body HTML included; it carries the description and never the tags, because the union always contains the store's tags |
| VariantDiff.UpdateVariant | src/com_digitalruiz_shopify_tools/shopify_tools.py:198-224 | an update is sent exactly when the two prices differ as numbers, in either direction; it carries the parsed price and the store variant's id, and never the barcode |
| VariantDiff.BarcodeDetected | src/com_digitalruiz_shopify_tools/shopify_tools.py:209-215 | the store barcode is unset and prints differently from the parsed one, which is when the source logs a barcode difference |
| VariantDiff.DetectedBarcodeNotWritten | src/com_digitalruiz_shopify_tools/shopify_tools.py:209-216 | when a barcode difference is detected the update still carries no barcode, and no update is sent at all if the prices are equal: the assignment at 216 is commented out |
| VariantDiff.PaddedPriceNoUpdate | src/com_digitalruiz_shopify_tools/shopify_tools.py:205 | prices "d.f" and "d.f0" send no update, although their texts differ |
| NewVariants.ProductRecord.constructor | src/com_digitalruiz_shopify_tools/shopify_tools.py:172 | the record holds the parsed variants |
| NewVariants.Matches | src/com_digitalruiz_shopify_tools/shopify_tools.py:174-182 | a store variant matches a parsed one when `option1` and `option2` agree and, only when the parsed variant has an `option3`, that agrees too |
| NewVariants.MatchCount | src/com_digitalruiz_shopify_tools/shopify_tools.py:173-182 | a parsed variant matches at most as many store variants as there are |
| NewVariants.Repeat | src/com_digitalruiz_shopify_tools/shopify_tools.py:178 | n copies of the index, and nothing else |
| NewVariants.DeleteList | src/com_digitalruiz_shopify_tools/shopify_tools.py:172-182 | every collected index is a valid index of the parsed list |
| NewVariants.DeleteAt | src/com_digitalruiz_shopify_tools/shopify_tools.py:185 | `del` removes exactly one element |
| NewVariants.DeleteInReverse | src/com_digitalruiz_shopify_tools/shopify_tools.py:183-185 | when no `del` raises, the list loses one element per index |
| NewVariants.Unmatched | src/com_digitalruiz_shopify_tools/shopify_tools.py:172-186 | the intended result: the parsed variants that match no store variant, in their order |
| NewVariants.UnmatchedMembers | src/com_digitalruiz_shopify_tools/shopify_tools.py:172-186 | the variants to create are exactly the parsed variants that match no store variant |
| NewVariants.CreatedIds | src/com_digitalruiz_shopify_tools/shopify_tools.py:187-196 | the returned ids are exactly those of the successful creations, at most one per call |
| NewVariants.DeleteInReverseKeepsLast | src/com_digitalruiz_shopify_tools/shopify_tools.py:183-185 | the deletions do not touch an element after every deleted index |
| NewVariants.MatchedOnce | src/com_digitalruiz_shopify_tools/shopify_tools.py:172-182 | the intended delete list: each matched index once, in increasing order |
| NewVariants.DeleteMatchedOnceIsUnmatched | src/com_digitalruiz_shopify_tools/shopify_tools.py:172-185 | deleting each matched index once, last first, leaves exactly the unmatched variants, in their order |
| NewVariants.AtMostOnceSameList | src/com_digitalruiz_shopify_tools/shopify_tools.py:172-182 | when no parsed variant matches two store variants, the collected list is the intended list of matched indices |
| NewVariants.CollectIndex | src/com_digitalruiz_shopify_tools/shopify_tools.py:173-182 | the inner loop appends the index once per matching store variant |
| NewVariants.CollectMatches | src/com_digitalruiz_shopify_tools/shopify_tools.py:172-182 | the nested loop builds the delete list |
| NewVariants.DeleteInPlace | src/com_digitalruiz_shopify_tools/shopify_tools.py:183-185 | the product's variants become the list with those indices deleted, last first |
| NewVariants.CreateVariants | src/com_digitalruiz_shopify_tools/shopify_tools.py:186-196 | every remaining variant is sent, in order, and the ids of the created ones are returned |
| NewVariants.CheckNewVariants | src/com_digitalruiz_shopify_tools/shopify_tools.py:165-196 | the product keeps the variants left by the reverse deletion, and exactly those are sent; when each parsed variant matches at most one store variant, they are exactly the unmatched variants; the created ids are returned |
| NewVariants.DuplicateMatchDeletesUnmatched | src/com_digitalruiz_shopify_tools/shopify_tools.py:172-185 | a variant the store has twice puts its index in the list twice, which deletes an unmatched variant |
| Barcodes.AllVariantsSnoc | src/com_digitalruiz_shopify_tools/shopify_tools.py:316-317 | the variants are visited product by product, then variant by variant |
| Barcodes.BarcodesOfAppend | src/com_digitalruiz_shopify_tools/shopify_tools.py:318-321 | the collected barcodes of two runs are those of each run in turn |
| Barcodes.Repeated | src/com_digitalruiz_shopify_tools/shopify_tools.py:319-321 | each truthy barcode that already occurred earlier in the list, once per repetition |
| Barcodes.RepeatedCounts | src/com_digitalruiz_shopify_tools/shopify_tools.py:313-327 | a truthy barcode that occurs k times is reported k - 1 times; null and empty barcodes are never reported |
| Barcodes.ScanVariants | src/com_digitalruiz_shopify_tools/shopify_tools.py:317-321 | the inner loop appends the product's barcodes and keeps the duplicates list in step with them |
| Barcodes.Entry | src/com_digitalruiz_shopify_tools/shopify_tools.py:341-358 | the entry of one variant: an unset barcode gets the id as barcode and Success or Failed by the reply; a set one is Exists |
| Barcodes.CheckBarcodes | src/com_digitalruiz_shopify_tools/shopify_tools.py:313-327 | the result is every truthy barcode that already occurred, at each repetition, in store order |
| Barcodes.Entries | src/com_digitalruiz_shopify_tools/shopify_tools.py:340-359 | the report has one entry per variant |
| Barcodes.UnsetIds | src/com_digitalruiz_shopify_tools/shopify_tools.py:344-348 | the ids written as barcodes: those of the variants whose barcode is unset, in order |
| Barcodes.EntriesMeaning | src/com_digitalruiz_shopify_tools/shopify_tools.py:341-359 | each entry carries its variant's id and title; a set barcode gives Exists and writes none; an unset one ("None", "" or null) gets the id as barcode, with Success or Failed by the reply |
| Barcodes.GenerateBarcodes | src/com_digitalruiz_shopify_tools/shopify_tools.py:334-360 | the report carries the product id, the title and one entry per variant; its status is Failed exactly when some entry failed, otherwise Success; the ids written are those of the unset variants |
| Barcodes.AllVariants | src/com_digitalruiz_shopify_tools/shopify_tools.py:316-317 | the variants the nested loops visit: product by product, each product's variants in order (the same walk is at 369-370) |
| Barcodes.BarcodesOf | src/com_digitalruiz_shopify_tools/shopify_tools.py:318-321 | the barcodes the duplicate scan reads and appends, one per variant, in order |
| Barcodes.NatText | src/com_digitalruiz_shopify_tools/shopify_tools.py:347 | the decimal text of an id starts with a digit |
| Barcodes.IntText | src/com_digitalruiz_shopify_tools/shopify_tools.py:347 | the text of an id written as a barcode is neither "" nor "None" |
| Barcodes.Applied | src/com_digitalruiz_shopify_tools/shopify_tools.py:344-348 | after a run, each unset variant whose update succeeded carries its id as barcode, and nothing else changes |
| Barcodes.RerunWritesNothing | src/com_digitalruiz_shopify_tools/shopify_tools.py:344-357 | after a run whose updates all succeeded, a second run writes nothing and reports every variant as Exists |
| Barcodes.NoUnsetNoWrites | src/com_digitalruiz_shopify_tools/shopify_tools.py:344-348 | with no unset barcode, no barcode is written |
| Barcodes.FirstWith | src/com_digitalruiz_shopify_tools/shopify_tools.py:370-373 | the index of the first variant with the barcode: none before it has it, and it has it unless it is the end |
| Barcodes.FindInVariants | src/com_digitalruiz_shopify_tools/shopify_tools.py:370-373 | the inner loop returns the first variant with the barcode, or nothing when none has it |
| Barcodes.FindInProducts | src/com_digitalruiz_shopify_tools/shopify_tools.py:369-374 | the outer loop returns the first match in product order, then variant order |
| Barcodes.FirstWithAppend | src/com_digitalruiz_shopify_tools/shopify_tools.py:369-373 | the first match in two lists in turn is in the first list when it has one, otherwise in the second |
| Barcodes.FindVariantByBarcode | src/com_digitalruiz_shopify_tools/shopify_tools.py:362-375 | all products are searched when none are given; the result is absent exactly when no variant has the barcode, and otherwise it is the first variant that has it |
| Images.Contains | src/com_digitalruiz_shopify_tools/shopify_tools.py:48 | `md5 in src` holds exactly when the checksum occurs at some position of the URL |
| Images.Found | src/com_digitalruiz_shopify_tools/shopify_tools.py:43-50 | an image is found exactly when some store image's URL contains its checksum |
| Images.FoundAction | src/com_digitalruiz_shopify_tools/shopify_tools.py:54-69 | `create_image_found`: a featured image sends one update that appends the new variant ids to the store image's own, without removing repeats; any other image sends nothing |
| Images.NotFoundAction | src/com_digitalruiz_shopify_tools/shopify_tools.py:72-87 | `create_image_not_found`: one upload with the colour as alternative text, the data and the file name, and the new variant ids only for a featured image |
| Images.FoundActions | src/com_digitalruiz_shopify_tools/shopify_tools.py:46-50 | the found-image calls for one image: one per store image whose URL contains the checksum, in store order |
| Images.ImageActions | src/com_digitalruiz_shopify_tools/shopify_tools.py:42-52 | all calls for one image: the found-image calls, then the upload when nothing matched |
| Images.AllImageActions | src/com_digitalruiz_shopify_tools/shopify_tools.py:37-52 | the calls for all images, image by image |
| Images.UpdatesMatch | src/com_digitalruiz_shopify_tools/shopify_tools.py:46-64 | a call is the update of some store image whose URL contains the checksum |
| Images.EveryMatchUpdated | src/com_digitalruiz_shopify_tools/shopify_tools.py:46-64 | a featured image updates every store image whose URL contains its checksum, appending the new variant ids to the image's own |
| Images.UploadIffNotFound | src/com_digitalruiz_shopify_tools/shopify_tools.py:42-87 | an image is uploaded exactly when it was not found, and then that upload is its only call; a found image that is not featured leads to no call |
| Images.FoundActionsAreUpdates | src/com_digitalruiz_shopify_tools/shopify_tools.py:54-64 | a found image only ever updates store images, and only when it is featured |
| Images.NothingFoundNoUpdates | src/com_digitalruiz_shopify_tools/shopify_tools.py:43-52 | an image that matches no store image updates none |
| Images.UpdatesOnlyMatches | src/com_digitalruiz_shopify_tools/shopify_tools.py:46-64 | every update comes from a featured image and goes to a store image whose URL contains the checksum, with the new ids appended to its own |
| Images.ProcessImage | src/com_digitalruiz_shopify_tools/shopify_tools.py:43-52 | the inner loop makes one update per matching store image, in store order, then the upload when nothing matched |
| Images.CreateImages | src/com_digitalruiz_shopify_tools/shopify_tools.py:37-52 | the calls made for all images, image by image |

## Left out

- Calls to the store API and logging are not modelled. The store's data and the replies of update and create calls are inputs. `json.loads` of a reply is replaced by the id it carries.
- Images.NotFoundAction: the attachment is the image data as a string. The UTF-8 decode of the raw bytes at line 78, and the error it raises on bytes that are not UTF-8, are not modelled.
- `check_variants` (146-163) is not part of this model. It pairs every store variant with every parsed variant that matches it on `option1`, `option2` and, when present, `option3`, and calls `update_variant` on each pair. `NewVariants.Matches` states the same matching rule, and `VariantDiff.UpdateVariant` models the update of one pair.
- `sort_options` (226-238) is not part of this model. It replaces the values of the second option with their `merge_sort`, and the values of the third option too when there are three options, then sends the options to the store. `SizeSort.MergeSortSizes` models the sort it uses.
- `add_product` (13-35) and `add_variants` (89-101) are not part of this model. They send the parsed product or its variants to the store and collect the ids of what was created.
- LeadingNumber.IsDigit: only the ASCII digits '0' to '9' are digits. Python's `\d` and `float` also accept other Unicode decimal digits, such as "٣" (U+0663) or the fullwidth "３". For a size written with them, `LeadingNumber.MatchesDigitsOnly` is false and `LeadingNumber.Value` is 0, while the source would read the number.
- VariantDiff.UpdateVariant: requires both prices to be decimal literals such as "19.90", and compares their exact decimal values. It does not model binary floating point, exponents, signs, "inf"/"nan", or the ValueError `float` raises on other text.
- LeadingNumber.Value: reads the captured group as an exact decimal. `float` rounding could make two long, different labels compare equal; that is not modelled.
- SizeSort.MergeSortVariants: its precondition is sufficient rather than exact. It asks that every `option2` parse when the first one is digits only, which is more than the recursion actually reads.
- SizeSort.MergeSortSizes: requires every label of a list of two or more to hold a digit in its numeric prefix. Otherwise Python's `float` raises ValueError, and the model does not describe the raise.
- NewVariants.CheckNewVariants: requires that no `del` raises IndexError. It also requires one creation reply per remaining variant.
- NewVariants.CheckNewVariants: takes a single snapshot of the store's variants. A variant created in the same run is not seen again.
- NewVariants.Matches: a parsed variant whose `option3` key is present with a null value is treated like one without the key.
- Tags.CheckProduct: the product's own description is a string; a missing or null description is not modelled. The store's body HTML may be null.
- Text.Distinct: `list(set(...))` iterates in an order Python does not fix. The model keeps first occurrences. Every use either sorts the result or tests membership only.
- Text.SortStrings: Python's `list.sort` is modelled by insertion sort. `Text.SortedUnique` shows that any sorted permutation gives the same list.
- Barcodes.GenerateBarcodes: takes one reply per variant, and only consults it when a call is made.
- Barcodes.Applied: assumes the store reports a barcode written as the integer id as that id's decimal text. The source only writes the integer (line 347); what the store returns for it afterwards is an assumption about the store, on which `Barcodes.RerunWritesNothing` rests.
- Images.CreateImages: the alternative text is the product's colour, passed as an argument. An empty list of store images behaves like a list with no match, as in the source.
- Stability: the merge sorts are not stable (ties take the right element), so no stability property is stated. Nor are they idempotent: `SizeSort.SortingTwiceSwapsBack` shows a sorted list that a second sort changes.
- Price direction: the price is written whenever the two prices differ, in either direction, as the code does. It is not limited to increases.
- Tags in `check_product`: the tag update branch can never fire, so the payload never carries tags. The model proves this rather than modelling a tag union update.

## Findings

| source | as written | input that shows it | evidently intended | confidence | as-written member | corrected member |
|---|---|---|---|---|---|---|
| src/com_digitalruiz_shopify_tools/shopify_tools.py:172-185 | the index of a parsed variant is appended once per matching store variant, and every appended index is deleted | parsed variants a, b; store variants s1, s2, both matching a and neither matching b: `delete == [0, 0]`, both deletions hit index 0, and b is deleted though the store lacks it | each matched parsed variant deleted once, so that exactly the unmatched variants are created | not executed | NewVariants.DuplicateMatchDeletesUnmatched | NewVariants.DeleteMatchedOnceIsUnmatched |
| src/com_digitalruiz_shopify_tools/shopify_tools.py:245-247 | the digits-only check on `option2` is repeated at every level of the recursion, so any half whose first size is not digits only is returned unsorted and merged as it is | sizes "1", "3", "10W", "2": the right half ["10W", "2"] is left as it is and the result stays "1", "3", "10W", "2" | the check made once, on the whole list, so that a list that passes it comes out sorted by size | not executed | SizeSort.MixedSizesExample | SizeSort.SortVariantsCheckedSorts |
