/** The two size sorts: `merge_sort` orders option values (size labels) and
    `merge_sort_variants` orders variant records by their `option2` size.
    Both are top-down merge sorts that copy each half, sort the copies
    recursively and merge them back into the array they were given. The
    sort key is the numeric prefix of the label (module LeadingNumber). On
    equal keys the merge takes the element of the RIGHT half first, so the
    sort is not stable. */
module SizeSort {
  import opened ShopRecords
  import opened LeadingNumber

  /** Non-decreasing by `key`. */
  predicate SortedBy<T>(s: seq<T>, key: T -> real) {
    forall i, j :: 0 <= i < j < |s| ==> key(s[i]) <= key(s[j])
  }

  /** The merge loop, from the point where `i` elements of `left` and `j`
      of `right` have been written: the left head goes first only when its
      key is strictly smaller; on a tie the right head goes first; once one
      side is used up the rest of the other follows. */
  function MergeFrom<T>(left: seq<T>, right: seq<T>, i: nat, j: nat, key: T -> real): (m: seq<T>)
    requires i <= |left| && j <= |right|
    ensures |m| == |left| - i + |right| - j
    decreases |left| - i + |right| - j
  {
    if i == |left| then right[j..]
    else if j == |right| then left[i..]
    else if key(left[i]) < key(right[j]) then [left[i]] + MergeFrom(left, right, i + 1, j, key)
    else [right[j]] + MergeFrom(left, right, i, j + 1, key)
  }

  /** The merge writes exactly the remaining elements of both halves. */
  lemma {:induction false} MergeFromPermutes<T>(left: seq<T>, right: seq<T>, i: nat, j: nat, key: T -> real)
    requires i <= |left| && j <= |right|
    ensures multiset(MergeFrom(left, right, i, j, key)) == multiset(left[i..]) + multiset(right[j..])
    decreases |left| - i + |right| - j
  {
    if i < |left| && j < |right| {
      if key(left[i]) < key(right[j]) {
        MergeFromPermutes(left, right, i + 1, j, key);
        assert left[i..] == [left[i]] + left[i + 1..];
      } else {
        MergeFromPermutes(left, right, i, j + 1, key);
        assert right[j..] == [right[j]] + right[j + 1..];
      }
    }
  }

  /** The whole merge of two sorted halves. */
  function Merge<T>(left: seq<T>, right: seq<T>, key: T -> real): seq<T> {
    MergeFrom(left, right, 0, 0, key)
  }

  /** The order `merge_sort` produces: split at the midpoint, sort both
      halves, merge. */
  function MergeSortBy<T>(s: seq<T>, key: T -> real): (r: seq<T>)
    ensures multiset(r) == multiset(s)
    decreases |s|
  {
    if |s| <= 1 then s
    else
      var mid := |s| / 2;
      assert s == s[..mid] + s[mid..];
      MergeFromPermutes(MergeSortBy(s[..mid], key), MergeSortBy(s[mid..], key), 0, 0, key);
      Merge(MergeSortBy(s[..mid], key), MergeSortBy(s[mid..], key), key)
  }

  /** The sort key of a variant: the numeric prefix of its `option2`. */
  function SizeOfVariant(v: Variant): real {
    Value(v.option2)
  }

  /** The order `merge_sort_variants` produces. At every level of the
      recursion the slice is returned as it is when its first `option2` is
      not digits only. */
  function SortVariantsBySize(s: seq<Variant>): (r: seq<Variant>)
    ensures multiset(r) == multiset(s)
    decreases |s|
  {
    if |s| <= 1 then s
    else if !MatchesDigitsOnly(s[0].option2) then s
    else
      var mid := |s| / 2;
      assert s == s[..mid] + s[mid..];
      MergeFromPermutes(SortVariantsBySize(s[..mid]), SortVariantsBySize(s[mid..]), 0, 0, SizeOfVariant);
      Merge(SortVariantsBySize(s[..mid]), SortVariantsBySize(s[mid..]), SizeOfVariant)
  }

  lemma SortedCons<T>(h: T, rest: seq<T>, key: T -> real)
    requires SortedBy(rest, key)
    requires forall x :: x in rest ==> key(h) <= key(x)
    ensures SortedBy([h] + rest, key)
  {
    forall i, j | 0 <= i < j < |[h] + rest|
      ensures key(([h] + rest)[i]) <= key(([h] + rest)[j])
    {
      if i > 0 {
        assert ([h] + rest)[i] == rest[i - 1];
      }
      assert ([h] + rest)[j] == rest[j - 1];
    }
  }

  /** Every element the merge still writes has a key at least `bound`
      when every remaining element of both halves has. */
  lemma {:induction false} MergeFromAbove<T>(left: seq<T>, right: seq<T>, i: nat, j: nat, key: T -> real, bound: real)
    requires i <= |left| && j <= |right|
    requires forall t :: i <= t < |left| ==> bound <= key(left[t])
    requires forall t :: j <= t < |right| ==> bound <= key(right[t])
    ensures forall x :: x in MergeFrom(left, right, i, j, key) ==> bound <= key(x)
  {
    MergeFromPermutes(left, right, i, j, key);
    forall x | x in MergeFrom(left, right, i, j, key)
      ensures bound <= key(x)
    {
      assert x in multiset(MergeFrom(left, right, i, j, key));
      if x in multiset(left[i..]) {
        var t :| 0 <= t < |left[i..]| && left[i..][t] == x;
        assert left[i + t] == x;
      } else {
        var t :| 0 <= t < |right[j..]| && right[j..][t] == x;
        assert right[j + t] == x;
      }
    }
  }

  /** Merging two sorted sequences gives a sorted sequence. */
  lemma {:induction false} MergeFromKeepsSorted<T>(left: seq<T>, right: seq<T>, i: nat, j: nat, key: T -> real)
    requires i <= |left| && j <= |right|
    requires SortedBy(left, key) && SortedBy(right, key)
    ensures SortedBy(MergeFrom(left, right, i, j, key), key)
    decreases |left| - i + |right| - j
  {
    if i == |left| {
      assert forall t :: 0 <= t < |right[j..]| ==> right[j..][t] == right[j + t];
    } else if j == |right| {
      assert forall t :: 0 <= t < |left[i..]| ==> left[i..][t] == left[i + t];
    } else if key(left[i]) < key(right[j]) {
      MergeFromKeepsSorted(left, right, i + 1, j, key);
      MergeFromAbove(left, right, i + 1, j, key, key(left[i]));
      SortedCons(left[i], MergeFrom(left, right, i + 1, j, key), key);
    } else {
      MergeFromKeepsSorted(left, right, i, j + 1, key);
      MergeFromAbove(left, right, i, j + 1, key, key(right[j]));
      SortedCons(right[j], MergeFrom(left, right, i, j + 1, key), key);
    }
  }

  /** `merge_sort` returns a permutation of its input, non-decreasing by
      the key. */
  lemma {:induction false} MergeSortBySorts<T>(s: seq<T>, key: T -> real)
    ensures SortedBy(MergeSortBy(s, key), key)
    ensures multiset(MergeSortBy(s, key)) == multiset(s)
    decreases |s|
  {
    if |s| > 1 {
      var mid := |s| / 2;
      MergeSortBySorts(s[..mid], key);
      MergeSortBySorts(s[mid..], key);
      MergeFromKeepsSorted(MergeSortBy(s[..mid], key), MergeSortBy(s[mid..], key), 0, 0, key);
    }
  }

  /** When every `option2` is digits only, the check at each level never
      fires and `merge_sort_variants` is the plain merge sort. */
  lemma {:induction false} DigitSizesSortPlainly(s: seq<Variant>)
    requires forall i :: 0 <= i < |s| ==> MatchesDigitsOnly(s[i].option2)
    ensures SortVariantsBySize(s) == MergeSortBy(s, SizeOfVariant)
    decreases |s|
  {
    if |s| > 1 {
      var mid := |s| / 2;
      assert s[0] == s[..mid][0];
      DigitSizesSortPlainly(s[..mid]);
      DigitSizesSortPlainly(s[mid..]);
    }
  }

  /** `merge_sort_variants` returns a permutation of its input; it leaves
      the input as it is when it has at most one element or its first
      `option2` is not digits only; and when every `option2` is digits only
      the result is non-decreasing by size. */
  lemma SortVariantsBySizeMeaning(s: seq<Variant>)
    ensures multiset(SortVariantsBySize(s)) == multiset(s)
    ensures |s| <= 1 || !MatchesDigitsOnly(s[0].option2) ==> SortVariantsBySize(s) == s
    ensures (forall i :: 0 <= i < |s| ==> MatchesDigitsOnly(s[i].option2))
              ==> SortedBy(SortVariantsBySize(s), SizeOfVariant)
  {
    if forall i :: 0 <= i < |s| ==> MatchesDigitsOnly(s[i].option2) {
      DigitSizesSortPlainly(s);
      MergeSortBySorts(s, SizeOfVariant);
    }
  }

  /** The check at each level also fires on a right half whose first
      `option2` is not digits only, and that half is merged unsorted. */
  lemma MixedSizesStayUnsorted(a: Variant, b: Variant, c: Variant, d: Variant)
    requires MatchesDigitsOnly(a.option2) && !MatchesDigitsOnly(c.option2)
    requires SizeOfVariant(a) < SizeOfVariant(b) < SizeOfVariant(c)
    requires SizeOfVariant(d) < SizeOfVariant(c)
    ensures SortVariantsBySize([a, b, c, d]) == [a, b, c, d]
    ensures !SortedBy(SortVariantsBySize([a, b, c, d]), SizeOfVariant)
  {
    MixedSizesKept(a, b, c, d);
    assert [a, b, c, d][2] == c && [a, b, c, d][3] == d;
  }

  lemma MixedSizesKept(a: Variant, b: Variant, c: Variant, d: Variant)
    requires MatchesDigitsOnly(a.option2) && !MatchesDigitsOnly(c.option2)
    requires SizeOfVariant(a) < SizeOfVariant(b) < SizeOfVariant(c)
    ensures SortVariantsBySize([a, b, c, d]) == [a, b, c, d]
  {
    var s := [a, b, c, d];
    assert s[..2] == [a, b] && s[2..] == [c, d];
    OrderedPairKept(a, b);
    assert SortVariantsBySize([c, d]) == [c, d];
    LeftHalfFirst(a, b, c, d, SizeOfVariant);
    calc {
      SortVariantsBySize(s);
      Merge(SortVariantsBySize([a, b]), SortVariantsBySize([c, d]), SizeOfVariant);
      Merge([a, b], [c, d], SizeOfVariant);
    }
  }

  lemma LeftHalfFirst<T>(a: T, b: T, c: T, d: T, key: T -> real)
    requires key(a) < key(c) && key(b) < key(c)
    ensures Merge([a, b], [c, d], key) == [a, b, c, d]
  {
    assert MergeFrom([a, b], [c, d], 2, 0, key) == [c, d];
    assert MergeFrom([a, b], [c, d], 1, 0, key) == [b, c, d];
  }

  lemma OrderedPairKept(a: Variant, b: Variant)
    requires MatchesDigitsOnly(a.option2) && SizeOfVariant(a) < SizeOfVariant(b)
    ensures SortVariantsBySize([a, b]) == [a, b]
  {
    assert [a, b][..1] == [a] && [a, b][1..] == [b];
    assert SortVariantsBySize([a]) == [a] && SortVariantsBySize([b]) == [b];
    assert MergeFrom([a], [b], 1, 0, SizeOfVariant) == [b];
    assert Merge([a], [b], SizeOfVariant) == [a, b];
  }

  /** Sizes "1", "3", "10W", "2": the first half sorts, the second half
      starts with "10W", which is not digits only, and stays as it is, so
      `merge_sort_variants` returns them in the same order. */
  lemma MixedSizesExample(a: Variant, b: Variant, c: Variant, d: Variant)
    requires a.option2 == "1" && b.option2 == "3" && c.option2 == "10W" && d.option2 == "2"
    ensures SortVariantsBySize([a, b, c, d]) == [a, b, c, d]
    ensures !SortedBy(SortVariantsBySize([a, b, c, d]), SizeOfVariant)
  {
    DigitsValue("1");
    DigitsValue("3");
    DigitsValue("2");
    TenWValue();
    MixedSizesStayUnsorted(a, b, c, d);
  }

  /** "10W" reads as 10 and is not digits only. */
  lemma TenWValue()
    ensures Value("10W") == 10.0 && !MatchesDigitsOnly("10W")
  {
    assert Natural("10") == 10 by {
      assert "10"[..1] == "1";
    }
    LeadingDigitsOfRun("10", "W");
    assert "10" + "W" == "10W";
    assert !IsDigit("10W"[2]);
  }

  /** `merge_sort_variants` with the digits-only check made once, on the
      whole list, instead of at every level of the recursion. */
  function SortVariantsChecked(s: seq<Variant>): seq<Variant> {
    if |s| <= 1 || !MatchesDigitsOnly(s[0].option2) then s else MergeSortBy(s, SizeOfVariant)
  }

  /** With the check made once, a list whose first `option2` is digits only
      comes out as a sorted permutation. */
  lemma SortVariantsCheckedSorts(s: seq<Variant>)
    ensures multiset(SortVariantsChecked(s)) == multiset(s)
    ensures |s| > 1 && MatchesDigitsOnly(s[0].option2) ==> SortedBy(SortVariantsChecked(s), SizeOfVariant)
  {
    MergeSortBySorts(s, SizeOfVariant);
  }

  lemma ExampleValues()
    ensures Value("10") == 10.0 && Value("2") == 2.0 && Value("1.5") == 1.5
  {
    ValueOfTen();
    DigitsValue("2");
    ValueOfOnePointFive();
  }

  lemma ValueOfTen()
    ensures Value("10") == 10.0
  {
    DigitsValue("10");
    assert "10"[..1] == "1";
  }

  lemma ValueOfOnePointFive()
    ensures Value("1.5") == 1.5
  {
    FractionValue("1", "5");
    assert "1" + "." + "5" == "1.5";
    assert "1"[..0] == [] && "5"[..0] == [];
  }

  /** Sorting two elements: the left one first only when its key is
      strictly smaller. */
  lemma SortsPair<T>(x: T, y: T, key: T -> real)
    ensures MergeSortBy([x, y], key) == if key(x) < key(y) then [x, y] else [y, x]
  {
    var s := [x, y];
    assert s[..1] == [x] && s[1..] == [y];
    assert MergeSortBy([x], key) == [x] && MergeSortBy([y], key) == [y];
    assert MergeSortBy(s, key) == Merge([x], [y], key);
    assert MergeFrom([x], [y], 1, 0, key) == [y];
    assert MergeFrom([x], [y], 0, 1, key) == [x];
  }

  lemma MergesOneIntoPair<T>(a: T, b: T, c: T, key: T -> real)
    requires key(b) < key(c) < key(a)
    ensures Merge([a], [b, c], key) == [b, c, a]
  {
    assert MergeFrom([a], [b, c], 0, 2, key) == [a];
    assert MergeFrom([a], [b, c], 0, 1, key) == [c, a];
  }

  /** Three labels given in strictly decreasing key order come out reversed. */
  lemma ReversesThreeDecreasing<T>(a: T, b: T, c: T, key: T -> real)
    requires key(c) < key(b) < key(a)
    ensures MergeSortBy([a, b, c], key) == [c, b, a]
  {
    var s := [a, b, c];
    assert s[..1] == [a] && s[1..] == [b, c];
    SortsPair(b, c, key);
    MergesOneIntoPair(a, c, b, key);
    calc {
      MergeSortBy(s, key);
      Merge(MergeSortBy([a], key), MergeSortBy([b, c], key), key);
      Merge([a], [c, b], key);
    }
  }

  /** `merge_sort(["10", "2", "1.5"])` gives `["1.5", "2", "10"]`. */
  lemma NumericLabelsExample()
    ensures MergeSortBy(["10", "2", "1.5"], Value) == ["1.5", "2", "10"]
  {
    ExampleValues();
    ReversesThreeDecreasing("10", "2", "1.5", Value);
  }

  /** Two labels with equal keys come out swapped: the right one first. */
  lemma SwapsEqualPair<T>(a: T, b: T, key: T -> real)
    requires key(a) == key(b)
    ensures MergeSortBy([a, b], key) == [b, a]
  {
    SortsPair(a, b, key);
  }

  /** Equal keys come out right half first: `merge_sort(["7a", "7b"])` gives
      `["7b", "7a"]`, so the sort does not keep the input order of ties. */
  lemma TiesTakeRightFirst()
    ensures MergeSortBy(["7a", "7b"], Value) == ["7b", "7a"]
  {
    assert Value("7a") == Value("7b") by {
      LeadingDigitsOfRun("7", "a");
      assert "7" + "a" == "7a";
      LeadingDigitsOfRun("7", "b");
      assert "7" + "b" == "7b";
    }
    SwapsEqualPair("7a", "7b", Value);
  }

  /** Because ties are swapped, sorting a sorted list again can change it:
      `merge_sort` applied twice to `["7a", "7b"]` gives the input back. */
  lemma SortingTwiceSwapsBack()
    ensures MergeSortBy(MergeSortBy(["7a", "7b"], Value), Value) == ["7a", "7b"]
    ensures MergeSortBy(["7a", "7b"], Value) != ["7a", "7b"]
  {
    TiesTakeRightFirst();
    assert Value("7b") == Value("7a") by {
      LeadingDigitsOfRun("7", "a");
      assert "7" + "a" == "7a";
      LeadingDigitsOfRun("7", "b");
      assert "7" + "b" == "7b";
    }
    SwapsEqualPair("7b", "7a", Value);
  }

  /** A fresh array holding `s`: the slice copies `arr[:mid]` and
      `arr[mid:]`. */
  method CopyToArray<T>(s: seq<T>) returns (b: array<T>)
    ensures fresh(b) && b[..] == s
  {
    b := new T[|s|](i requires 0 <= i < |s| => s[i]);
  }

  /** The merge loops of both sorts: walk `left` and `right` with `i` and
      `j`, write the smaller head into `a[k]` (the right head on a tie),
      then copy whichever half is left over. */
  method MergeInto<T>(a: array<T>, left: array<T>, right: array<T>, key: T -> real)
    requires a != left && a != right
    requires left.Length + right.Length == a.Length
    modifies a
    ensures a[..] == Merge(left[..], right[..], key)
  {
    ghost var merged := Merge(left[..], right[..], key);
    var i, j := MergeHeads(a, left, right, key);
    var k := i + j;
    ghost var written := a[..k];
    if i < left.Length {
      CopyRest(a, k, left, i);
    } else {
      CopyRest(a, k, right, j);
    }
    assert a[..k] == merged[..k] && a[k..] == merged[k..];
    assert a[..] == a[..k] + a[k..];
    assert merged == merged[..k] + merged[k..];
  }

  /** The first merge loop: while both halves have elements, the smaller
      head goes next (the right head on a tie). It stops when one half is
      used up, having written the start of the merge. */
  method MergeHeads<T>(a: array<T>, left: array<T>, right: array<T>, key: T -> real) returns (i: nat, j: nat)
    requires a != left && a != right
    requires left.Length + right.Length == a.Length
    modifies a
    ensures i <= left.Length && j <= right.Length && (i == left.Length || j == right.Length)
    ensures a[..i + j] == Merge(left[..], right[..], key)[..i + j]
    ensures Merge(left[..], right[..], key)[i + j..] == MergeFrom(left[..], right[..], i, j, key)
    ensures forall t :: i + j <= t < a.Length ==> a[t] == old(a[t])
  {
    ghost var l, r := left[..], right[..];
    ghost var merged := MergeFrom(l, r, 0, 0, key);
    i, j := 0, 0;
    var k := 0;
    while i < left.Length && j < right.Length
      invariant i <= |l| && j <= |r| && k == i + j
      invariant forall t :: 0 <= t < k ==> a[t] == merged[t]
      invariant merged[k..] == MergeFrom(l, r, i, j, key)
      invariant forall t :: k <= t < a.Length ==> a[t] == old(a[t])
    {
      if key(left[i]) < key(right[j]) {
        a[k] := left[i];
        i := i + 1;
      } else {
        a[k] := right[j];
        j := j + 1;
      }
      assert merged[k + 1..] == merged[k..][1..];
      k := k + 1;
    }
    assert a[..k] == merged[..k];
  }

  /** The two loops that finish a merge: copy `src[from..]` into `a` from
      index `k` on. */
  method CopyRest<T>(a: array<T>, k: nat, src: array<T>, from: nat)
    requires a != src
    requires k <= a.Length && from <= src.Length && a.Length - k == src.Length - from
    modifies a
    ensures a[..k] == old(a[..k]) && a[k..] == src[from..]
  {
    var i, n := from, k;
    while i < src.Length
      invariant from <= i <= src.Length && n == k + (i - from)
      invariant a[..k] == old(a[..k])
      invariant forall t :: k <= t < n ==> a[t] == src[from + (t - k)]
    {
      a[n] := src[i];
      i := i + 1;
      n := n + 1;
    }
  }

  /** No label raises in `float`: a list of at most one label (nothing is
      compared), or one whose every label has a numeric prefix with a
      digit. */
  predicate LabelsReadable(s: seq<string>) {
    |s| <= 1 || forall i :: 0 <= i < |s| ==> Parses(s[i])
  }

  lemma ReadableHalves(s: seq<string>, mid: nat)
    requires LabelsReadable(s) && mid <= |s|
    ensures LabelsReadable(s[..mid]) && LabelsReadable(s[mid..])
  {
    assert forall i :: 0 <= i < mid ==> s[..mid][i] == s[i];
    assert forall i :: 0 <= i < |s| - mid ==> s[mid..][i] == s[mid + i];
  }

  /** `merge_sort(arr)`: sorts the labels in place. Python's `float` raises
      unless every label of a list of two or more has a numeric prefix with
      a digit; the precondition says so. */
  method MergeSortSizes(a: array<string>)
    requires LabelsReadable(a[..])
    modifies a
    ensures a[..] == MergeSortBy(old(a[..]), Value)
    decreases a.Length
  {
    if a.Length > 1 {
      var mid := a.Length / 2;
      ghost var input := a[..];
      var left := CopyToArray(a[..mid]);
      var right := CopyToArray(a[mid..]);
      ReadableHalves(input, mid);
      MergeSortSizes(left);
      MergeSortSizes(right);
      MergeInto(a, left, right, Value);
      assert a[..] == Merge(MergeSortBy(input[..mid], Value), MergeSortBy(input[mid..], Value), Value);
    }
  }

  /** No size label raises in `float`: a list of at most one variant, or
      one whose first `option2` is not digits only (nothing is compared),
      or one whose every `option2` has a numeric prefix with a digit. */
  predicate SizesReadable(s: seq<Variant>) {
    |s| <= 1 || !MatchesDigitsOnly(s[0].option2) || forall i :: 0 <= i < |s| ==> Parses(s[i].option2)
  }

  /** `merge_sort_variants(arr_var)`: sorts the variants in place by their
      `option2` size, leaving the list as it is when its first `option2` is
      not digits only. */
  method MergeSortVariants(a: array<Variant>)
    requires SizesReadable(a[..])
    modifies a
    ensures a[..] == SortVariantsBySize(old(a[..]))
    decreases a.Length
  {
    if a.Length > 1 {
      if !MatchesDigitsOnly(a[0].option2) {
        return;
      }
      var mid := a.Length / 2;
      var left := CopyToArray(a[..mid]);
      var right := CopyToArray(a[mid..]);
      assert left[0] == a[0];
      MergeSortVariants(left);
      MergeSortVariants(right);
      MergeInto(a, left, right, SizeOfVariant);
    }
  }
}
