/** The slice grid that the checksums of a replaced certificate are taken over,
    and the check that decides whether a candidate is acceptable. */
module SliceGrid {
  import opened Bytes

  const SLICE_LEN: nat := 128

  /** Alignments: how many bytes of the blob lie before the first record boundary inside it. */
  type Alignment = a: nat | a < SLICE_LEN

  /** Where slice `j` starts: slice 0 is the part before the first boundary, and
      slice `j + 1` starts `j` full slices after it; everything is cut off at the end. */
  function Bound(fsl: Alignment, n: nat, j: nat): (b: nat)
    ensures b <= n
  {
    if j == 0 then 0 else
    var b := fsl + SLICE_LEN * (j - 1);
    if b < n then b else n
  }

  function Slice(fsl: Alignment, s: seq<Byte>, j: nat): seq<Byte> {
    BoundMonotone(fsl, |s|, j);
    s[Bound(fsl, |s|, j)..Bound(fsl, |s|, j + 1)]
  }

  lemma BoundMonotone(fsl: Alignment, n: nat, j: nat)
    ensures Bound(fsl, n, j) <= Bound(fsl, n, j + 1)
  {}

  /** Every slice of `b` has the `uint8` sum that it has in `a`. */
  ghost predicate SlicesAgree(fsl: Alignment, a: seq<Byte>, b: seq<Byte>)
    requires |a| == |b|
  {
    forall j: nat :: SliceAgrees(fsl, a, b, j)
  }

  predicate SliceAgrees(fsl: Alignment, a: seq<Byte>, b: seq<Byte>, j: nat)
    requires |a| == |b|
  {
    Same8(Slice(fsl, a, j), Slice(fsl, b, j))
  }

  /** Both checksum levels of the firmware are kept. */
  ghost predicate Acceptable(fsl: Alignment, a: seq<Byte>, b: seq<Byte>)
    requires |a| == |b|
  {
    SlicesAgree(fsl, a, b) && Same16(a, b)
  }

  lemma EmptySlicesAgree(fsl: Alignment, a: seq<Byte>, b: seq<Byte>, j: nat)
    requires |a| == |b| && Bound(fsl, |a|, j) == |a|
    ensures SliceAgrees(fsl, a, b, j)
  {}

  lemma BoundsInOrder(fsl: Alignment, n: nat, i: nat, j: nat)
    requires i <= j
    ensures Bound(fsl, n, i) <= Bound(fsl, n, j)
  {}

  lemma SliceInPrefix(fsl: Alignment, a: seq<Byte>, b: seq<Byte>, x: nat, i: nat)
    requires |a| == |b| && Bound(fsl, |a|, i + 1) <= x <= |a| && a[..x] == b[..x]
    ensures Slice(fsl, a, i) == Slice(fsl, b, i)
  {
    var lo, hi := Bound(fsl, |a|, i), Bound(fsl, |a|, i + 1);
    BoundMonotone(fsl, |a|, i);
    assert a[lo..hi] == a[..x][lo..hi] && b[lo..hi] == b[..x][lo..hi];
  }

  lemma PartOfTail(s: seq<Byte>, x: nat, lo: nat, hi: nat)
    requires x <= lo <= hi <= |s|
    ensures s[lo..hi] == s[x..][lo - x..hi - x]
  {
    assert s[x..hi] == s[x..][..hi - x];
    assert s[x..hi][lo - x..] == s[lo..hi];
  }

  lemma SliceInSuffix(fsl: Alignment, a: seq<Byte>, b: seq<Byte>, x: nat, i: nat)
    requires |a| == |b| && x <= Bound(fsl, |a|, i) && a[x..] == b[x..]
    ensures Slice(fsl, a, i) == Slice(fsl, b, i)
  {
    var lo, hi := Bound(fsl, |a|, i), Bound(fsl, |a|, i + 1);
    BoundMonotone(fsl, |a|, i);
    PartOfTail(a, x, lo, hi);
    PartOfTail(b, x, lo, hi);
  }

  /** Two strings whose heads and tails have equal sums have equal sums. */
  lemma Same8Concat(a: seq<Byte>, b: seq<Byte>, mid: nat)
    requires |a| == |b| && mid <= |a|
    requires Same8(a[..mid], b[..mid]) && Same8(a[mid..], b[mid..])
    ensures Same8(a, b)
  {
    SumSplit(a, mid);
    SumSplit(b, mid);
    Add8(Sum(a[..mid]), Sum(a[mid..]), Sum(b[..mid]), Sum(b[mid..]));
  }

  /** When all slices from `j` on agree, the tails they make up agree too. */
  lemma {:induction false} TailsAgree(fsl: Alignment, a: seq<Byte>, b: seq<Byte>, j: nat)
    requires |a| == |b|
    requires forall i: nat :: i >= j ==> SliceAgrees(fsl, a, b, i)
    ensures Same8(a[Bound(fsl, |a|, j)..], b[Bound(fsl, |a|, j)..])
    decreases |a| - Bound(fsl, |a|, j), if j == 0 then 1 else 0
  {
    var lo, hi := Bound(fsl, |a|, j), Bound(fsl, |a|, j + 1);
    if lo < |a| {
      TailsAgree(fsl, a, b, j + 1);
      assert SliceAgrees(fsl, a, b, j);
      assert a[lo..][..hi - lo] == a[lo..hi] && a[lo..][hi - lo..] == a[hi..];
      assert b[lo..][..hi - lo] == b[lo..hi] && b[lo..][hi - lo..] == b[hi..];
      Same8Concat(a[lo..], b[lo..], hi - lo);
    }
  }

  /** The inner loop of the final check: both checksum levels of both blobs at once. */
  method SumSlices(blob: seq<Byte>, newBlob: seq<Byte>, start: nat, end: nat, origSum: nat, newSum: nat)
      returns (origChecksum: Byte, newChecksum: Byte, origTotal: nat, newTotal: nat)
    requires |blob| == |newBlob| && start <= end <= |blob|
    requires origSum == Sum(blob[0..start]) % 0x1_0000 && newSum == Sum(newBlob[0..start]) % 0x1_0000
    ensures origChecksum == Sum(blob[start..end]) % 256 && newChecksum == Sum(newBlob[start..end]) % 256
    ensures origTotal == Sum(blob[0..end]) % 0x1_0000 && newTotal == Sum(newBlob[0..end]) % 0x1_0000
  {
    origChecksum, newChecksum, origTotal, newTotal := 0, 0, origSum, newSum;
    for i := start to end
      invariant origChecksum == Sum(blob[start..i]) % 256 && newChecksum == Sum(newBlob[start..i]) % 256
      invariant origTotal == Sum(blob[0..i]) % 0x1_0000 && newTotal == Sum(newBlob[0..i]) % 0x1_0000
    {
      Step8(blob, start, i);
      Step8(newBlob, start, i);
      Step16(blob, 0, i);
      Step16(newBlob, 0, i);
      origChecksum, newChecksum := (origChecksum + blob[i]) % 256, (newChecksum + newBlob[i]) % 256;
      origTotal, newTotal := (origTotal + blob[i]) % 0x1_0000, (newTotal + newBlob[i]) % 0x1_0000;
    }
  }

  /** The final check. The answer is -1 exactly for acceptable replacements; any
      other answer names the first slice that is wrong, or is 0 when only the
      whole sum is. */
  method FirstNonMatchingSlice(fsl: Alignment, blob: seq<Byte>, newBlob: seq<Byte>) returns (first: int)
    requires |blob| == |newBlob|
    ensures first == -1 <==> Acceptable(fsl, blob, newBlob)
    ensures first != -1 && SlicesAgree(fsl, blob, newBlob) ==> first == 0
    ensures !SlicesAgree(fsl, blob, newBlob) ==>
      first >= 0 && !SliceAgrees(fsl, blob, newBlob, first)
      && forall j: nat :: j < first ==> SliceAgrees(fsl, blob, newBlob, j)
  {
    var n := |blob|;
    var start, end: nat, matches, slices: nat := 0, fsl, 0, 0;
    first := -1;
    var origSum, newSum := 0, 0;
    while start < n
      invariant start == Bound(fsl, n, slices)
      invariant start < n ==> end == fsl + SLICE_LEN * slices
      invariant origSum == Sum(blob[0..start]) % 0x1_0000
      invariant newSum == Sum(newBlob[0..start]) % 0x1_0000
      invariant first == -1 ==> matches == slices
      invariant first != -1 ==> 0 <= first < slices && !SliceAgrees(fsl, blob, newBlob, first)
      invariant forall j: nat :: j < (if first == -1 then slices else first) ==> SliceAgrees(fsl, blob, newBlob, j)
      decreases n - start, if slices == 0 then 1 else 0
    {
      if end > n {
        end := n;
      }
      var origChecksum, newChecksum;
      origChecksum, newChecksum, origSum, newSum := SumSlices(blob, newBlob, start, end, origSum, newSum);
      assert Bound(fsl, n, slices + 1) == end;
      assert origChecksum == newChecksum <==> SliceAgrees(fsl, blob, newBlob, slices);
      if origChecksum == newChecksum {
        matches := matches + 1;
      } else if first == -1 {
        first := matches;
      }
      slices := slices + 1;
      start := end;
      end := end + SLICE_LEN;
    }
    assert blob[0..n] == blob && newBlob[0..n] == newBlob;
    if first == -1 {
      forall j: nat ensures SliceAgrees(fsl, blob, newBlob, j) {
        if j >= slices {
          EmptySlicesAgree(fsl, blob, newBlob, j);
        }
      }
      if origSum != newSum {
        first := 0;
      }
    }
  }
}
