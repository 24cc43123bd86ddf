/** What both halves of the mangler achieve together: from a fresh overlay of the new
    certificate to a blob that passes the final check. */
module Mangling {
  import opened Bytes
  import opened SliceGrid
  import opened Stuffing
  import opened Padding

  // ---------- The starting point ----------

  /** The new certificate at the end of the original one. */
  function Overlay(blob: seq<Byte>, pem: seq<Byte>): (b: seq<Byte>)
    requires |pem| <= |blob|
    ensures |b| == |blob|
  {
    blob[..|blob| - |pem|] + pem
  }

  /** Which byte of the old header is raised; its successor is lowered. */
  function TweakAt(fsl: Alignment): nat {
    if fsl > 2 then 0 else 3
  }

  function Raised(b: Byte): Byte {
    if b == 255 then 0 else b + 1
  }

  function Lowered(b: Byte): Byte {
    if b == 0 then 255 else b - 1
  }

  function Tweak(fsl: Alignment, b: seq<Byte>): (t: seq<Byte>)
    requires |b| >= 5
    ensures |t| == |b|
  {
    var p := TweakAt(fsl);
    b[p := Raised(b[p])][p + 1 := Lowered(b[p + 1])]
  }

  function Prepared(fsl: Alignment, blob: seq<Byte>, pem: seq<Byte>): (b: seq<Byte>)
    requires |pem| <= |blob| && |blob| >= 5
    ensures |b| == |blob|
  {
    Tweak(fsl, Overlay(blob, pem))
  }

  /** Neither of the two header bytes wraps. */
  predicate TweakFits(fsl: Alignment, blob: seq<Byte>)
    requires |blob| >= 5
  {
    blob[TweakAt(fsl)] < 255 && blob[TweakAt(fsl) + 1] > 0
  }

  /** The tweak does not change the sum of a stretch that has both bytes or neither. */
  lemma TweakKeepsSum(fsl: Alignment, b: seq<Byte>, lo: nat, hi: nat)
    requires |b| >= 5 && lo <= hi <= |b|
    requires (lo <= TweakAt(fsl) && TweakAt(fsl) + 2 <= hi) || hi <= TweakAt(fsl) || TweakAt(fsl) + 2 <= lo
    ensures Same8(b[lo..hi], Tweak(fsl, b)[lo..hi])
    ensures TweakFits(fsl, b) ==> Sum(b[lo..hi]) == Sum(Tweak(fsl, b)[lo..hi])
  {
    hide SumTo;
    var p, t := TweakAt(fsl), Tweak(fsl, b);
    if lo <= p && p + 2 <= hi {
      SumAroundPair(b[lo..hi], p - lo);
      SumAroundPair(t[lo..hi], p - lo);
      assert b[lo..hi][..p - lo] == t[lo..hi][..p - lo];
      assert b[lo..hi][p - lo + 2..] == t[lo..hi][p - lo + 2..];
      var rest := Sum(b[lo..hi][..p - lo]) + Sum(b[lo..hi][p - lo + 2..]);
      PairSum(b[p], b[p + 1], rest);
    } else {
      assert b[lo..hi] == t[lo..hi];
    }
  }

  lemma SumAroundPair(s: seq<Byte>, p: nat)
    requires p + 2 <= |s|
    ensures Sum(s) == Sum(s[..p]) + Sum(s[p + 2..]) + s[p] + s[p + 1]
  {
    SumStep(s, 0, p);
    SumStep(s, 0, p + 1);
    SumSplit(s, p + 2);
    assert s[0..p] == s[..p] && s[0..p + 1] == s[..p + 1] && s[0..p + 2] == s[..p + 2];
  }

  lemma PairSum(x: Byte, y: Byte, rest: nat)
    ensures (rest + x + y) % 256 == (rest + Raised(x) + Lowered(y)) % 256
  {
    var k := (if x == 255 then 1 else 0) - (if y == 0 then 1 else 0);
    Shift8(rest + x + y, 0 - k);
  }

  /** Below a boundary inside the old part, the starting point still has the sums of the original. */
  lemma LowerStretch(fsl: Alignment, blob: seq<Byte>, pem: seq<Byte>, start: nat, i: nat, j: nat)
    requires |pem| <= |blob| && |blob| >= 5 && i <= j
    requires start <= |blob| - |pem| && Bound(fsl, |blob|, i) <= Bound(fsl, |blob|, j) <= start
    ensures var b := Prepared(fsl, blob, pem);
      var lo, hi := Bound(fsl, |blob|, i), Bound(fsl, |blob|, j);
      Same8(blob[lo..hi], b[lo..hi]) && (TweakFits(fsl, blob) ==> Sum(blob[lo..hi]) == Sum(b[lo..hi]))
  {
    hide SumTo;
    var t := Tweak(fsl, blob);
    var lo, hi := Bound(fsl, |blob|, i), Bound(fsl, |blob|, j);
    if hi >= TweakAt(fsl) + 2 {
      assert Prepared(fsl, blob, pem)[lo..hi] == t[lo..hi];
    } else {
      assert Prepared(fsl, blob, pem)[lo..hi] == blob[lo..hi] == t[lo..hi];
    }
    TweakKeepsSum(fsl, blob, lo, hi);
  }

  // ---------- After the walk ----------

  /** The walk leaves a blob in which all slices but the padded one are right. */
  ghost predicate AllButPadded(fsl: Alignment, blob: seq<Byte>, b: seq<Byte>, room: nat)
    requires |b| == |blob|
  {
    var j := PaddedSlice(fsl, room);
    && Same16(blob[..Bound(fsl, |blob|, j)], b[..Bound(fsl, |blob|, j)])
    && forall i: nat :: i != j ==> SliceAgrees(fsl, blob, b, i)
  }

  lemma LowerSliceKept(fsl: Alignment, blob: seq<Byte>, pem: seq<Byte>, b: seq<Byte>, start: nat, i: nat)
    requires |pem| <= |blob| == |b| && |blob| >= 5
    requires Bound(fsl, |blob|, i + 1) <= start <= |blob| - |pem|
    requires b[..start] == Prepared(fsl, blob, pem)[..start]
    ensures SliceAgrees(fsl, blob, b, i)
  {
    hide Prepared, SumTo;
    BoundMonotone(fsl, |blob|, i);
    LowerStretch(fsl, blob, pem, start, i, i + 1);
    SliceInPrefix(fsl, b, Prepared(fsl, blob, pem), start, i);
  }

  lemma UpperSliceBalanced(fsl: Alignment, blob: seq<Byte>, given: seq<Byte>, room: nat, i: nat)
    requires |blob| == |given| && room <= |blob|
    requires var r := StuffFrom(blob, given, LastStart(fsl, |blob|), room);
      r.Stuffed? && r.room <= Bound(fsl, |blob|, i) && i > 0
    ensures SliceAgrees(fsl, blob, StuffFrom(blob, given, LastStart(fsl, |blob|), room).blob, i)
  {
    hide StuffFrom, SumTo;
    var lo := Bound(fsl, |blob|, i);
    if lo < |blob| {
      StuffedSlicesBalanced(blob, given, LastStart(fsl, |blob|), room, lo);
      assert Bound(fsl, |blob|, i + 1) == Min(lo + SLICE_LEN, |blob|);
    }
  }

  /** The walk, started on a fresh overlay. */
  function Walk(fsl: Alignment, blob: seq<Byte>, pem: seq<Byte>): (r: Outcome)
    requires |pem| <= |blob| && |blob| >= 5
    ensures r.Stuffed? ==> |r.blob| == |blob| && r.room <= |blob| - |pem|
  {
    StuffFrom(blob, Prepared(fsl, blob, pem), LastStart(fsl, |blob|), |blob| - |pem|)
  }

  lemma WalkSliceAgrees(fsl: Alignment, blob: seq<Byte>, pem: seq<Byte>, i: nat)
    requires |pem| <= |blob| && |blob| >= 5
    requires var r := Walk(fsl, blob, pem);
      r.Stuffed? && EndsInsideSlice(fsl, |blob|, r.room) && i != PaddedSlice(fsl, r.room)
    ensures SliceAgrees(fsl, blob, Walk(fsl, blob, pem).blob, i)
  {
    hide StuffFrom, SumTo, Prepared, PaddedSlice, LastStart, SliceAgrees;
    var n, given, last := |blob|, Prepared(fsl, blob, pem), LastStart(fsl, |blob|);
    var Stuffed(b, room) := Walk(fsl, blob, pem);
    var j := PaddedSlice(fsl, room);
    if i < j {
      PaddingUntouched(blob, given, last, n - |pem|);
      SamePrefix(b, given, Bound(fsl, n, j), room);
      BoundsInOrder(fsl, n, i + 1, j);
      LowerSliceKept(fsl, blob, pem, b, Bound(fsl, n, j), i);
    } else {
      BoundsInOrder(fsl, n, j + 1, i);
      UpperSliceBalanced(fsl, blob, given, n - |pem|, i);
    }
  }

  lemma WalkLeavesPaddedSlice(fsl: Alignment, blob: seq<Byte>, pem: seq<Byte>)
    requires |pem| <= |blob| && |blob| >= 5 && TweakFits(fsl, blob)
    requires Walk(fsl, blob, pem).Stuffed? && EndsInsideSlice(fsl, |blob|, Walk(fsl, blob, pem).room)
    ensures AllButPadded(fsl, blob, Walk(fsl, blob, pem).blob, Walk(fsl, blob, pem).room)
  {
    hide StuffFrom, SumTo, Prepared, TweakFits, PaddedSlice, LastStart, SliceAgrees;
    var given := Prepared(fsl, blob, pem);
    var Stuffed(b, room) := Walk(fsl, blob, pem);
    var j := PaddedSlice(fsl, room);
    var start := Bound(fsl, |blob|, j);
    PaddingUntouched(blob, given, LastStart(fsl, |blob|), |blob| - |pem|);
    SamePrefix(b, given, start, room);
    LowerStretch(fsl, blob, pem, start, 0, j);
    assert blob[0..start] == blob[..start] && given[0..start] == given[..start];
    forall i: nat | i != j ensures SliceAgrees(fsl, blob, b, i) {
      WalkSliceAgrees(fsl, blob, pem, i);
    }
  }

  // ---------- After the fix-up ----------

  /** Padding of the right weight, up to a multiple of 256, repairs the padded slice
      and everything above it. */
  lemma PaddedSliceAgrees(fsl: Alignment, blob: seq<Byte>, b: seq<Byte>, f: seq<Byte>,
                          room: nat, pad: seq<Byte>, excess: nat)
    requires |b| == |blob| == |f| && AllButPadded(fsl, blob, b, room) && EndsInsideSlice(fsl, |b|, room)
    requires var start := Bound(fsl, |b|, PaddedSlice(fsl, room));
      && |pad| == room - start && f[start..] == pad + b[room..]
      && Sum(pad) + 256 * excess == Delta(blob, b, start, room)
    ensures forall i: nat :: i >= PaddedSlice(fsl, room) ==> SliceAgrees(fsl, blob, f, i)
  {
    hide SumTo, PaddedSlice;
    var n, j := |blob|, PaddedSlice(fsl, room);
    var start, end := Bound(fsl, n, j), Bound(fsl, n, j + 1);
    assert f[room..] == f[start..][room - start..] == b[room..];
    forall i: nat | i > j ensures SliceAgrees(fsl, blob, f, i) {
      BoundsInOrder(fsl, n, j + 1, i);
      SliceInSuffix(fsl, f, b, room, i);
      assert SliceAgrees(fsl, blob, b, i);
    }
    TailsAgree(fsl, blob, f, j + 1);
    TailWeighs(blob, b, f, start, room, pad, excess);
    assert blob[start..][..end - start] == blob[start..end] && blob[start..][end - start..] == blob[end..];
    assert f[start..][..end - start] == f[start..end] && f[start..][end - start..] == f[end..];
    Same8Difference(blob[start..], f[start..], end - start);
    assert SliceAgrees(fsl, blob, f, j);
  }

  lemma TailWeighs(blob: seq<Byte>, b: seq<Byte>, f: seq<Byte>, start: nat, room: nat, pad: seq<Byte>, excess: nat)
    requires |b| == |blob| == |f| && start < room <= |b| && |pad| == room - start
    requires f[start..] == pad + b[room..]
    requires Sum(pad) + 256 * excess == Delta(blob, b, start, room)
    ensures (Sum(f[start..]) + 256 * excess) % 0x1_0000 == Sum(blob[start..]) % 0x1_0000
    ensures Same8(blob[start..], f[start..])
  {
    hide SumTo;
    SumConcat(pad, b[room..]);
    Wrap16(Sum(blob[start..]) - Sum(b[room..]), Sum(b[room..]));
    Narrow(Sum(f[start..]) + 256 * excess, Sum(blob[start..]));
    Shift8(Sum(f[start..]), excess);
  }

  /** Two strings with equal sums and equal tails have equal heads. */
  lemma Same8Difference(a: seq<Byte>, b: seq<Byte>, mid: nat)
    requires |a| == |b| && mid <= |a| && Same8(a, b) && Same8(a[mid..], b[mid..])
    ensures Same8(a[..mid], b[..mid])
  {
    hide SumTo;
    SumSplit(a, mid);
    SumSplit(b, mid);
    var k := Sum(a[mid..]) / 256 - Sum(b[mid..]) / 256;
    var l := Sum(a) / 256 - Sum(b) / 256;
    assert Sum(a[..mid]) == Sum(b[..mid]) + 256 * (l - k);
    Shift8(Sum(b[..mid]), l - k);
  }

  /** The ordinary branch completes the job: the final check must accept. */
  lemma EvenPaddingIsAccepted(fsl: Alignment, blob: seq<Byte>, b: seq<Byte>, room: nat)
    requires |b| == |blob| && AllButPadded(fsl, blob, b, room)
    requires FixUp(fsl, blob, b, room).Even?
    ensures Acceptable(fsl, blob, FixUp(fsl, blob, b, room).blob)
  {
    hide SumTo, EvenPadding, Delta, Average, LastByte, PaddedSlice, Carry, FullPadding;
    var j, f := PaddedSlice(fsl, room), FixUp(fsl, blob, b, room).blob;
    var start := Bound(fsl, |b|, j);
    var delta := Delta(blob, b, start, room);
    var pad := EvenPadding(delta, room - start);
    EvenPaddingWeighs(delta, room - start);
    assert f[..start] == b[..start] && f[start..] == pad + b[room..];
    PaddedSliceAgrees(fsl, blob, b, f, room, pad, 0);
    forall i: nat | i < j ensures SliceAgrees(fsl, blob, f, i) {
      BoundsInOrder(fsl, |b|, i + 1, j);
      SliceInPrefix(fsl, f, b, start, i);
      assert SliceAgrees(fsl, blob, b, i);
    }
    TailWeighs(blob, b, f, start, room, pad, 0);
    SumSplit(blob, start);
    SumSplit(f, start);
    Add16(Sum(blob[..start]), Sum(blob[start..]), Sum(f[..start]), Sum(f[start..]));
  }

  // ---------- The carry branch ----------

  /** When the bytes of the slice below weigh what was left over: a matter of how many
      of them wrap. */
  lemma GainCoversExcess(n: nat, q: nat, inc: nat, wrapped: nat)
    requires 1 <= n <= 128 && 1 <= q <= 255 && wrapped <= n && inc == 2 * q % 256
    ensures (inc * n - 256 * wrapped - 256 * q) % 0x1_0000 == 0
       <==> n == 128 && wrapped == if q < 128 then 0 else 128
  {
    var t, m := if q < 128 then q else q - 128, 128 - n;
    assert inc == 2 * t;
    ShortfallOf(t, n, m);
    if n < 128 {
      Multiples(t, 1, m);
      Multiples(m, t, 127);
      MulCommutes(m, t);
    }
  }

  /** The bytes that take the increment wrap exactly when at least 128 * 256 was left over. */
  predicate WrapsRight(below: seq<Byte>, inc: Byte, q: nat) {
    forall i :: 0 <= i < |below| ==> (below[i] + inc > 255 <==> q >= 128)
  }

  lemma GainIsRight(below: seq<Byte>, q: nat, inc: Byte)
    requires 1 <= |below| <= 128 && 1 <= q <= 255 && inc == 2 * q % 256
    ensures var gain := inc * |below| - 256 * Wrapped(below, inc, |below|);
      && ((gain - 256 * q) % 0x1_0000 == 0 <==> |below| == 128 && WrapsRight(below, inc, q))
      && (|below| == 128 ==> gain % 256 == 0)
  {
    var w := Wrapped(below, inc, |below|);
    GainCoversExcess(|below|, q, inc, w);
    NoneWraps(below, inc, |below|);
    if |below| == 128 {
      assert inc * |below| - 256 * w == 256 * (inc / 2 - w);
    }
  }

  lemma ShortfallOf(t: nat, n: nat, m: nat)
    requires n + m == 128
    ensures 2 * t * n == 256 * t - 2 * (t * m)
  {}

  lemma MulCommutes(x: nat, y: nat)
    ensures x * y == y * x
  {}

  /** What the carry branch does to the part below the padded slice. */
  lemma CarryBelow(b: seq<Byte>, start: nat, end: nat, room: nat, pad: seq<Byte>, excess: nat)
    requires SLICE_LEN <= start <= room <= |b| && start <= end <= start + SLICE_LEN && |pad| == room - start
    ensures var f := Carry(b, start, end, room, pad, excess);
      var from, inc := start - SLICE_LEN, 2 * excess % 256;
      && f[start..] == pad + b[room..]
      && f[..from] == b[..from]
      && Sum(f[from..start]) == Sum(b[from..start]) + inc * (end - start)
           - 256 * Wrapped(b[from..end - SLICE_LEN], inc, end - start)
  {
    hide SumTo, AddEach;
    var f := Carry(b, start, end, room, pad, excess);
    var from, to, inc := start - SLICE_LEN, end - SLICE_LEN, 2 * excess % 256;
    assert f[from..start] == AddEach(b[from..to], inc) + b[to..start];
    assert b[from..start] == b[from..to] + b[to..start];
    SumConcat(AddEach(b[from..to], inc), b[to..start]);
    SumConcat(b[from..to], b[to..start]);
    SumAddEachTo(b[from..to], inc, end - start);
  }

  lemma CarryLowerSlices(fsl: Alignment, blob: seq<Byte>, b: seq<Byte>, f: seq<Byte>, room: nat, gain: int)
    requires |b| == |blob| == |f| && AllButPadded(fsl, blob, b, room)
    requires var start := Bound(fsl, |b|, PaddedSlice(fsl, room));
      && start >= SLICE_LEN && f[..start - SLICE_LEN] == b[..start - SLICE_LEN]
      && Sum(f[start - SLICE_LEN..start]) == Sum(b[start - SLICE_LEN..start]) + gain && gain % 256 == 0
      && start < |b|
    ensures forall i: nat :: i < PaddedSlice(fsl, room) ==> SliceAgrees(fsl, blob, f, i)
  {
    hide SumTo, PaddedSlice;
    var j := PaddedSlice(fsl, room);
    var from := Bound(fsl, |b|, j) - SLICE_LEN;
    assert j >= 2 && from == Bound(fsl, |b|, j - 1);
    forall i: nat | i < j ensures SliceAgrees(fsl, blob, f, i) {
      assert SliceAgrees(fsl, blob, b, i);
      if i < j - 1 {
        BoundsInOrder(fsl, |b|, i + 1, j - 1);
        SliceInPrefix(fsl, f, b, from, i);
      } else {
        Shift8(Sum(Slice(fsl, b, i)), gain / 256);
      }
    }
  }

  lemma CarryTotal(blob: seq<Byte>, b: seq<Byte>, f: seq<Byte>, start: nat, excess: nat, gain: int)
    requires |b| == |blob| == |f| && start <= |b| && Same16(blob[..start], b[..start])
    requires Sum(f[..start]) == Sum(b[..start]) + gain
    requires (Sum(f[start..]) + 256 * excess) % 0x1_0000 == Sum(blob[start..]) % 0x1_0000
    ensures Same16(blob, f) <==> (gain - 256 * excess) % 0x1_0000 == 0
  {
    hide SumTo;
    SumSplit(blob, start);
    SumSplit(f, start);
    var d := gain - 256 * excess;
    Add16(Sum(f[start..]) + 256 * excess, Sum(b[..start]), Sum(blob[start..]), Sum(blob[..start]));
    Add16(Sum(f) - d, d, Sum(blob), d);
    if d % 0x1_0000 == 0 {
      Shift16(Sum(blob), d / 0x1_0000);
    } else if Same16(blob, f) {
      Add16(Sum(f), 0 - Sum(blob), Sum(blob) + d, 0 - Sum(blob));
      Add16(Sum(f), 0 - Sum(blob), Sum(blob), 0 - Sum(blob));
      assert false;
    }
  }

  /** The carry branch, measured against the padded slice [start, end). */
  lemma CarryShape(fsl: Alignment, blob: seq<Byte>, b: seq<Byte>, room: nat)
    requires |b| == |blob| && FixUp(fsl, blob, b, room).Carried?
    ensures var f, j := FixUp(fsl, blob, b, room).blob, PaddedSlice(fsl, room);
      var start, end := Bound(fsl, |b|, j), Bound(fsl, |b|, j + 1);
      var q := LeftOver(fsl, blob, b, room);
      && SLICE_LEN <= start < room < end <= |b| && end <= start + SLICE_LEN
      && f[room..] == b[room..]
      && f == Carry(b, start, end, room, f[start..room], q)
      && Sum(f[start..room]) + 256 * q == Delta(blob, b, start, room)
  {
    hide SumTo, AddEach, FullPadding, EvenPadding, Average, LastByte, PaddedSlice, Excess, Delta;
    var j, f := PaddedSlice(fsl, room), FixUp(fsl, blob, b, room).blob;
    var start := Bound(fsl, |b|, j);
    var delta := Delta(blob, b, start, room);
    LargeAverage(delta, room - start);
    FullPaddingWeighs(delta, room - start);
    assert f[start..room] == FullPadding(delta, room - start);
  }

  /** The exact outcome of the carry branch. All slice sums are right whenever the
      padded slice is a full one. The final check accepts if and only if it is, and
      either less than 128 * 256 was left over and no byte of the slice below wraps, or
      at least that much was left over and every byte of it wraps. */
  lemma CarryOutcome(fsl: Alignment, blob: seq<Byte>, b: seq<Byte>, room: nat)
    requires |b| == |blob| && AllButPadded(fsl, blob, b, room)
    requires FixUp(fsl, blob, b, room).Carried?
    ensures var f, j := FixUp(fsl, blob, b, room).blob, PaddedSlice(fsl, room);
      var start, end := Bound(fsl, |b|, j), Bound(fsl, |b|, j + 1);
      var q := LeftOver(fsl, blob, b, room);
      && (end - start == SLICE_LEN ==> SlicesAgree(fsl, blob, f))
      && (Acceptable(fsl, blob, f) <==>
            end - start == SLICE_LEN && WrapsRight(b[start - SLICE_LEN..start], 2 * q % 256, q))
  {
    hide SumTo, PaddedSlice, LeftOver, FixUp, Bound, WrapsRight, Delta, Carry;
    var f, j := FixUp(fsl, blob, b, room).blob, PaddedSlice(fsl, room);
    var start, end := Bound(fsl, |b|, j), Bound(fsl, |b|, j + 1);
    var q := LeftOver(fsl, blob, b, room);
    CarryShape(fsl, blob, b, room);
    CarryParts(fsl, blob, b, f, room, q);
    if end - start == SLICE_LEN {
      CarryLowerSlices(fsl, blob, b, f, room, Sum(f[start - SLICE_LEN..start]) - Sum(b[start - SLICE_LEN..start]));
    }
  }

  lemma CarryParts(fsl: Alignment, blob: seq<Byte>, b: seq<Byte>, f: seq<Byte>, room: nat, q: nat)
    requires |b| == |blob| == |f| && AllButPadded(fsl, blob, b, room)
    requires EndsInsideSlice(fsl, |b|, room) && 1 <= q <= 255
    requires var start, end := Bound(fsl, |b|, PaddedSlice(fsl, room)), Bound(fsl, |b|, PaddedSlice(fsl, room) + 1);
      && SLICE_LEN <= start < room < end <= |b| && end <= start + SLICE_LEN
      && f == Carry(b, start, end, room, f[start..room], q)
      && Sum(f[start..room]) + 256 * q == Delta(blob, b, start, room)
    ensures var j := PaddedSlice(fsl, room);
      var start, end := Bound(fsl, |b|, j), Bound(fsl, |b|, j + 1);
      var gain := Sum(f[start - SLICE_LEN..start]) - Sum(b[start - SLICE_LEN..start]);
      && f[..start - SLICE_LEN] == b[..start - SLICE_LEN]
      && (forall i: nat :: i >= j ==> SliceAgrees(fsl, blob, f, i))
      && (end - start == SLICE_LEN ==> gain % 256 == 0)
      && (Same16(blob, f) <==> end - start == SLICE_LEN && WrapsRight(b[start - SLICE_LEN..start], 2 * q % 256, q))
  {
    hide SumTo, PaddedSlice, Bound, Carry, Wrapped, WrapsRight, Delta, SliceAgrees, Same8, Same16;
    var j := PaddedSlice(fsl, room);
    var start, end := Bound(fsl, |b|, j), Bound(fsl, |b|, j + 1);
    CarryBelow(b, start, end, room, f[start..room], q);
    PaddedSliceAgrees(fsl, blob, b, f, room, f[start..room], q);
    TailWeighs(blob, b, f, start, room, f[start..room], q);
    SumSplitIn(f, start - SLICE_LEN, start);
    SumSplitIn(b, start - SLICE_LEN, start);
    CarryTotal(blob, b, f, start, q, Sum(f[..start]) - Sum(b[..start]));
    GainIsRight(b[start - SLICE_LEN..end - SLICE_LEN], q, 2 * q % 256);
  }

  lemma SumSplitIn(s: seq<Byte>, mid: nat, end: nat)
    requires mid <= end <= |s|
    ensures Sum(s[..end]) == Sum(s[..mid]) + Sum(s[mid..end])
  {
    SumSplit(s[..end], mid);
    assert s[..end][..mid] == s[..mid] && s[..end][mid..] == s[mid..end];
  }

  // ---------- One attempt ----------

  datatype Attempt = Accepted(blob: seq<Byte>, room: nat) | Rejected | Crashes

  /** Everything that is done for one alignment. */
  ghost function Mangle(fsl: Alignment, blob: seq<Byte>, pem: seq<Byte>): (a: Attempt)
    requires |pem| <= |blob| && |blob| >= 5
    ensures a.Accepted? ==> |a.blob| == |blob| && a.room <= |blob| - |pem| && Acceptable(fsl, blob, a.blob)
  {
    match Walk(fsl, blob, pem)
    case Fault(_) => Crashes
    case Unmatched => Rejected
    case Stuffed(b, room) =>
      var fix := FixUp(fsl, blob, b, room);
      if fix.Succeeds() && Acceptable(fsl, blob, fix.blob) then Accepted(fix.blob, room) else Rejected
  }

  /** When the walk succeeds and the fix-up pads evenly, the final check cannot reject. */
  lemma EvenPaddingNeverRejected(fsl: Alignment, blob: seq<Byte>, pem: seq<Byte>)
    requires |pem| <= |blob| && |blob| >= 5 && TweakFits(fsl, blob)
    requires Walk(fsl, blob, pem).Stuffed?
    requires FixUp(fsl, blob, Walk(fsl, blob, pem).blob, Walk(fsl, blob, pem).room).Even?
    ensures Mangle(fsl, blob, pem).Accepted?
  {
    var Stuffed(b, room) := Walk(fsl, blob, pem);
    WalkLeavesPaddedSlice(fsl, blob, pem);
    EvenPaddingIsAccepted(fsl, blob, b, room);
  }

  /** When the walk succeeds and the fix-up carries, the final check accepts exactly in the cases of
      `CarryOutcome`. */
  lemma CarriedIsAccepted(fsl: Alignment, blob: seq<Byte>, pem: seq<Byte>)
    requires |pem| <= |blob| && |blob| >= 5 && TweakFits(fsl, blob)
    requires Walk(fsl, blob, pem).Stuffed?
    requires FixUp(fsl, blob, Walk(fsl, blob, pem).blob, Walk(fsl, blob, pem).room).Carried?
    ensures var Stuffed(b, room) := Walk(fsl, blob, pem);
      var j, q := PaddedSlice(fsl, room), LeftOver(fsl, blob, b, room);
      var start, end := Bound(fsl, |b|, j), Bound(fsl, |b|, j + 1);
      if end - start == SLICE_LEN <= start && WrapsRight(b[start - SLICE_LEN..start], 2 * q % 256, q)
      then Mangle(fsl, blob, pem).Accepted? else Mangle(fsl, blob, pem).Rejected?
  {
    hide Walk, FixUp, Acceptable, PaddedSlice, Bound, LeftOver, WrapsRight, SlicesAgree;
    var Stuffed(b, room) := Walk(fsl, blob, pem);
    CarriedInside(fsl, blob, b, room);
    WalkLeavesPaddedSlice(fsl, blob, pem);
    CarryOutcome(fsl, blob, b, room);
  }

  lemma CarriedInside(fsl: Alignment, blob: seq<Byte>, b: seq<Byte>, room: nat)
    requires |b| == |blob| && FixUp(fsl, blob, b, room).Carried?
    ensures EndsInsideSlice(fsl, |b|, room) && SLICE_LEN <= Bound(fsl, |b|, PaddedSlice(fsl, room))
  {
    hide Carry, FullPadding, EvenPadding, Delta, Average, LastByte, PaddedSlice, Bound, Fill, EndsInsideSlice;
  }

  /** The fix-up pads evenly, or it carries in one of the cases of `CarryOutcome`. */
  ghost predicate FixedRight(fsl: Alignment, blob: seq<Byte>, b: seq<Byte>, room: nat)
    requires |b| == |blob|
  {
    var fix := FixUp(fsl, blob, b, room);
    fix.Even? || (fix.Carried? &&
      var j, q := PaddedSlice(fsl, room), LeftOver(fsl, blob, b, room);
      var start, end := Bound(fsl, |b|, j), Bound(fsl, |b|, j + 1);
      end - start == SLICE_LEN <= start && WrapsRight(b[start - SLICE_LEN..start], 2 * q % 256, q))
  }

  /** How an attempt ends: it runs out of bounds if and only if the walk reaches a slice that makes it,
      and it is accepted if and only if the walk reaches none of those, none that nothing fits, and
      the fix-up comes out right. */
  lemma AttemptOutcome(fsl: Alignment, blob: seq<Byte>, pem: seq<Byte>)
    requires |pem| <= |blob| && |blob| >= 5
    ensures var given, last, room := Prepared(fsl, blob, pem), LastStart(fsl, |blob|), |blob| - |pem|;
      && (Mangle(fsl, blob, pem).Crashes? <==> exists n: nat :: OutOfBoundsAfter(blob, given, last, room, n))
      && ((exists n: nat :: NothingFitsAfter(blob, given, last, room, n)) ==> Mangle(fsl, blob, pem).Rejected?)
    ensures TweakFits(fsl, blob) ==>
      var given, last, room := Prepared(fsl, blob, pem), LastStart(fsl, |blob|), |blob| - |pem|;
      (Mangle(fsl, blob, pem).Accepted? <==>
        && (forall n: nat :: !OutOfBoundsAfter(blob, given, last, room, n))
        && (forall n: nat :: !NothingFitsAfter(blob, given, last, room, n))
        && Walk(fsl, blob, pem).Stuffed?
        && FixedRight(fsl, blob, Walk(fsl, blob, pem).blob, Walk(fsl, blob, pem).room))
  {
    hide StuffFrom, OutOfBoundsAfter, NothingFitsAfter, FixUp, Acceptable, Prepared, TweakFits, LastStart;
    hide WrapsRight, Bound, PaddedSlice, LeftOver;
    var given, last, room := Prepared(fsl, blob, pem), LastStart(fsl, |blob|), |blob| - |pem|;
    FaultsAreTight(fsl, blob, given, last, room);
    GivingUpIsTight(blob, given, last, room);
    if TweakFits(fsl, blob) && Walk(fsl, blob, pem).Stuffed? {
      if FixUp(fsl, blob, Walk(fsl, blob, pem).blob, Walk(fsl, blob, pem).room).Even? {
        EvenPaddingNeverRejected(fsl, blob, pem);
      } else if FixUp(fsl, blob, Walk(fsl, blob, pem).blob, Walk(fsl, blob, pem).room).Carried? {
        CarriedIsAccepted(fsl, blob, pem);
      }
    }
  }

  /** Where the part begins that the fix-up may change: with the padded slice, or one slice earlier. */
  function FixedFrom(fsl: Alignment, blob: seq<Byte>, b: seq<Byte>, room: nat): (from: nat)
    requires |b| == |blob| && FixUp(fsl, blob, b, room).Succeeds()
    ensures from < room <= |b|
  {
    var start := Bound(fsl, |b|, PaddedSlice(fsl, room));
    if FixUp(fsl, blob, b, room).Carried? then
      CarriedInside(fsl, blob, b, room);
      start - SLICE_LEN
    else start
  }

  lemma FixUpKeepsBelow(fsl: Alignment, blob: seq<Byte>, b: seq<Byte>, room: nat)
    requires |b| == |blob| && FixUp(fsl, blob, b, room).Succeeds()
    ensures var from := FixedFrom(fsl, blob, b, room);
      FixUp(fsl, blob, b, room).blob[..from] == b[..from]
  {
    hide EvenPadding, FullPadding, AddEach, Average, LastByte, PaddedSlice, Delta, Excess, SumTo, Bound;
  }

  /** What the tweak makes of the byte at `i`: of the first two bytes the first is one more and the
      second one less, or of the fourth and fifth for first slices of up to two bytes. */
  function TweakedByte(fsl: Alignment, i: nat, was: Byte): Byte {
    var p := if fsl > 2 then 0 else 3;
    if i == p then (was + 1) % 256 else if i == p + 1 then (was + 255) % 256 else was
  }

  /** What every accepted blob starts with: the original one, up to the part that the fix-up may change,
      with its header tweaked. So five equal dashes are no longer there. */
  lemma AcceptedHeader(fsl: Alignment, blob: seq<Byte>, pem: seq<Byte>)
    requires |pem| <= |blob| && |blob| >= 5
    requires Mangle(fsl, blob, pem).Accepted?
    ensures var f, Stuffed(b, room) := Mangle(fsl, blob, pem).blob, Walk(fsl, blob, pem);
      && FixUp(fsl, blob, b, room).Succeeds() && FixedFrom(fsl, blob, b, room) < |blob| - |pem|
      && (forall i :: 0 <= i < FixedFrom(fsl, blob, b, room) ==> f[i] == TweakedByte(fsl, i, blob[i]))
      && (FixedFrom(fsl, blob, b, room) >= 5 && blob[..5] == Fill(45, 5) ==> f[..5] != Fill(45, 5))
  {
    hide StuffFrom, FixUp, Acceptable, LastStart, FixedFrom;
    var f := Mangle(fsl, blob, pem).blob;
    var Stuffed(b, room) := Walk(fsl, blob, pem);
    var given, from := Prepared(fsl, blob, pem), FixedFrom(fsl, blob, b, room);
    PaddingUntouched(blob, given, LastStart(fsl, |blob|), |blob| - |pem|);
    FixUpKeepsBelow(fsl, blob, b, room);
    SamePrefix(b, given, from, room);
    forall i | 0 <= i < from ensures f[i] == TweakedByte(fsl, i, blob[i]) {
      assert f[..from][i] == given[..from][i];
    }
    if from >= 5 && blob[..5] == Fill(45, 5) {
      var p := if fsl > 2 then 0 else 3;
      assert blob[..5][p] == 45 && f[..5][p] == 46;
    }
  }

  /** The fix-up leaves the certificate alone. */
  lemma FixUpKeepsCertificate(fsl: Alignment, blob: seq<Byte>, b: seq<Byte>, room: nat)
    requires |b| == |blob| && room <= |b| && FixUp(fsl, blob, b, room).Succeeds()
    ensures FixUp(fsl, blob, b, room).blob[room..] == b[room..]
  {
    hide EvenPadding, FullPadding, AddEach, Average, LastByte, PaddedSlice, Delta, Excess, SumTo;
  }

  /** The new certificate as the walk is given it: with those bytes changed that the tweak meets. */
  function Placed(fsl: Alignment, blob: seq<Byte>, pem: seq<Byte>): (given: seq<Byte>)
    requires |pem| <= |blob|
    ensures |given| == |pem|
  {
    seq(|pem|, i requires 0 <= i < |pem| => TweakedByte(fsl, |blob| - |pem| + i, pem[i]))
  }

  lemma PreparedEndsWith(fsl: Alignment, blob: seq<Byte>, pem: seq<Byte>)
    requires |pem| <= |blob| && |blob| >= 5
    ensures Prepared(fsl, blob, pem)[|blob| - |pem|..] == Placed(fsl, blob, pem)
  {}

  /** What an accepted blob holds behind its padding: the overlaid certificate as the walk was given
      it, with only line breaks added, and with no CR that lacks its LF. That is the new PEM, unless
      so little padding was left that the header tweak fell into it. */
  lemma MangledCertificateIntact(fsl: Alignment, blob: seq<Byte>, pem: seq<Byte>)
    requires |pem| <= |blob| && |blob| >= 5
    requires Mangle(fsl, blob, pem).Accepted?
    ensures var Accepted(f, room), given := Mangle(fsl, blob, pem), Placed(fsl, blob, pem);
      && OnlyBreaksAdded(given, f[room..])
      && Strip(f[room..]) == Strip(given)
      && (CR !in given ==> NoLoneCR(f[room..]))
      && (given == pem <==> TweakAt(fsl) + 2 <= |blob| - |pem|)
  {
    hide StuffFrom, FixUp, Acceptable, LastStart, OnlyBreaksAdded, Strip, Placed;
    var Accepted(f, room) := Mangle(fsl, blob, pem);
    var given := Prepared(fsl, blob, pem);
    PreparedEndsWith(fsl, blob, pem);
    TweakBelow(fsl, blob, pem);
    StuffingKeepsPayload(blob, given, LastStart(fsl, |blob|), |blob| - |pem|);
    FixUpKeepsCertificate(fsl, blob, Walk(fsl, blob, pem).blob, room);
    BreaksAreStripped(given[|blob| - |pem|..], f[room..]);
  }

  /** A replacement that holds a certificate: from the end of its padding on it is the PEM, as it was
      overlaid, with only line breaks added, and with no CR that lacks its LF. */
  ghost predicate Holds(fsl: Alignment, blob: seq<Byte>, pem: seq<Byte>, f: seq<Byte>) {
    |pem| <= |blob| == |f| && |blob| >= 5 && exists room :: HoldsFrom(fsl, blob, pem, f, room)
  }

  ghost predicate HoldsFrom(fsl: Alignment, blob: seq<Byte>, pem: seq<Byte>, f: seq<Byte>, room: nat)
    requires |pem| <= |blob| == |f| && |blob| >= 5
  {
    var given := Placed(fsl, blob, pem);
    && room <= |blob| - |pem|
    && OnlyBreaksAdded(given, f[room..])
    && Strip(f[room..]) == Strip(given)
    && (CR !in given ==> NoLoneCR(f[room..]))
    && (given == pem <==> TweakAt(fsl) + 2 <= |blob| - |pem|)
  }

  lemma MangledHolds(fsl: Alignment, blob: seq<Byte>, pem: seq<Byte>)
    requires |pem| <= |blob| && |blob| >= 5
    requires Mangle(fsl, blob, pem).Accepted?
    ensures Holds(fsl, blob, pem, Mangle(fsl, blob, pem).blob)
  {
    MangledCertificateIntact(fsl, blob, pem);
    hide Mangle, Placed, Strip, OnlyBreaksAdded, NoLoneCR;
    assert HoldsFrom(fsl, blob, pem, Mangle(fsl, blob, pem).blob, Mangle(fsl, blob, pem).room);
  }

  /** The tweak leaves the certificate alone exactly when it lies below it. */
  lemma TweakBelow(fsl: Alignment, blob: seq<Byte>, pem: seq<Byte>)
    requires |pem| <= |blob| && |blob| >= 5
    ensures Prepared(fsl, blob, pem)[|blob| - |pem|..] == pem <==> TweakAt(fsl) + 2 <= |blob| - |pem|
  {
    var at, p, given := |blob| - |pem|, TweakAt(fsl), Prepared(fsl, blob, pem);
    assert Overlay(blob, pem)[at..] == pem;
    if at < p + 2 {
      assert given[p + 1] != Overlay(blob, pem)[p + 1];
      assert given[at..][p + 1 - at] == given[p + 1] && pem[p + 1 - at] == Overlay(blob, pem)[p + 1];
    }
  }

  // ---------- Two inputs that fail ----------

  /** The fix-up reports success here, but the final check rejects: 195 * 256 is left over, and no
      byte of the slice below wraps. */
  lemma CarryCanFail()
    ensures var blob, pem := Fill(45, 256), Fill(90, 68);
      var b := Prepared(0, blob, pem);
      && TweakFits(0, blob)
      && Walk(0, blob, pem) == Stuffed(b, 188)
      && FixUp(0, blob, b, 188).Carried?
      && Mangle(0, blob, pem).Rejected?
  {
    hide Walk, FixUp, Mangle, Fill, Prepared, TweakFits;
    CarryCaseFails(0, Fill(45, 256), Fill(90, 68));
  }

  lemma CarryCaseFails(fsl: Alignment, blob: seq<Byte>, pem: seq<Byte>)
    requires fsl == 0 && blob == Fill(45, 256) && pem == Fill(90, 68)
    ensures var b := Prepared(fsl, blob, pem);
      TweakFits(fsl, blob) && Walk(fsl, blob, pem) == Stuffed(b, 188) && FixUp(fsl, blob, b, 188).Carried?
    ensures Mangle(fsl, blob, pem).Rejected?
  {
    hide Walk, FixUp, Mangle, Fill, Prepared, LeftOver, WrapsRight, PaddedSlice, Bound, EndsInsideSlice, TweakFits;
    var b := Prepared(fsl, blob, pem);
    CarryWalk(blob, pem, b);
    CarryCase(blob, pem, b);
    CarriedIsAccepted(fsl, blob, pem);
  }

  lemma CarryWalk(blob: seq<Byte>, pem: seq<Byte>, b: seq<Byte>)
    requires blob == Fill(45, 256) && pem == Fill(90, 68) && b == Prepared(0, blob, pem)
    ensures TweakFits(0, blob) && Walk(0, blob, pem) == Stuffed(b, 188)
  {
    hide StuffFrom, Prepared;
    BelowRoomNothingHappens(blob, b, 128, 188);
  }

  lemma CarryCase(blob: seq<Byte>, pem: seq<Byte>, b: seq<Byte>)
    requires blob == Fill(45, 256) && pem == Fill(90, 68) && b == Prepared(0, blob, pem)
    ensures Bound(0, 256, PaddedSlice(0, 188)) == 128
    ensures FixUp(0, blob, b, 188).Carried? && LeftOver(0, blob, b, 188) == 195
    ensures !WrapsRight(b[0..128], 134, 195)
  {
    hide Carry, FullPadding, EvenPadding, AddEach, SumTo;
    assert blob[128..] == Fill(45, 128) && b[188..] == pem;
    SumFill(45, 128);
    SumFill(90, 68);
    assert Delta(blob, b, 128, 188) == 65176;
    assert PaddedSlice(0, 188) == 2 && Bound(0, 256, 2) == 128 && Bound(0, 256, 3) == 256;
    assert b[0..128][10] == 45;
  }

  /** A certificate as long as the original one leaves no padding; as soon as a slice needs a run, the
      program runs out of bounds. */
  lemma NoPaddingCanCrash()
    ensures Mangle(10, Fill(45, 10) + Fill(LF, 2), Fill(45, 10) + Fill(65, 2)).Crashes?
  {
    var blob, pem := Fill(45, 10) + Fill(LF, 2), Fill(45, 10) + Fill(65, 2);
    var given := Prepared(10, blob, pem);
    assert blob[10..12] == Fill(LF, 2) && given[10..12] == Fill(65, 2);
    SumFill(LF, 2);
    SumFill(65, 2);
    RunShape(2, 0);
    assert Run(2, 0) + given[10..12][2..] == Run(2, 0);
    SliceOutcome(blob, given, 10, 0);
  }
}
