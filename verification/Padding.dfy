/** The second half of the certificate mangler: bytes for the padding that is left,
    chosen so that the slice they share with the certificate, and the whole blob, keep
    their sums. */
module Padding {
  import opened Bytes
  import opened SliceGrid

  // ---------- Which slice is padded ----------

  /** The number of the slice that holds the last padding byte. */
  function PaddedSlice(fsl: Alignment, room: nat): nat {
    if room <= fsl then 0 else (room - fsl - 1) / SLICE_LEN + 1
  }

  /** The padding ends strictly inside a slice, so the rest of that slice is certificate. */
  predicate EndsInsideSlice(fsl: Alignment, n: nat, room: nat) {
    && Bound(fsl, n, PaddedSlice(fsl, room)) < room
    && room < Bound(fsl, n, PaddedSlice(fsl, room) + 1)
  }

  lemma OnlyPaddedSlice(fsl: Alignment, n: nat, room: nat, j: nat)
    requires Bound(fsl, n, j) < room < Bound(fsl, n, j + 1)
    ensures j == PaddedSlice(fsl, room)
  {
    if j > 0 {
      assert (room - fsl - 1) / SLICE_LEN == j - 1;
    }
  }

  // ---------- The padding bytes ----------

  lemma {:induction false} SumFillTo(v: Byte, m: nat, n: nat)
    requires n <= m
    ensures SumTo(Fill(v, m), n) == v * n
  {
    if n > 0 {
      SumFillTo(v, m, n - 1);
      assert v * n == v * (n - 1) + v;
    }
  }

  lemma SumFill(v: Byte, n: nat)
    ensures Sum(Fill(v, n)) == v * n
  {
    SumFillTo(v, n, n);
  }

  /** What the padding has to weigh, modulo 2^16, for everything from the padded
      slice's start on to keep its sum. */
  function Delta(blob: seq<Byte>, b: seq<Byte>, start: nat, room: nat): (d: nat)
    requires |b| == |blob| && start < room <= |b|
    ensures d < 0x1_0000
  {
    (Sum(blob[start..]) - Sum(b[room..])) % 0x1_0000
  }

  function Average(delta: nat, count: nat): nat
    requires count > 0
  {
    delta / count
  }

  /** What is missing after `count - 1` bytes of the average. */
  function LastByte(delta: nat, count: nat): nat
    requires count > 0
  {
    Average(delta, count) + delta % count
  }

  /** `count - 1` copies of the average, then whatever is missing. */
  function EvenPadding(delta: nat, count: nat): (s: seq<Byte>)
    requires count > 0 && LastByte(delta, count) <= 255
    ensures |s| == count
  {
    Fill(Average(delta, count), count - 1) + [LastByte(delta, count)]
  }

  lemma EvenPaddingWeighs(delta: nat, count: nat)
    requires count > 0 && LastByte(delta, count) <= 255
    ensures Sum(EvenPadding(delta, count)) == delta
  {
    var avg := Average(delta, count);
    SumFill(avg, count - 1);
    SumConcat(Fill(avg, count - 1), [LastByte(delta, count)]);
    SumOne(LastByte(delta, count));
    LastShare(delta, count);
  }

  lemma LastShare(delta: nat, count: nat)
    requires count > 0
    ensures delta - Average(delta, count) * (count - 1) == LastByte(delta, count)
  {
    var avg := Average(delta, count);
    assert delta == avg * count + delta % count;
    assert avg * count == avg * (count - 1) + avg;
  }

  /** Full bytes, then a last byte that leaves a multiple of 256 over. */
  function FullPadding(delta: nat, count: nat): (s: seq<Byte>)
    requires count > 0 && delta >= 255 * (count - 1)
    ensures |s| == count
  {
    Fill(255, count - 1) + [(delta - 255 * (count - 1)) % 256]
  }

  /** How many times 256 is left over, for the previous slice to absorb. */
  function Excess(delta: nat, count: nat): nat
    requires count > 0 && delta >= 255 * (count - 1)
  {
    (delta - 255 * (count - 1)) / 256
  }

  lemma FullPaddingWeighs(delta: nat, count: nat)
    requires count > 0 && delta >= 255 * (count - 1)
    ensures Sum(FullPadding(delta, count)) + 256 * Excess(delta, count) == delta
  {
    SumFill(255, count - 1);
    SumConcat(Fill(255, count - 1), [(delta - 255 * (count - 1)) % 256]);
    SumOne((delta - 255 * (count - 1)) % 256);
  }

  lemma LargeAverage(delta: nat, count: nat)
    requires count > 0 && Average(delta, count) > 255
    ensures delta >= 256 * count
  {
    assert delta == Average(delta, count) * count + delta % count;
    assert Average(delta, count) * count >= 256 * count;
  }

  /** Adding the same byte to every byte, each wrapping on its own. */
  function AddEach(s: seq<Byte>, inc: Byte): (r: seq<Byte>)
    ensures |r| == |s|
  {
    seq(|s|, i requires 0 <= i < |s| => (s[i] + inc) % 256)
  }

  /** How many of the first `n` bytes wrap. */
  function Wrapped(s: seq<Byte>, inc: Byte, n: nat): (w: nat)
    requires n <= |s|
    ensures w <= n
  {
    if n == 0 then 0 else Wrapped(s, inc, n - 1) + if s[n - 1] + inc > 255 then 1 else 0
  }

  lemma AddEachStep(s: seq<Byte>, inc: Byte, i: nat)
    requires i < |s|
    ensures AddEach(s, inc)[i] == s[i] + inc - if s[i] + inc > 255 then 256 else 0
  {}

  lemma {:induction false} SumAddEachTo(s: seq<Byte>, inc: Byte, n: nat)
    requires n <= |s|
    ensures SumTo(AddEach(s, inc), n) + 256 * Wrapped(s, inc, n) == SumTo(s, n) + inc * n
  {
    if n > 0 {
      SumAddEachTo(s, inc, n - 1);
      AddEachStep(s, inc, n - 1);
      Multiples(inc, n - 1, n);
    }
  }

  lemma {:induction false} NoneWraps(s: seq<Byte>, inc: Byte, n: nat)
    requires n <= |s|
    ensures Wrapped(s, inc, n) == 0 <==> forall i :: 0 <= i < n ==> s[i] + inc <= 255
    ensures Wrapped(s, inc, n) == n <==> forall i :: 0 <= i < n ==> s[i] + inc > 255
  {
    if n > 0 {
      NoneWraps(s, inc, n - 1);
    }
  }

  // ---------- The fix-up ----------

  datatype Fix =
    | NoPaddedSlice                    // the padding is empty or ends on a slice boundary
    | Uneven(blob: seq<Byte>)          // the last padding byte would exceed 255
    | NoPrevious(blob: seq<Byte>)      // too much to absorb, and no full slice before
    | Even(blob: seq<Byte>)
    | Carried(blob: seq<Byte>)
  {
    predicate Succeeds() { Even? || Carried? }
  }

  /** Padding [start, room) by `pad`, and adding the excess evenly to the bytes one
      slice length below [start, end). */
  function Carry(b: seq<Byte>, start: nat, end: nat, room: nat, pad: seq<Byte>, excess: nat): (r: seq<Byte>)
    requires SLICE_LEN <= start <= room <= |b| && start <= end <= start + SLICE_LEN && |pad| == room - start
    ensures |r| == |b|
  {
    var from, to := start - SLICE_LEN, end - SLICE_LEN;
    b[..from] + AddEach(b[from..to], 2 * excess % 256) + b[to..start] + pad + b[room..]
  }

  /** What the fix-up makes of `b` when `room` padding bytes are left. */
  function FixUp(fsl: Alignment, blob: seq<Byte>, b: seq<Byte>, room: nat): (r: Fix)
    requires |b| == |blob|
    ensures !r.NoPaddedSlice? ==> |r.blob| == |b|
  {
    if !EndsInsideSlice(fsl, |b|, room) then NoPaddedSlice else
    var j := PaddedSlice(fsl, room);
    var start, end := Bound(fsl, |b|, j), Bound(fsl, |b|, j + 1);
    var count := room - start;
    var delta := Delta(blob, b, start, room);
    if Average(delta, count) <= 255 then
      if LastByte(delta, count) > 255 then
        Uneven(b[..start] + Fill(Average(delta, count), count - 1) + b[room - 1..])
      else
        Even(b[..start] + EvenPadding(delta, count) + b[room..])
    else
      LargeAverage(delta, count);
      if start < SLICE_LEN then NoPrevious(b[..start] + FullPadding(delta, count) + b[room..])
      else Carried(Carry(b, start, end, room, FullPadding(delta, count), Excess(delta, count)))
  }

  /** `count` bytes that weigh the delta as evenly as that can be done with one odd byte at the end. */
  predicate EvenShare(delta: nat, count: nat, v: nat, last: nat)
    requires count > 0
  {
    v <= last <= 255 && last < v + count && v * (count - 1) + last == delta
  }

  lemma EvenShareIs(delta: nat, count: nat, v: nat, last: nat)
    requires count > 0 && v <= last < v + count && v * (count - 1) + last == delta
    ensures v == Average(delta, count) && last == LastByte(delta, count)
  {
    assert count * v == v * (count - 1) + v;
    QuotientIs(delta, count, v, last - v);
  }

  lemma QuotientIs(n: nat, d: nat, q: nat, r: nat)
    requires d > 0 && n == d * q + r && r < d
    ensures n / d == q && n % d == r
  {
    assert n == d * (n / d) + n % d;
    LessByOne(d, q, n / d);
    LessByOne(d, n / d, q);
  }

  lemma LessByOne(d: nat, x: nat, y: nat)
    ensures x < y ==> d * x + d <= d * y
  {
    if x < y {
      Multiples(d, x, y);
      Multiples(d, x + 1, y);
    }
  }

  lemma EvenShareFits(delta: nat, count: nat)
    requires count > 0
    ensures LastByte(delta, count) <= 255 <==> exists v, last :: EvenShare(delta, count, v, last)
  {
    LastShare(delta, count);
    if LastByte(delta, count) <= 255 {
      assert EvenShare(delta, count, Average(delta, count), LastByte(delta, count));
    }
    forall v, last | EvenShare(delta, count, v, last) ensures LastByte(delta, count) <= 255 {
      EvenShareIs(delta, count, v, last);
    }
  }

  /** When the fix-up succeeds: the padding ends strictly inside a slice, and either bytes can share the
      delta evenly, or it exceeds what bytes can weigh and there is a full slice below. */
  lemma FixUpOutcome(fsl: Alignment, blob: seq<Byte>, b: seq<Byte>, room: nat, j: nat)
    requires |b| == |blob|
    ensures FixUp(fsl, blob, b, room).NoPaddedSlice? <==>
      forall i: nat :: !(Bound(fsl, |b|, i) < room < Bound(fsl, |b|, i + 1))
    ensures Bound(fsl, |b|, j) < room < Bound(fsl, |b|, j + 1) ==>
      var start := Bound(fsl, |b|, j);
      var delta, count := (Sum(blob[start..]) - Sum(b[room..])) % 0x1_0000, room - start;
      var r := FixUp(fsl, blob, b, room);
      && (r.Even? <==> exists v, last :: EvenShare(delta, count, v, last))
      && (r.Carried? <==> delta >= 256 * count && start >= SLICE_LEN)
      && (r.NoPrevious? <==> delta >= 256 * count && start < SLICE_LEN)
  {
    hide Carry, FullPadding, EvenPadding, SumTo, Bound, PaddedSlice, Fill, EvenShare, LastByte, Average, Excess;
    forall i: nat | Bound(fsl, |b|, i) < room < Bound(fsl, |b|, i + 1) ensures i == PaddedSlice(fsl, room) {
      OnlyPaddedSlice(fsl, |b|, room, i);
    }
    if Bound(fsl, |b|, j) < room < Bound(fsl, |b|, j + 1) {
      var start := Bound(fsl, |b|, j);
      var delta, count := (Sum(blob[start..]) - Sum(b[room..])) % 0x1_0000, room - start;
      assert delta == Delta(blob, b, start, room);
      EvenShareFits(delta, count);
      AverageFits(delta, count);
    }
  }

  /** The padding of `b` is copies of one byte, and another one at its end. */
  predicate PaddedBy(f: seq<Byte>, b: seq<Byte>, start: nat, room: nat, v: Byte, last: Byte)
    requires start < room <= |b|
  {
    f == b[..start] + Fill(v, room - start - 1) + [last] + b[room..]
  }

  /** What the fix-up writes. In the ordinary branch, copies of one byte and an odd last one share what
      is missing. When it carries, the padding is full but for its last byte, and every byte one slice
      length below the padded slice takes twice what is left over in units of 256. */
  lemma FixUpBytes(fsl: Alignment, blob: seq<Byte>, b: seq<Byte>, room: nat, j: nat)
    requires |b| == |blob| && Bound(fsl, |b|, j) < room < Bound(fsl, |b|, j + 1)
    ensures var start, end := Bound(fsl, |b|, j), Bound(fsl, |b|, j + 1);
      var delta, count := (Sum(blob[start..]) - Sum(b[room..])) % 0x1_0000, room - start;
      var r := FixUp(fsl, blob, b, room);
      && (r.Even? ==>
            exists v: Byte, last: Byte :: EvenShare(delta, count, v, last) && PaddedBy(r.blob, b, start, room, v, last))
      && (r.Carried? ==>
            var rest := delta - 255 * (count - 1);
            && SLICE_LEN <= start && rest >= 0
            && r.blob[start..] == Fill(255, count - 1) + [rest % 256] + b[room..]
            && (forall i :: 0 <= i < start ==>
                  (r.blob[i] ==
                   if start - SLICE_LEN <= i < end - SLICE_LEN then (b[i] + rest / 256 * 2) % 256 else b[i])))
  {
    hide SumTo, PaddedSlice, Carry, EvenPadding, FullPadding, Excess, EvenShare, LastByte, Average, Fill, PaddedBy;
    OnlyPaddedSlice(fsl, |b|, room, j);
    var start, end := Bound(fsl, |b|, j), Bound(fsl, |b|, j + 1);
    var delta, count := Delta(blob, b, start, room), room - start;
    if FixUp(fsl, blob, b, room).Even? {
      EvenBytes(b, start, room, delta);
    } else if FixUp(fsl, blob, b, room).Carried? {
      LargeAverage(delta, count);
      CarryBytes(b, start, end, room, FullPadding(delta, count), Excess(delta, count));
      FullBytes(delta, count);
    }
  }

  lemma EvenBytes(b: seq<Byte>, start: nat, room: nat, delta: nat)
    requires start < room <= |b| && LastByte(delta, room - start) <= 255
    ensures var f := b[..start] + EvenPadding(delta, room - start) + b[room..];
      exists v: Byte, last: Byte :: EvenShare(delta, room - start, v, last) && PaddedBy(f, b, start, room, v, last)
  {
    var count := room - start;
    LastShare(delta, count);
    AverageFits(delta, count);
    var v: Byte, last: Byte := Average(delta, count), LastByte(delta, count);
    hide LastByte, Average, Fill;
    assert EvenShare(delta, count, v, last);
    assert PaddedBy(b[..start] + EvenPadding(delta, count) + b[room..], b, start, room, v, last);
  }

  lemma FullBytes(delta: nat, count: nat)
    requires count > 0 && delta >= 255 * (count - 1)
    ensures var rest := delta - 255 * (count - 1);
      FullPadding(delta, count) == Fill(255, count - 1) + [rest % 256] && Excess(delta, count) == rest / 256
  {}

  lemma CarryBytes(b: seq<Byte>, start: nat, end: nat, room: nat, pad: seq<Byte>, excess: nat)
    requires SLICE_LEN <= start <= room <= |b| && start <= end <= start + SLICE_LEN && |pad| == room - start
    ensures var r := Carry(b, start, end, room, pad, excess);
      && r[start..] == pad + b[room..]
      && forall i :: 0 <= i < start ==>
           (r[i] == if start - SLICE_LEN <= i < end - SLICE_LEN then (b[i] + excess * 2) % 256 else b[i])
  {
    var r := Carry(b, start, end, room, pad, excess);
    forall i | 0 <= i < start
      ensures r[i] == if start - SLICE_LEN <= i < end - SLICE_LEN then (b[i] + excess * 2) % 256 else b[i]
    {
      Wrap8(2 * excess, b[i]);
    }
  }

  lemma AverageFits(delta: nat, count: nat)
    requires count > 0
    ensures Average(delta, count) > 255 <==> delta >= 256 * count
    ensures LastByte(delta, count) >= Average(delta, count)
  {
    var avg := Average(delta, count);
    assert delta == avg * count + delta % count;
    if avg <= 255 {
      assert avg * count <= 255 * count;
    } else {
      LargeAverage(delta, count);
    }
  }

  /** How many times 256 the carry branch has to put below the padded slice. */
  function LeftOver(fsl: Alignment, blob: seq<Byte>, b: seq<Byte>, room: nat): (q: nat)
    requires |b| == |blob| && FixUp(fsl, blob, b, room).Carried?
    ensures 1 <= q <= 255
  {
    var start := Bound(fsl, |b|, PaddedSlice(fsl, room));
    var delta := Delta(blob, b, start, room);
    LargeAverage(delta, room - start);
    Excess(delta, room - start)
  }

  /** The loop that computes the delta. */
  method ComputeDelta(blob: seq<Byte>, b: array<Byte>, start: nat, room: nat) returns (delta: nat)
    requires b.Length == |blob| && start < room <= |blob|
    ensures delta == Delta(blob, b[..], start, room)
  {
    delta := 0;
    ghost var bs := b[..];
    ghost var x: int := 0;
    for i := start to |blob|
      invariant x == Sum(blob[start..i]) - (if i <= room then 0 else Sum(bs[room..i]))
      invariant delta == x % 0x1_0000
    {
      SumStep(blob, start, i);
      Wrap16(x, blob[i]);
      delta := (delta + blob[i]) % 0x1_0000;
      x := x + blob[i];
      if i >= room {
        SumStep(bs, room, i);
        Wrap16(x, 0 as int - b[i]);
        delta := (delta - b[i]) % 0x1_0000;
        x := x - b[i];
      }
    }
    assert blob[start..|blob|] == blob[start..] && bs[room..|blob|] == bs[room..];
  }

  lemma Multiples(v: nat, i: nat, n: nat)
    requires i <= n
    ensures v * i <= v * n && v * (i + 1) == v * i + v
  {}

  /** The padding loop of either branch: `v` into all padding bytes but the last. */
  method FillAllButLast(b: array<Byte>, start: nat, room: nat, v: Byte, delta: nat) returns (rest: nat)
    requires start < room <= b.Length && delta >= v * (room - 1 - start) && delta < 0x1_0000
    modifies b
    ensures b[..] == old(b[..start]) + Fill(v, room - 1 - start) + old(b[room - 1..])
    ensures rest == delta - v * (room - 1 - start)
  {
    rest := delta;
    for i := start to room - 1
      invariant forall k :: start <= k < i ==> b[k] == v
      invariant forall k :: 0 <= k < b.Length && !(start <= k < i) ==> b[k] == old(b[k])
      invariant rest == delta - v * (i - start)
    {
      Multiples(v, i - start, room - 1 - start);
      Multiples(v, i + 1 - start, room - 1 - start);
      b[i] := v;
      rest := (rest - v) % 0x1_0000;
    }
    ghost var now := b[..];
    assert now == old(b[..start]) + Fill(v, room - 1 - start) + old(b[room - 1..]);
  }

  /** The last loop of the carry branch. */
  method AddToEach(b: array<Byte>, from: nat, to: nat, inc: Byte)
    requires from <= to <= b.Length
    modifies b
    ensures b[..] == old(b[..from]) + AddEach(old(b[from..to]), inc) + old(b[to..])
  {
    for i := from to to
      invariant forall k :: from <= k < i ==> b[k] == (old(b[k]) + inc) % 256
      invariant forall k :: 0 <= k < b.Length && !(from <= k < i) ==> b[k] == old(b[k])
    {
      b[i] := (b[i] + inc) % 256;
    }
    ghost var now := b[..];
    assert now == old(b[..from]) + AddEach(old(b[from..to]), inc) + old(b[to..]);
  }

  /** The padding of the carry branch: full bytes, and a last one that leaves a multiple of 256. */
  method PadFully(newBlob: array<Byte>, start: nat, room: nat, delta: nat) returns (rest: nat)
    requires start < room <= newBlob.Length && 256 * (room - start) <= delta < 0x1_0000
    modifies newBlob
    ensures newBlob[..] == old(newBlob[..start]) + FullPadding(delta, room - start) + old(newBlob[room..])
    ensures rest == 256 * Excess(delta, room - start)
  {
    ghost var was := newBlob[..];
    rest := FillAllButLast(newBlob, start, room, 255, delta);
    newBlob[room - 1] := rest % 256;
    rest := rest - rest % 256;
    ghost var now := newBlob[..];
    assert now == was[..start] + FullPadding(delta, room - start) + was[room..];
  }

  /** The branch for a large average: full padding, and the excess into the slice before. */
  method PadAndCarry(newBlob: array<Byte>, start: nat, end: nat, room: nat, delta: nat) returns (ok: bool)
    requires start < room < end <= newBlob.Length && end <= start + SLICE_LEN
    requires 256 * (room - start) <= delta < 0x1_0000
    modifies newBlob
    ensures var b, pad := old(newBlob[..]), FullPadding(delta, room - start);
      ok == (start >= SLICE_LEN) && newBlob[..] ==
        if !ok then b[..start] + pad + b[room..] else Carry(b, start, end, room, pad, Excess(delta, room - start))
  {
    hide AddEach, FullPadding, Excess, Carry;
    var rest := PadFully(newBlob, start, room, delta);
    if start < SLICE_LEN {
      return false;
    }
    ghost var padded := newBlob[..];
    AddToEach(newBlob, start - SLICE_LEN, end - SLICE_LEN, rest / SLICE_LEN % 256);
    CarryAround(old(newBlob[..]), FullPadding(delta, room - start), start, end, room,
                Excess(delta, room - start), padded);
    return true;
  }

  lemma CarryAround(was: seq<Byte>, pad: seq<Byte>, start: nat, end: nat, room: nat, excess: nat, padded: seq<Byte>)
    requires SLICE_LEN <= start <= room <= |was| && start <= end <= start + SLICE_LEN && |pad| == room - start
    requires padded == was[..start] + pad + was[room..]
    ensures var from, to := start - SLICE_LEN, end - SLICE_LEN;
      padded[..from] + AddEach(padded[from..to], 2 * excess % 256) + padded[to..]
      == Carry(was, start, end, room, pad, excess)
  {
    hide AddEach;
    var from, to := start - SLICE_LEN, end - SLICE_LEN;
    assert padded[..from] == was[..from] && padded[from..to] == was[from..to];
    assert padded[to..] == was[to..start] + pad + was[room..];
  }

  /** The other branch: the average everywhere, and the rest into the last byte. */
  method PadEvenly(newBlob: array<Byte>, start: nat, room: nat, delta: nat) returns (ok: bool)
    requires start < room <= newBlob.Length
    requires delta < 0x1_0000 && Average(delta, room - start) <= 255
    modifies newBlob
    ensures var b, count := old(newBlob[..]), room - start;
      var avg := Average(delta, count);
      ok == (LastByte(delta, count) <= 255) && newBlob[..] ==
        if ok then b[..start] + EvenPadding(delta, count) + b[room..]
        else b[..start] + Fill(avg, count - 1) + b[room - 1..]
  {
    ghost var was := newBlob[..];
    var avg := delta / (room - start);
    LastShare(delta, room - start);
    var rest := FillAllButLast(newBlob, start, room, avg, delta);
    if rest > 255 {
      return false;
    }
    newBlob[room - 1] := rest;
    ghost var now := newBlob[..];
    assert now == was[..start] + EvenPadding(delta, room - start) + was[room..];
    return true;
  }

  /** The loop that looks for the slice in which the padding ends. */
  method FindPaddedSlice(fsl: Alignment, n: nat, room: nat) returns (found: bool, start: nat, end: nat)
    ensures found == EndsInsideSlice(fsl, n, room)
    ensures found ==> start == Bound(fsl, n, PaddedSlice(fsl, room)) && end == Bound(fsl, n, PaddedSlice(fsl, room) + 1)
    ensures found ==> start < room < end <= n && end <= start + SLICE_LEN
  {
    start, end := 0, fsl;
    ghost var j: nat := 0;
    while start < n
      invariant start == Bound(fsl, n, j) && (start < n ==> end == fsl + SLICE_LEN * j)
      invariant EndsInsideSlice(fsl, n, room) ==> j <= PaddedSlice(fsl, room)
      decreases n - start, if j == 0 then 1 else 0
    {
      if end > n {
        end := n;
      }
      if start < room && end > room {
        OnlyPaddedSlice(fsl, n, room, j);
        return true, start, end;
      }
      start := end;
      end := end + SLICE_LEN;
      j := j + 1;
    }
    return false, 0, 0;
  }

  /** The fix-up, in place: find the slice in which the padding ends, and pad it. */
  method FixupStuffBytes(fsl: Alignment, blob: seq<Byte>, newBlob: array<Byte>, room: nat) returns (ok: bool)
    requires newBlob.Length == |blob|
    modifies newBlob
    ensures var fix := FixUp(fsl, blob, old(newBlob[..]), room);
      ok == fix.Succeeds() && (!fix.NoPaddedSlice? ==> newBlob[..] == fix.blob)
  {
    hide EvenPadding, FullPadding, Carry, Fill, Delta, Excess, EndsInsideSlice, PaddedSlice, Average, LastByte;
    var found, start, end := FindPaddedSlice(fsl, |blob|, room);
    if !found {
      return false;
    }
    var delta := ComputeDelta(blob, newBlob, start, room);
    var avg := Average(delta, room - start);
    if avg > 255 {
      LargeAverage(delta, room - start);
      ok := PadAndCarry(newBlob, start, end, room, delta);
    } else {
      ok := PadEvenly(newBlob, start, room, delta);
    }
  }
}
