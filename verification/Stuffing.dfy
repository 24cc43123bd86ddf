/** The first half of the certificate mangler: line-break runs that balance the
    slices which the certificate covers completely. */
module Stuffing {
  import opened Bytes
  import opened SliceGrid

  // ---------- The runs ----------

  /** A run of `k` line breaks with `c` CRs: LF CR LF CR .. LF LF LF. */
  function Run(k: nat, c: nat): (r: seq<Byte>)
    ensures |r| == k
  {
    seq(k, i => if i % 2 == 1 && i < 2 * c then CR else LF)
  }

  function Count(s: seq<Byte>, b: Byte): nat {
    if s == [] then 0 else Count(s[1..], b) + if s[0] == b then 1 else 0
  }

  /** Every CR is followed by an LF: the only form in which the target's base64
      decoder accepts one. */
  ghost predicate NoLoneCR(s: seq<Byte>) {
    forall i :: 0 <= i < |s| && s[i] == CR ==> i + 1 < |s| && s[i + 1] == LF
  }

  /** The string without its line breaks, which is all that a PEM decoder sees. */
  function Strip(s: seq<Byte>): seq<Byte> {
    if s == [] then [] else
    (if s[0] == CR || s[0] == LF then [] else [s[0]]) + Strip(s[1..])
  }

  predicate IsBreak(b: Byte) {
    b == CR || b == LF
  }

  /** `t` is `s` with nothing but line breaks inserted: no byte of `s` is lost. */
  ghost predicate OnlyBreaksAdded(s: seq<Byte>, t: seq<Byte>)
    decreases |t|
  {
    if t == [] then s == [] else
    || (s != [] && s[0] == t[0] && OnlyBreaksAdded(s[1..], t[1..]))
    || (IsBreak(t[0]) && OnlyBreaksAdded(s, t[1..]))
  }

  /** Adding line breaks does not change what a PEM decoder sees. */
  lemma {:induction false} BreaksAreStripped(s: seq<Byte>, t: seq<Byte>)
    requires OnlyBreaksAdded(s, t)
    ensures Strip(s) == Strip(t)
    decreases |t|
  {
    if t != [] {
      if s != [] && s[0] == t[0] && OnlyBreaksAdded(s[1..], t[1..]) {
        BreaksAreStripped(s[1..], t[1..]);
      } else {
        BreaksAreStripped(s, t[1..]);
      }
    }
  }

  lemma {:induction false} BreaksAddedInTurn(s: seq<Byte>, t: seq<Byte>, u: seq<Byte>)
    requires OnlyBreaksAdded(s, t) && OnlyBreaksAdded(t, u)
    ensures OnlyBreaksAdded(s, u)
    decreases |u|
  {
    if u != [] {
      if t != [] && t[0] == u[0] && OnlyBreaksAdded(t[1..], u[1..]) {
        if s != [] && s[0] == t[0] && OnlyBreaksAdded(s[1..], t[1..]) {
          BreaksAddedInTurn(s[1..], t[1..], u[1..]);
        } else {
          BreaksAddedInTurn(s, t[1..], u[1..]);
        }
      } else {
        BreaksAddedInTurn(s, t, u[1..]);
      }
    }
  }

  lemma {:induction false} RunAdded(head: seq<Byte>, run: seq<Byte>, tail: seq<Byte>)
    requires forall i :: 0 <= i < |run| ==> IsBreak(run[i])
    ensures OnlyBreaksAdded(head + tail, head + (run + tail))
    decreases |head| + |run| + |tail|
  {
    var s, t := head + tail, head + (run + tail);
    if head != [] {
      assert s[1..] == head[1..] + tail && t[1..] == head[1..] + (run + tail);
      RunAdded(head[1..], run, tail);
    } else if run != [] {
      assert s == [] + tail && t[1..] == [] + (run[1..] + tail);
      RunAdded([], run[1..], tail);
    } else if tail != [] {
      assert s == t == tail && s[1..] == [] + tail[1..] && t[1..] == [] + ([] + tail[1..]);
      RunAdded([], [], tail[1..]);
    }
  }

  lemma {:induction false} SumRunTo(k: nat, c: nat, n: nat)
    requires n <= k
    ensures SumTo(Run(k, c), n) == 10 * n + 3 * if n / 2 < c then n / 2 else c
  {
    if n > 0 {
      SumRunTo(k, c, n - 1);
    }
  }

  lemma {:induction false} CountRun(k: nat, c: nat)
    ensures Count(Run(k, c), CR) == if k / 2 < c then k / 2 else c
  {
    if k == 1 {
      assert Run(k, c) == [LF];
    } else if k >= 2 && c == 0 {
      assert Run(k, c)[1..] == Run(k - 1, 0);
      CountRun(k - 1, 0);
    } else if k >= 2 {
      assert Run(k, c)[1..][1..] == Run(k - 2, c - 1);
      CountRun(k - 2, c - 1);
    }
  }

  /** Every run that the search considers has the chosen number of CRs, starts and
      ends with LF, has no CR without its LF, and weighs what the search computes. */
  lemma RunShape(k: nat, c: nat)
    requires c < k / 2
    ensures Run(k, c)[0] == Run(k, c)[k - 1] == LF
    ensures forall i :: 0 <= i < k ==> Run(k, c)[i] == if i % 2 == 1 && (i - 1) / 2 < c then 13 else 10
    ensures NoLoneCR(Run(k, c)) && Count(Run(k, c), CR) == c
    ensures Sum(Run(k, c)) == CR * c + LF * (k - c)
  {
    CountRun(k, c);
    SumRunTo(k, c, k);
  }

  // ---------- The search for a run ----------

  datatype Search = Found(len: nat, crs: nat) | Hopeless | OutOfRange

  /** Overwriting the first `k` bytes of slice `s` by that run gives it the sum of `o`. */
  predicate Balances(o: seq<Byte>, s: seq<Byte>, k: nat, c: nat)
    requires k <= |s|
  {
    Same8(o, Run(k, c) + s[k..])
  }

  /** The order in which runs are tried: shorter first, then fewer CRs. */
  predicate Before(k: nat, c: nat, k': nat, c': nat) {
    k < k' || (k == k' && c < c')
  }

  /** The runs that the search may try on a slice when `room` padding bytes are
      left. The longest length is only tried without CRs. */
  predicate Candidate(size: nat, room: nat, k: nat, c: nat) {
    && c < k / 2 && k <= size
    && (k == 2 || k <= room)
    && (c == 0 || (k < size && k < room))
  }

  /** The search from run (k, c) on, as the loops perform it. */
  function SearchFrom(o: seq<Byte>, s: seq<Byte>, room: nat, k: nat, c: nat): Search
    requires c < k / 2
    decreases if k < |s| then |s| - k else 0, k / 2 - c
  {
    if k > |s| then OutOfRange
    else if Balances(o, s, k, c) then Found(k, c)
    else if k >= |s| || k >= room then Hopeless
    else if c + 1 < k / 2 then SearchFrom(o, s, room, k, c + 1)
    else SearchFrom(o, s, room, k + 1, 0)
  }

  function FirstRun(o: seq<Byte>, s: seq<Byte>, room: nat): Search {
    SearchFrom(o, s, room, 2, 0)
  }

  lemma {:induction false} SearchFromFinds(o: seq<Byte>, s: seq<Byte>, room: nat, k: nat, c: nat)
    requires |s| >= 2 && Candidate(|s|, room, k, c)
    ensures var r := SearchFrom(o, s, room, k, c);
      && r != OutOfRange
      && (r.Found? ==> Candidate(|s|, room, r.len, r.crs) && Balances(o, s, r.len, r.crs))
      && (forall k', c' | Candidate(|s|, room, k', c') && !Before(k', c', k, c) ::
            (r.Found? ==> Before(k', c', r.len, r.crs)) ==> !Balances(o, s, k', c'))
    decreases |s| - k, k / 2 - c
  {
    if !Balances(o, s, k, c) && k < |s| && k < room {
      if c + 1 < k / 2 {
        SearchFromFinds(o, s, room, k, c + 1);
      } else {
        SearchFromFinds(o, s, room, k + 1, 0);
      }
    }
  }

  /** What the search decides: with a slice of at least two bytes it never leaves
      the slice, and it finds exactly the first balancing candidate; the run is no
      longer than max(2, min(slice, room)). On shorter slices it runs out of the blob. */
  lemma FirstRunIsFirst(o: seq<Byte>, s: seq<Byte>, room: nat)
    ensures var r := FirstRun(o, s, room);
      && (r.OutOfRange? <==> |s| < 2)
      && (r.Hopeless? <==> |s| >= 2 && forall k, c | Candidate(|s|, room, k, c) :: !Balances(o, s, k, c))
    ensures var r := FirstRun(o, s, room);
      r.Found? ==>
        && Candidate(|s|, room, r.len, r.crs) && Balances(o, s, r.len, r.crs)
        && 2 <= r.len <= |s| && (r.len == 2 || r.len <= room)
        && forall k, c | Candidate(|s|, room, k, c) && Before(k, c, r.len, r.crs) :: !Balances(o, s, k, c)
  {
    if |s| >= 2 {
      SearchFromFinds(o, s, room, 2, 0);
    }
  }

  // ---------- The walk over the slices ----------

  datatype Outcome = Stuffed(blob: seq<Byte>, room: nat) | Unmatched | Fault(left: nat)

  /** Moving `b[room..start + k]` down by `k` and writing the run into the gap. */
  function InsertRun(b: seq<Byte>, room: nat, start: nat, k: nat, c: nat): (r: seq<Byte>)
    requires k <= room <= start && start + k <= |b|
    ensures |r| == |b|
  {
    b[..room - k] + b[room..start + k] + Run(k, c) + b[start + k..]
  }

  /** What happens at one slice. The program crashes (`Fault`) when the search or
      the shift leaves the blob. */
  function StuffSlice(orig: seq<Byte>, b: seq<Byte>, start: nat, room: nat): (r: Outcome)
    requires |b| == |orig| && start <= |b| && room <= |b|
    ensures r.Stuffed? ==> |r.blob| == |b| && r.room <= room
  {
    var end := Min(start + SLICE_LEN, |b|);
    if start < room || Same8(orig[start..end], b[start..end]) then Stuffed(b, room)
    else
      match FirstRun(orig[start..end], b[start..end], room)
      case OutOfRange => Fault(room)
      case Hopeless => Unmatched
      case Found(k, c) =>
        FirstRunIsFirst(orig[start..end], b[start..end], room);
        if k > room then Fault(room) else Stuffed(InsertRun(b, room, start, k, c), room - k)
  }

  /** The whole walk from slice `start` down, with `room` padding bytes left. */
  function StuffFrom(orig: seq<Byte>, b: seq<Byte>, start: int, room: nat): (r: Outcome)
    requires |b| == |orig| && start <= |b| && room <= |b|
    ensures r.Stuffed? ==> |r.blob| == |b| && r.room <= room
    decreases start + SLICE_LEN
  {
    if start < 0 then Stuffed(b, room) else
    match StuffSlice(orig, b, start, room)
    case Stuffed(b', room') => StuffFrom(orig, b', start - SLICE_LEN, room')
    case failure => failure
  }

  /** The start of the last slice; 0 when no boundary lies inside the blob. */
  function LastStart(fsl: Alignment, n: nat): (start: nat)
    ensures start <= n <= start + SLICE_LEN
    ensures fsl < n ==> fsl <= start < n && (start - fsl) % SLICE_LEN == 0
  {
    if fsl >= n then 0 else fsl + (n - 1 - fsl) / SLICE_LEN * SLICE_LEN
  }

  // ---------- What the walk keeps ----------

  /** One insertion balances the slice it is made for, by the run at the start of it; it moves what was
      between the padding and there down, and changes nothing else above it or below the padding
      that is left. */
  lemma InsertRunBalances(orig: seq<Byte>, b: seq<Byte>, room: nat, start: nat, end: nat, k: nat, c: nat)
    requires |b| == |orig| && k <= room <= start && start + k <= end <= |b|
    requires Balances(orig[start..end], b[start..end], k, c)
    ensures var r := InsertRun(b, room, start, k, c);
      && Same8(orig[start..end], r[start..end])
      && r[start..start + k] == Run(k, c)
      && r[room - k..start] == b[room..start + k]
      && r[start + k..] == b[start + k..]
      && r[end..] == b[end..]
      && r[..room - k] == b[..room - k]
  {
    var r := InsertRun(b, room, start, k, c);
    SameSuffix(r, b, start + k, end);
    assert r[start..end] == Run(k, c) + b[start..end][k..];
  }

  /** One insertion only adds line breaks to the bytes above the padding, and keeps CRs paired. */
  lemma InsertRunKeepsPayload(b: seq<Byte>, room: nat, start: nat, k: nat, c: nat)
    requires k <= room <= start && start + k <= |b| && c < k / 2
    ensures var r := InsertRun(b, room, start, k, c);
      && OnlyBreaksAdded(b[room..], r[room - k..])
      && (NoLoneCR(b[room..]) ==> NoLoneCR(r[room - k..]))
  {
    var head, tail := b[room..start + k], b[start + k..];
    assert InsertRun(b, room, start, k, c)[room - k..] == head + (Run(k, c) + tail);
    assert b[room..] == head + tail;
    RunShape(k, c);
    RunAdded(head, Run(k, c), tail);
    if NoLoneCR(b[room..]) {
      InsertKeepsPairs(head, Run(k, c), tail);
    }
  }

  lemma InsertKeepsPairs(head: seq<Byte>, run: seq<Byte>, tail: seq<Byte>)
    requires NoLoneCR(head + tail) && NoLoneCR(run)
    requires run != [] && run[0] == LF
    ensures NoLoneCR(head + (run + tail))
  {
    var s, t := head + tail, head + (run + tail);
    forall i | 0 <= i < |t| && t[i] == CR ensures i + 1 < |t| && t[i + 1] == LF {
      if i < |head| {
        assert s[i] == CR;
        assert i + 1 < |head| ==> t[i + 1] == s[i + 1];
      } else if i < |head| + |run| {
        assert run[i - |head|] == CR;
        assert t[i + 1] == run[i + 1 - |head|];
      } else {
        assert s[i - |run|] == CR;
        assert t[i + 1] == s[i + 1 - |run|];
      }
    }
  }

  lemma SameSuffix(a: seq<Byte>, b: seq<Byte>, lo: nat, hi: nat)
    requires |a| == |b| && lo <= hi <= |a| && a[lo..] == b[lo..]
    ensures a[hi..] == b[hi..] && a[lo..hi] == b[lo..hi]
  {
    assert a[hi..] == a[lo..][hi - lo..] && a[lo..hi] == a[lo..][..hi - lo];
    assert b[hi..] == b[lo..][hi - lo..] && b[lo..hi] == b[lo..][..hi - lo];
  }

  lemma SamePrefix(a: seq<Byte>, b: seq<Byte>, lo: nat, hi: nat)
    requires |a| == |b| && lo <= hi <= |a| && a[..hi] == b[..hi]
    ensures a[..lo] == b[..lo]
  {
    assert a[..lo] == a[..hi][..lo] && b[..lo] == b[..hi][..lo];
  }

  /** A slice that did not make the walk fail, and was not skipped, is balanced
      afterwards; nothing above it or below the remaining padding has changed. */
  lemma StuffSliceBalances(orig: seq<Byte>, b: seq<Byte>, start: nat, room: nat)
    requires |b| == |orig| && start <= |b| && room <= |b|
    requires StuffSlice(orig, b, start, room).Stuffed?
    ensures var Stuffed(r, left) := StuffSlice(orig, b, start, room);
      var end := Min(start + SLICE_LEN, |b|);
      && (start < room ==> r == b && left == room)
      && (start >= room ==> Same8(orig[start..end], r[start..end]))
      && r[end..] == b[end..]
      && r[..left] == b[..left]
  {
    var end := Min(start + SLICE_LEN, |b|);
    if start >= room && !Same8(orig[start..end], b[start..end]) {
      FirstRunIsFirst(orig[start..end], b[start..end], room);
      var Found(k, c) := FirstRun(orig[start..end], b[start..end], room);
      InsertRunBalances(orig, b, room, start, end, k, c);
    }
  }

  lemma StuffSliceKeepsPayload(orig: seq<Byte>, b: seq<Byte>, start: nat, room: nat)
    requires |b| == |orig| && start <= |b| && room <= |b|
    requires StuffSlice(orig, b, start, room).Stuffed?
    ensures var Stuffed(r, left) := StuffSlice(orig, b, start, room);
      && OnlyBreaksAdded(b[room..], r[left..])
      && (NoLoneCR(b[room..]) ==> NoLoneCR(r[left..]))
  {
    var end := Min(start + SLICE_LEN, |b|);
    if start >= room && !Same8(orig[start..end], b[start..end]) {
      FirstRunIsFirst(orig[start..end], b[start..end], room);
      var Found(k, c) := FirstRun(orig[start..end], b[start..end], room);
      InsertRunKeepsPayload(b, room, start, k, c);
    } else {
      assert b[room..] + ([] + []) == b[room..] + [] == b[room..];
      RunAdded(b[room..], [], []);
    }
  }

  /** Slices at and above the place where the walk starts are never touched again. */
  lemma {:induction false} HigherSlicesKept(orig: seq<Byte>, b: seq<Byte>, start: int, room: nat)
    requires |b| == |orig| && start <= |b| && room <= |b|
    requires StuffFrom(orig, b, start, room).Stuffed?
    ensures var end := Min(start + SLICE_LEN, |b|);
      end >= 0 ==> StuffFrom(orig, b, start, room).blob[end..] == b[end..]
    decreases start + SLICE_LEN
  {
    if start >= 0 {
      StuffSliceBalances(orig, b, start, room);
      var Stuffed(b', room') := StuffSlice(orig, b, start, room);
      HigherSlicesKept(orig, b', start - SLICE_LEN, room');
      SameSuffix(StuffFrom(orig, b, start, room).blob, b', start, Min(start + SLICE_LEN, |b|));
    }
  }

  /** Once a slice lies below the padding that is left, all lower ones do: the walk
      changes nothing any more. */
  lemma {:induction false} BelowRoomNothingHappens(orig: seq<Byte>, b: seq<Byte>, start: int, room: nat)
    requires |b| == |orig| && start < room <= |b|
    ensures StuffFrom(orig, b, start, room) == Stuffed(b, room)
    decreases start + SLICE_LEN
  {
    if start >= 0 {
      BelowRoomNothingHappens(orig, b, start - SLICE_LEN, room);
    }
  }

  lemma FirstSliceBalanced(orig: seq<Byte>, b: seq<Byte>, start: nat, room: nat)
    requires |b| == |orig| && room <= start <= |b|
    requires StuffFrom(orig, b, start, room).Stuffed?
    ensures var end := Min(start + SLICE_LEN, |b|);
      Same8(orig[start..end], StuffFrom(orig, b, start, room).blob[start..end])
  {
    StuffSliceBalances(orig, b, start, room);
    var Stuffed(b', room') := StuffSlice(orig, b, start, room);
    HigherSlicesKept(orig, b', start - SLICE_LEN, room');
    SameSuffix(StuffFrom(orig, b, start, room).blob, b', start, Min(start + SLICE_LEN, |b|));
  }

  /** Slice correctness: on success, every slice of the walk's grid that starts at or
      above the padding that is left has the sum it has in the original. */
  lemma {:induction false} StuffedSlicesBalanced(orig: seq<Byte>, b: seq<Byte>, start: int, room: nat, s: nat)
    requires |b| == |orig| && start <= |b| && room <= |b|
    requires StuffFrom(orig, b, start, room).Stuffed?
    requires s <= start && (start - s) % SLICE_LEN == 0 && s >= StuffFrom(orig, b, start, room).room
    ensures var end := Min(s + SLICE_LEN, |b|);
      Same8(orig[s..end], StuffFrom(orig, b, start, room).blob[s..end])
    decreases start
  {
    hide StuffSlice, Same8;
    if start < room {
      BelowRoomNothingHappens(orig, b, start, room);
    } else if s == start {
      FirstSliceBalanced(orig, b, start, room);
    } else {
      var Stuffed(b', room') := StuffSlice(orig, b, start, room);
      StuffedSlicesBalanced(orig, b', start - SLICE_LEN, room', s);
    }
  }

  /** The bytes below the padding that is left are untouched. */
  lemma {:induction false} PaddingUntouched(orig: seq<Byte>, b: seq<Byte>, start: int, room: nat)
    requires |b| == |orig| && start <= |b| && room <= |b|
    requires StuffFrom(orig, b, start, room).Stuffed?
    ensures var Stuffed(r, left) := StuffFrom(orig, b, start, room);
      r[..left] == b[..left]
    decreases start + SLICE_LEN
  {
    if start >= 0 {
      StuffSliceBalances(orig, b, start, room);
      var Stuffed(b', room') := StuffSlice(orig, b, start, room);
      PaddingUntouched(orig, b', start - SLICE_LEN, room');
      SamePrefix(b', b, StuffFrom(orig, b, start, room).room, room');
    }
  }

  /** Payload preservation: on success the bytes from the remaining padding on are the
      given ones with nothing but line breaks added, in a form that keeps CRs paired. */
  lemma {:induction false} StuffingKeepsPayload(orig: seq<Byte>, b: seq<Byte>, start: int, room: nat)
    requires |b| == |orig| && start <= |b| && room <= |b|
    requires StuffFrom(orig, b, start, room).Stuffed?
    ensures var Stuffed(r, left) := StuffFrom(orig, b, start, room);
      && OnlyBreaksAdded(b[room..], r[left..])
      && (NoLoneCR(b[room..]) ==> NoLoneCR(r[left..]))
    decreases start + SLICE_LEN
  {
    if start >= 0 {
      StuffSliceKeepsPayload(orig, b, start, room);
      var Stuffed(b', room') := StuffSlice(orig, b, start, room);
      StuffingKeepsPayload(orig, b', start - SLICE_LEN, room');
      var Stuffed(r, left) := StuffFrom(orig, b, start, room);
      BreaksAddedInTurn(b[room..], b'[room'..], r[left..]);
    } else {
      assert b[room..] + ([] + []) == b[room..] + [] == b[room..];
      RunAdded(b[room..], [], []);
    }
  }

  /** What makes the program run out of bounds at a slice: the slice has to be stuffed, and it is a
      single byte, or two LFs would balance it but less than two padding bytes are left. */
  predicate OutOfBoundsAt(orig: seq<Byte>, b: seq<Byte>, start: nat, room: nat)
    requires |b| == |orig| && start <= |b|
  {
    var end := Min(start + SLICE_LEN, |b|);
    var o, s := orig[start..end], b[start..end];
    start >= room && !Same8(o, s) && (|s| < 2 || (room < 2 && Balances(o, s, 2, 0)))
  }

  /** What makes the walk give up at a slice: the slice has to be stuffed, and no run that may be tried
      balances it. */
  ghost predicate NothingFitsAt(orig: seq<Byte>, b: seq<Byte>, start: nat, room: nat)
    requires |b| == |orig| && start <= |b|
  {
    var end := Min(start + SLICE_LEN, |b|);
    var o, s := orig[start..end], b[start..end];
    start >= room && !Same8(o, s) && |s| >= 2 && forall k, c | Candidate(|s|, room, k, c) :: !Balances(o, s, k, c)
  }

  /** Both guards are exact, and a slice in the padding, or with the right sum, is left alone. */
  lemma SliceOutcome(orig: seq<Byte>, b: seq<Byte>, start: nat, room: nat)
    requires |b| == |orig| && start <= |b| && room <= |b|
    ensures StuffSlice(orig, b, start, room).Fault? <==> OutOfBoundsAt(orig, b, start, room)
    ensures StuffSlice(orig, b, start, room).Unmatched? <==> NothingFitsAt(orig, b, start, room)
    ensures var end := Min(start + SLICE_LEN, |b|);
      start < room || Same8(orig[start..end], b[start..end]) ==> StuffSlice(orig, b, start, room) == Stuffed(b, room)
  {
    hide Balances, Same8;
    var end := Min(start + SLICE_LEN, |b|);
    var o, s := orig[start..end], b[start..end];
    FirstRunIsFirst(o, s, room);
    if |s| >= 2 {
      assert Candidate(|s|, room, 2, 0);
    }
  }

  /** The run is one that may be tried and balances the slice, and no earlier one does. */
  ghost predicate FirstFit(o: seq<Byte>, s: seq<Byte>, room: nat, k: nat, c: nat) {
    && Candidate(|s|, room, k, c) && Balances(o, s, k, c)
    && forall k', c' | Candidate(|s|, room, k', c') && Before(k', c', k, c) :: !Balances(o, s, k', c')
  }

  /** A slice that has to be stuffed, and does not make the program run out of bounds, gets the first
      run that fits. */
  lemma FirstFitIsInserted(orig: seq<Byte>, b: seq<Byte>, start: nat, room: nat, k: nat, c: nat)
    requires |b| == |orig| && room <= start <= |b| && !OutOfBoundsAt(orig, b, start, room)
    requires var end := Min(start + SLICE_LEN, |b|);
      var o, s := orig[start..end], b[start..end];
      !Same8(o, s) && FirstFit(o, s, room, k, c)
    ensures k <= room && start + k <= |b|
    ensures StuffSlice(orig, b, start, room) == Stuffed(InsertRun(b, room, start, k, c), room - k)
  {
    hide Balances, Same8;
    var end := Min(start + SLICE_LEN, |b|);
    var o, s := orig[start..end], b[start..end];
    FirstRunIsFirst(o, s, room);
    assert Candidate(|s|, room, 2, 0);
  }

  /** The state in which the walk reaches a slice, `n` slices below the one it starts at. */
  function ReachedAfter(orig: seq<Byte>, b: seq<Byte>, start: int, room: nat, n: nat): (r: Outcome)
    requires |b| == |orig| && start <= |b| && room <= |b|
    ensures r.Stuffed? ==> |r.blob| == |b| && r.room <= room
    decreases n
  {
    if n == 0 || start < 0 then Stuffed(b, room) else
    match StuffSlice(orig, b, start, room)
    case Stuffed(b', room') => ReachedAfter(orig, b', start - SLICE_LEN, room', n - 1)
    case failure => failure
  }

  /** The walk reaches the slice `n` slices below the one it starts at, and ends there. */
  ghost predicate EndsAfter(orig: seq<Byte>, b: seq<Byte>, start: int, room: nat, n: nat, end: Outcome)
    requires |b| == |orig| && start <= |b| && room <= |b|
  {
    var at := start - n * SLICE_LEN;
    && at >= 0 && !end.Stuffed? && ReachedAfter(orig, b, start, room, n).Stuffed?
    && end == StuffSlice(orig, ReachedAfter(orig, b, start, room, n).blob, at,
                         ReachedAfter(orig, b, start, room, n).room)
  }

  lemma EndsBelow(orig: seq<Byte>, b: seq<Byte>, start: nat, room: nat, n: nat, end: Outcome)
    requires |b| == |orig| && start <= |b| && room <= |b| && StuffSlice(orig, b, start, room).Stuffed?
    ensures var Stuffed(b', room') := StuffSlice(orig, b, start, room);
      EndsAfter(orig, b, start, room, n + 1, end) <==> EndsAfter(orig, b', start - SLICE_LEN, room', n, end)
  {
    hide StuffSlice;
    assert start - (n + 1) * SLICE_LEN == start - SLICE_LEN - n * SLICE_LEN;
  }

  lemma {:induction false} WhereItEnds(orig: seq<Byte>, b: seq<Byte>, start: int, room: nat) returns (n: nat)
    requires |b| == |orig| && start <= |b| && room <= |b| && !StuffFrom(orig, b, start, room).Stuffed?
    ensures EndsAfter(orig, b, start, room, n, StuffFrom(orig, b, start, room))
    decreases start + SLICE_LEN
  {
    hide StuffSlice;
    match StuffSlice(orig, b, start, room)
    case Stuffed(b', room') =>
      n := WhereItEnds(orig, b', start - SLICE_LEN, room');
      EndsBelow(orig, b, start, room, n, StuffFrom(orig, b, start, room));
      n := n + 1;
    case failure =>
      n := 0;
  }

  lemma {:induction false} EndsThere(orig: seq<Byte>, b: seq<Byte>, start: int, room: nat, n: nat, end: Outcome)
    requires |b| == |orig| && start <= |b| && room <= |b| && EndsAfter(orig, b, start, room, n, end)
    ensures StuffFrom(orig, b, start, room) == end
    decreases n
  {
    hide StuffSlice;
    if n > 0 {
      var Stuffed(b', room') := StuffSlice(orig, b, start, room);
      EndsBelow(orig, b, start, room, n - 1, end);
      EndsThere(orig, b', start - SLICE_LEN, room', n - 1, end);
    }
  }

  ghost predicate OutOfBoundsAfter(orig: seq<Byte>, b: seq<Byte>, start: int, room: nat, n: nat)
    requires |b| == |orig| && start <= |b| && room <= |b|
  {
    var at := start - n * SLICE_LEN;
    && at >= 0 && ReachedAfter(orig, b, start, room, n).Stuffed?
    && OutOfBoundsAt(orig, ReachedAfter(orig, b, start, room, n).blob, at, ReachedAfter(orig, b, start, room, n).room)
  }

  ghost predicate NothingFitsAfter(orig: seq<Byte>, b: seq<Byte>, start: int, room: nat, n: nat)
    requires |b| == |orig| && start <= |b| && room <= |b|
  {
    var at := start - n * SLICE_LEN;
    && at >= 0 && ReachedAfter(orig, b, start, room, n).Stuffed?
    && NothingFitsAt(orig, ReachedAfter(orig, b, start, room, n).blob, at, ReachedAfter(orig, b, start, room, n).room)
  }

  /** How the walk ends at a slice that it reaches is decided by the two guards. */
  lemma GuardsAfter(orig: seq<Byte>, b: seq<Byte>, start: int, room: nat, n: nat)
    requires |b| == |orig| && start <= |b| && room <= |b|
    requires start - n * SLICE_LEN >= 0 && ReachedAfter(orig, b, start, room, n).Stuffed?
    ensures var Stuffed(b', room') := ReachedAfter(orig, b, start, room, n);
      var end := StuffSlice(orig, b', start - n * SLICE_LEN, room');
      && (EndsAfter(orig, b, start, room, n, end) <==> !end.Stuffed?)
      && (end.Fault? <==> OutOfBoundsAfter(orig, b, start, room, n))
      && (end.Unmatched? <==> NothingFitsAfter(orig, b, start, room, n))
  {
    hide StuffSlice, OutOfBoundsAt, NothingFitsAt, ReachedAfter;
    var Stuffed(b', room') := ReachedAfter(orig, b, start, room, n);
    SliceOutcome(orig, b', start - n * SLICE_LEN, room');
  }

  /** The program runs out of bounds if and only if the walk reaches a slice in a state that meets
      the guard; and that has less than two padding bytes left, or the last slice is a single byte. */
  lemma FaultsAreTight(fsl: Alignment, orig: seq<Byte>, b: seq<Byte>, start: int, room: nat)
    requires |b| == |orig| && room <= |b| && start <= LastStart(fsl, |b|)
    ensures StuffFrom(orig, b, start, room).Fault? <==> exists n: nat :: OutOfBoundsAfter(orig, b, start, room, n)
    ensures StuffFrom(orig, b, start, room).Fault? ==>
      StuffFrom(orig, b, start, room).left < 2 || LastStart(fsl, |b|) + 1 == |b|
  {
    hide StuffSlice, OutOfBoundsAt, NothingFitsAt, ReachedAfter, LastStart;
    if StuffFrom(orig, b, start, room).Fault? {
      var n := WhereItEnds(orig, b, start, room);
      GuardsAfter(orig, b, start, room, n);
      var Stuffed(b', room') := ReachedAfter(orig, b, start, room, n);
      FaultLeaves(fsl, orig, b', start - n * SLICE_LEN, room');
    }
    forall n: nat | OutOfBoundsAfter(orig, b, start, room, n) ensures StuffFrom(orig, b, start, room).Fault? {
      GuardsAfter(orig, b, start, room, n);
      var Stuffed(b', room') := ReachedAfter(orig, b, start, room, n);
      EndsThere(orig, b, start, room, n, StuffSlice(orig, b', start - n * SLICE_LEN, room'));
    }
  }

  lemma FaultLeaves(fsl: Alignment, orig: seq<Byte>, b: seq<Byte>, start: nat, room: nat)
    requires |b| == |orig| && room <= |b| && start <= LastStart(fsl, |b|) && StuffSlice(orig, b, start, room).Fault?
    ensures StuffSlice(orig, b, start, room).left < 2 || LastStart(fsl, |b|) + 1 == |b|
  {
    hide Balances;
    SliceOutcome(orig, b, start, room);
  }

  /** The walk gives up if and only if it reaches a slice that nothing fits; so it succeeds if and only
      if every slice that it reaches can be left alone or gets a run. */
  lemma GivingUpIsTight(orig: seq<Byte>, b: seq<Byte>, start: int, room: nat)
    requires |b| == |orig| && start <= |b| && room <= |b|
    ensures StuffFrom(orig, b, start, room).Unmatched? <==> exists n: nat :: NothingFitsAfter(orig, b, start, room, n)
    ensures StuffFrom(orig, b, start, room).Stuffed? <==>
      forall n: nat :: !OutOfBoundsAfter(orig, b, start, room, n) && !NothingFitsAfter(orig, b, start, room, n)
  {
    hide StuffSlice, OutOfBoundsAt, NothingFitsAt, ReachedAfter;
    if !StuffFrom(orig, b, start, room).Stuffed? {
      var n := WhereItEnds(orig, b, start, room);
      GuardsAfter(orig, b, start, room, n);
    }
    forall n: nat | OutOfBoundsAfter(orig, b, start, room, n) || NothingFitsAfter(orig, b, start, room, n)
      ensures !StuffFrom(orig, b, start, room).Stuffed?
      ensures StuffFrom(orig, b, start, room).Unmatched? <==> NothingFitsAfter(orig, b, start, room, n)
    {
      GuardsAfter(orig, b, start, room, n);
      var Stuffed(b', room') := ReachedAfter(orig, b, start, room, n);
      EndsThere(orig, b, start, room, n, StuffSlice(orig, b', start - n * SLICE_LEN, room'));
    }
  }

  // ---------- The program ----------

  /** The loops that weigh one run: take the overwritten bytes off the slice's
      checksum, then add the CRs and the LFs. */
  method UpdatedChecksum(newChecksum: Byte, tail: seq<Byte>, k: nat, c: nat) returns (sum: Byte)
    requires k <= |tail| && c <= k
    ensures sum == (newChecksum - Sum(tail[..k]) + CR * c + LF * (k - c)) % 256
  {
    var taken := TakeOff(newChecksum, tail, k);
    var withCRs := AddTimes(taken, CR, c);
    sum := AddTimes(withCRs, LF, k - c);
    var off := newChecksum - Sum(tail[..k]);
    Wrap8(off, CR * c);
    Wrap8(off + CR * c, LF * (k - c));
  }

  method TakeOff(from: Byte, tail: seq<Byte>, k: nat) returns (sum: Byte)
    requires k <= |tail|
    ensures sum == (from - Sum(tail[..k])) % 256
  {
    sum := from;
    for i := 0 to k
      invariant sum == (from - Sum(tail[..i])) % 256
    {
      SumStep(tail, 0, i);
      assert tail[0..i] == tail[..i] && tail[0..i + 1] == tail[..i + 1];
      Wrap8(from - Sum(tail[..i]), 0 as int - tail[i]);
      sum := (sum - tail[i]) % 256;
    }
  }

  method AddTimes(from: Byte, b: Byte, times: nat) returns (sum: Byte)
    ensures sum == (from + b * times) % 256
  {
    sum := from;
    for i := 0 to times
      invariant sum == (from + b * i) % 256
    {
      assert b * (i + 1) == b * i + b;
      Wrap8(from + b * i, b);
      sum := (sum + b) % 256;
    }
  }

  lemma UpdatedChecksumDecides(o: seq<Byte>, s: seq<Byte>, k: nat, c: nat)
    requires k <= |s| && c < k / 2
    ensures Balances(o, s, k, c)
       <==> (Sum(s) % 256 - Sum(s[..k]) + CR * c + LF * (k - c)) % 256 == Sum(o) % 256
  {
    SumSplit(s, k);
    SumConcat(Run(k, c), s[k..]);
    RunShape(k, c);
    Wrap8(Sum(s), Sum(Run(k, c)) - Sum(s[..k]));
  }

  /** The search: an unbounded loop over lengths around a loop over CR counts. `tail`
      is the blob from the slice on, of which the first `size` bytes are the slice. */
  method FindRun(o: seq<Byte>, origChecksum: Byte, newChecksum: Byte, tail: seq<Byte>, size: nat, room: nat)
      returns (r: Search)
    requires 0 < size <= |tail| && (size == |tail| || size >= 2)
    requires origChecksum == Sum(o) % 256 && newChecksum == Sum(tail[..size]) % 256
    ensures r == FirstRun(o, tail[..size], room)
  {
    ghost var s := tail[..size];
    var k := 0;
    while true
      invariant SearchFrom(o, s, room, if k == 0 then 2 else k + 1, 0) == FirstRun(o, s, room)
      invariant k <= 1 || k < size
      decreases size + 1 - k
    {
      k := k + 1;
      var crs := 0;
      while crs < k / 2
        invariant crs < k / 2 ==> SearchFrom(o, s, room, k, crs) == FirstRun(o, s, room)
        invariant k >= 2 && crs >= k / 2 ==> SearchFrom(o, s, room, k + 1, 0) == FirstRun(o, s, room) && k < size
      {
        if k > |tail| {
          return OutOfRange;
        }
        assert s[..k] == tail[..k];
        UpdatedChecksumDecides(o, s, k, crs);
        var updatedChecksum := UpdatedChecksum(newChecksum, tail, k, crs);
        if origChecksum == updatedChecksum {
          return Found(k, crs);
        } else if k >= size || k >= room {
          return Hopeless;
        }
        crs := crs + 1;
      }
    }
  }

  /** `copy(b[dst..dstEnd], b[src..])` on overlapping parts of one buffer: as many
      bytes as fit, all read before any is written. */
  method CopyWithin(b: array<Byte>, dst: nat, dstEnd: nat, src: nat)
    requires dst <= dstEnd <= b.Length && src <= b.Length
    modifies b
    ensures var n := Min(dstEnd - dst, b.Length - src);
      && dst + n <= b.Length
      && b[..] == old(b[..dst]) + old(b[src..src + n]) + old(b[dst + n..])
  {
    var n := Min(dstEnd - dst, b.Length - src);
    ghost var was := b[..];
    forall i | 0 <= i < n {
      b[dst + i] := b[src + i];
    }
    assert b[..] == was[..dst] + was[src..src + n] + was[dst + n..];
  }

  /** The loop that writes a run: an LF, then CR and LF in turn until the CRs are used up. */
  method WriteRun(b: array<Byte>, start: nat, k: nat, c: nat)
    requires start + k <= b.Length
    modifies b
    ensures b[..] == old(b[..start]) + Run(k, c) + old(b[start + k..])
  {
    var isCr, crs := false, c;
    for i := start to start + k
      invariant crs == if (i - start) / 2 < c then c - (i - start) / 2 else 0
      invariant crs > 0 ==> isCr == ((i - start) % 2 == 1)
      invariant b[..start] == old(b[..start])
      invariant b[start..i] == Run(k, c)[..i - start]
      invariant b[i..] == old(b[i..])
    {
      assert Run(k, c)[..i + 1 - start] == Run(k, c)[..i - start] + [Run(k, c)[i - start]];
      if isCr && crs > 0 {
        b[i] := CR;
        isCr := false;
        crs := crs - 1;
      } else {
        b[i] := LF;
        isCr := true;
      }
      assert b[start..i + 1] == b[start..i] + [b[i]];
      assert b[i + 1..] == old(b[i..])[1..];
    }
    assert Run(k, c)[..k] == Run(k, c);
    assert b[..] == b[..start] + b[start..start + k] + b[start + k..];
  }

  /** The shift and the run together. The shift also drags bytes from above the run
      into the place of the run, which the run then overwrites. */
  method Shift(b: array<Byte>, room: nat, start: nat, k: nat, c: nat)
    requires k <= room <= start && start + k <= b.Length
    modifies b
    ensures b[..] == InsertRun(old(b[..]), room, start, k, c)
  {
    hide Run;
    ghost var was := b[..];
    CopyWithin(b, room - k, start + k, room);
    ghost var moved := b[..];
    ShiftedAround(was, room, start, k, c, moved);
    WriteRun(b, start, k, c);
  }

  lemma ShiftedAround(was: seq<Byte>, room: nat, start: nat, k: nat, c: nat, moved: seq<Byte>)
    requires k <= room <= start && start + k <= |was|
    requires var n := Min(start + k - (room - k), |was| - room);
      moved == was[..room - k] + was[room..room + n] + was[room - k + n..]
    ensures |moved| == |was|
    ensures moved[..start] + Run(k, c) + moved[start + k..] == InsertRun(was, room, start, k, c)
  {
    hide Run;
    var n := Min(start + k - (room - k), |was| - room);
    assert moved[start + k..] == was[room - k + n..][start + k - (room - k + n)..];
    assert was[room..start + k] == was[room..room + n][..start + k - room];
    assert moved[..start] == was[..room - k] + was[room..start + k];
  }

  /** The two checksums of one slice. */
  method SliceChecksums(blob: seq<Byte>, newBlob: array<Byte>, start: nat, end: nat)
      returns (origChecksum: Byte, newChecksum: Byte)
    requires newBlob.Length == |blob| && start <= end <= |blob|
    ensures origChecksum == Sum(blob[start..end]) % 256 && newChecksum == Sum(newBlob[start..end]) % 256
  {
    origChecksum, newChecksum := 0, 0;
    for i := start to end
      invariant origChecksum == Sum(blob[start..i]) % 256 && newChecksum == Sum(newBlob[start..i]) % 256
    {
      Step8(blob, start, i);
      Step8(newBlob[..], start, i);
      assert newBlob[..][start..i] == newBlob[start..i] && newBlob[..][start..i + 1] == newBlob[start..i + 1];
      origChecksum, newChecksum := (origChecksum + blob[i]) % 256, (newChecksum + newBlob[i]) % 256;
    }
  }

  datatype Verdict = Matched(stuffed: nat) | NotMatched | Crashed

  /** The body of the walk: one slice, in place. */
  method StuffOneSlice(blob: seq<Byte>, newBlob: array<Byte>, start: nat, room: nat) returns (verdict: Verdict)
    requires newBlob.Length == |blob| && start <= |blob| && room <= |blob|
    requires start + 1 < |blob| || start + SLICE_LEN >= |blob|
    modifies newBlob
    ensures match StuffSlice(blob, old(newBlob[..]), start, room)
      case Stuffed(b, left) => verdict == Matched(room - left) && newBlob[..] == b
      case Unmatched => verdict == NotMatched
      case Fault(_) => verdict == Crashed
  {
    hide Run, SumTo, FirstRun, InsertRun, Balances;
    var end := Min(start + SLICE_LEN, |blob|);
    if start < room {
      return Matched(0);
    }
    var origChecksum, newChecksum := SliceChecksums(blob, newBlob, start, end);
    ghost var b := newBlob[..];
    var tail := newBlob[start..];
    assert tail[..end - start] == b[start..end] == newBlob[start..end];
    if origChecksum == newChecksum {
      return Matched(0);
    }
    var run := FindRun(blob[start..end], origChecksum, newChecksum, tail, end - start, room);
    FirstRunIsFirst(blob[start..end], b[start..end], room);
    match run
    case OutOfRange =>
      return Crashed;
    case Hopeless =>
      return NotMatched;
    case Found(k, c) =>
      if k > room {
        return Crashed;
      }
      Shift(newBlob, room, start, k, c);
      return Matched(k);
  }

  /** The loop that looks for the last slice. */
  method FindLastSlice(fsl: Alignment, n: nat) returns (start: nat)
    ensures start == LastStart(fsl, n)
  {
    start := 0;
    var end := fsl;
    while start < n
      invariant if n > 0 then start < n else start == 0
      invariant (start == 0 && end == fsl)
        || (start + SLICE_LEN == end && (start - fsl) % SLICE_LEN == 0 && start >= fsl)
      decreases n + SLICE_LEN - end
    {
      if end >= n {
        break;
      }
      start := end;
      end := end + SLICE_LEN;
    }
    if fsl < n {
      OneStartPerSlice(start - fsl, LastStart(fsl, n) - fsl);
    }
  }

  lemma OneStartPerSlice(a: nat, b: nat)
    requires a % SLICE_LEN == b % SLICE_LEN && a < b + SLICE_LEN && b < a + SLICE_LEN
    ensures a == b
  {}

  /** The mangler's walk over the slices, in place. */
  method VerifyFixedBlobs(fsl: Alignment, blob: seq<Byte>, newBlob: array<Byte>, stuffPrefix: nat)
      returns (verdict: Verdict)
    requires newBlob.Length == |blob| && stuffPrefix <= |blob|
    modifies newBlob
    ensures match StuffFrom(blob, old(newBlob[..]), LastStart(fsl, |blob|), stuffPrefix)
      case Stuffed(b, room) => verdict == Matched(stuffPrefix - room) && newBlob[..] == b
      case Unmatched => verdict == NotMatched
      case Fault(_) => verdict == Crashed
  {
    hide StuffSlice;
    var start: int := FindLastSlice(fsl, |blob|);
    ghost var goal := StuffFrom(blob, newBlob[..], start, stuffPrefix);
    var stuffed: nat := 0;
    while start >= 0
      invariant start <= |blob| && stuffed <= stuffPrefix
      invariant start + 1 < |blob| || start + SLICE_LEN >= |blob|
      invariant StuffFrom(blob, newBlob[..], start, stuffPrefix - stuffed) == goal
      decreases start + SLICE_LEN
    {
      var step := StuffOneSlice(blob, newBlob, start, stuffPrefix - stuffed);
      if !step.Matched? {
        return step;
      }
      stuffed := stuffed + step.stuffed;
      start := start - SLICE_LEN;
    }
    return Matched(stuffed);
  }
}
