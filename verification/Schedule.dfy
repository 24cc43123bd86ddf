/** One day of the weekly schedule: its periods in order of their start, and the blocks between
    them. */
module Schedule {
  import opened Clock

  datatype Period = Period(start: string, end: string, activity: string, duration: int, enabled: bool)

  const MINUTES_IN_A_DAY := 1440
  const END_OF_DAY := "23:59"

  predicate Readable(p: Period) {
    ParseTime(p.start).Time?
  }

  /** The text of a time in minutes, where it can be read. */
  function TextMinutes(text: string): int {
    match ParseTime(text)
    case Time(hour, minute) => TimeToMinutes(hour, minute)
    case Malformed => 0
  }

  /** The start in minutes, of a period that has a readable one. */
  function StartOf(p: Period): int {
    TextMinutes(p.start)
  }

  predicate Sorted(s: seq<Period>) {
    forall i, j :: 0 <= i < j < |s| ==> StartOf(s[i]) <= StartOf(s[j])
  }

  /** No two periods start at the same time. */
  predicate Different(s: seq<Period>) {
    forall i, j :: 0 <= i < j < |s| ==> StartOf(s[i]) != StartOf(s[j])
  }

  predicate WithinDay(s: seq<Period>) {
    forall i :: 0 <= i < |s| ==> Readable(s[i]) && 0 <= StartOf(s[i]) < MINUTES_IN_A_DAY
  }

  predicate AllReadable(s: seq<Period>) {
    forall i :: 0 <= i < |s| ==> Readable(s[i])
  }

  // ---------- Sorting ----------

  /** The smallest remaining start is at each of the first places. */
  ghost predicate SortedUpTo(s: seq<Period>, n: nat) {
    forall i, j :: 0 <= i < j < |s| && i < n ==> StartOf(s[i]) <= StartOf(s[j])
  }

  /** Nothing before a place starts earlier than what is at an earlier place. */
  ghost predicate SmallestUpTo(s: seq<Period>, i: nat, n: nat) {
    forall k :: i < k < n && k < |s| ==> StartOf(s[i]) <= StartOf(s[k])
  }

  function Exchanged(s: seq<Period>, i: nat, j: nat): seq<Period>
    requires i < j < |s|
  {
    if StartOf(s[i]) > StartOf(s[j]) then s[i := s[j]][j := s[i]] else s
  }

  lemma ExchangeStep(s: seq<Period>, i: nat, j: nat)
    requires i < j < |s| && SortedUpTo(s, i) && SmallestUpTo(s, i, j)
    ensures var s' := Exchanged(s, i, j);
      |s'| == |s| && multiset(s') == multiset(s) && SortedUpTo(s', i) && SmallestUpTo(s', i, j + 1)
  {
    hide StartOf, SortedUpTo, SmallestUpTo;
    ExchangeSorts(s, i, j);
  }

  lemma ExchangeSorts(s: seq<Period>, i: nat, j: nat)
    requires i < j < |s| && SortedUpTo(s, i) && SmallestUpTo(s, i, j)
    ensures SortedUpTo(Exchanged(s, i, j), i) && SmallestUpTo(Exchanged(s, i, j), i, j + 1)
  {
    hide StartOf;
  }

  lemma SortedStays(s: seq<Period>, i: nat, j: nat)
    requires i < j < |s|
    ensures Sorted(s) ==> Exchanged(s, i, j) == s
  {
    hide StartOf;
  }

  lemma PassDone(s: seq<Period>, i: nat)
    requires SortedUpTo(s, i) && SmallestUpTo(s, i, |s|)
    ensures SortedUpTo(s, i + 1)
  {
    hide StartOf;
  }

  lemma SameElements(s: seq<Period>, t: seq<Period>)
    requires multiset(s) == multiset(t)
    ensures |s| == |t|
    ensures forall p :: p in s <==> p in t
    ensures AllReadable(s) <==> AllReadable(t)
  {
    hide Readable;
    forall p ensures p in s <==> p in t {
      assert p in s <==> p in multiset(s);
      assert p in t <==> p in multiset(t);
    }
    assert |s| == |multiset(s)| && |t| == |multiset(t)|;
    assert AllReadable(s) <==> forall p :: p in s ==> Readable(p);
    assert AllReadable(t) <==> forall p :: p in t ==> Readable(p);
  }

  /** The exchange sort, in place. It gives up at the first start that it cannot read. Periods that are
      in order stay as they are, also where starts are equal. */
  method SortByStart(periods: array<Period>) returns (ok: bool)
    requires periods.Length > 0
    modifies periods
    ensures multiset(periods[..]) == multiset(old(periods[..]))
    ensures ok ==> Sorted(periods[..])
    ensures Sorted(old(periods[..])) ==> periods[..] == old(periods[..])
    ensures !ok ==> !AllReadable(periods[..])
  {
    hide StartOf, Readable, SortedUpTo, SmallestUpTo, Sorted;
    FirstPass(periods[..]);
    for i := 0 to periods.Length - 1
      invariant multiset(periods[..]) == multiset(old(periods[..]))
      invariant Sorted(old(periods[..])) ==> periods[..] == old(periods[..])
      invariant SortedUpTo(periods[..], i)
    {
      FirstOfPass(periods[..], i);
      for j := i + 1 to periods.Length
        invariant multiset(periods[..]) == multiset(old(periods[..]))
        invariant Sorted(old(periods[..])) ==> periods[..] == old(periods[..])
        invariant SortedUpTo(periods[..], i) && SmallestUpTo(periods[..], i, j)
      {
        if !Readable(periods[i]) || !Readable(periods[j]) {
          return false;
        }
        ghost var before := periods[..];
        ExchangeStep(before, i, j);
        SortedStays(before, i, j);
        if StartOf(periods[i]) > StartOf(periods[j]) {
          periods[i], periods[j] := periods[j], periods[i];
        }
        assert periods[..] == Exchanged(before, i, j);
      }
      PassDone(periods[..], i);
    }
    LastPass(periods[..]);
    return true;
  }

  lemma FirstPass(s: seq<Period>)
    ensures SortedUpTo(s, 0)
  {}

  lemma FirstOfPass(s: seq<Period>, i: nat)
    ensures SmallestUpTo(s, i, i + 1)
  {}

  lemma LastPass(s: seq<Period>)
    requires s != [] && SortedUpTo(s, |s| - 1)
    ensures Sorted(s)
  {
    hide StartOf;
  }

  // ---------- Blocks ----------

  /** What one period becomes: it lasts until the next one. When that is on the next day, only the
      part on its own day is kept. */
  function BlockUntil(period: Period, next: Period): seq<Period> {
    var from, until := StartOf(period), StartOf(next);
    if until <= from then
      var duration := Int64(MINUTES_IN_A_DAY - from);
      if duration > 0 then [Period(period.start, END_OF_DAY, period.activity, duration, period.enabled)] else []
    else
      [Period(period.start, MinutesToTime(until), period.activity, Int64(until - from), period.enabled)]
  }

  /** One period: until a later start it lasts until then, and the block says so; until a start that is
      not later it lasts until midnight, and if it is not before midnight, there is no block. */
  lemma BlockShape(period: Period, next: Period)
    ensures var from, until, blocks := StartOf(period), StartOf(next), BlockUntil(period, next);
      && (blocks == [] <==> until <= from && Int64(1440 - from) <= 0)
      && (blocks != [] ==>
            var b := blocks[0];
            && |blocks| == 1 && b.start == period.start
            && b.activity == period.activity && b.enabled == period.enabled
            && ParseTime(b.end).Time?
            && TextMinutes(b.end) == (if until <= from then 1439 else Rem(until, 1440))
            && b.duration == Int64(if until <= from then 1440 - from else until - from))
  {
    hide Int64, MinutesToTime, ParseTime, StartOf, TimeToMinutes;
    LastMinuteText();
    ReadsBack(StartOf(next));
  }

  /** The last period lasts until the first. */
  function BlockAt(s: seq<Period>, i: nat): seq<Period>
    requires i < |s|
  {
    BlockUntil(s[i], if i < |s| - 1 then s[i + 1] else s[0])
  }

  function Blocks(s: seq<Period>, n: nat): seq<Period>
    requires n <= |s|
  {
    if n == 0 then [] else Blocks(s, n - 1) + BlockAt(s, n - 1)
  }

  datatype Computed = Computed(blocks: seq<Period>) | BadTime

  method AppendBlock(blocks: seq<Period>, period: Period, next: Period) returns (result: seq<Period>)
    ensures result == blocks + BlockUntil(period, next)
  {
    hide StartOf, Int64, MinutesToTime;
    result := blocks;
    var startMinutes, endMinutes := StartOf(period), StartOf(next);
    if endMinutes <= startMinutes {
      var duration := Int64(MINUTES_IN_A_DAY - startMinutes);
      if duration > 0 {
        result := result + [Period(period.start, END_OF_DAY, period.activity, duration, period.enabled)];
      }
    } else {
      var duration := Int64(endMinutes - startMinutes);
      result := result + [Period(period.start, MinutesToTime(endMinutes), period.activity, duration, period.enabled)];
    }
  }

  /** The second half: one block after the other. */
  method CutIntoBlocks(periods: array<Period>) returns (r: Computed)
    requires periods.Length > 0
    ensures r.BadTime? <==> !AllReadable(periods[..])
    ensures r.Computed? ==> r.blocks == Blocks(periods[..], periods.Length)
  {
    hide StartOf, Readable, BlockUntil;
    var result: seq<Period> := [];
    for i := 0 to periods.Length
      invariant forall k :: 0 <= k < i ==> Readable(periods[k])
      invariant result == Blocks(periods[..], i)
    {
      var period, next := periods[i], if i < periods.Length - 1 then periods[i + 1] else periods[0];
      if !Readable(period) || !Readable(next) {
        return BadTime;
      }
      var blocks := AppendBlock(result, period, next);
      result := blocks;
    }
    return Computed(result);
  }

  method ComputeScheduleBlocks(periods: array<Period>) returns (r: Computed)
    modifies periods
    ensures multiset(periods[..]) == multiset(old(periods[..]))
    ensures r.BadTime? <==> !AllReadable(old(periods[..]))
    ensures r.Computed? ==> Sorted(periods[..]) && r.blocks == Blocks(periods[..], periods.Length)
  {
    if periods.Length == 0 {
      return Computed([]);
    }
    hide StartOf, Readable, Sorted, Blocks, AllReadable;
    var ok := SortByStart(periods);
    SameElements(periods[..], old(periods[..]));
    if !ok {
      return BadTime;
    }
    r := CutIntoBlocks(periods);
  }

  // ---------- What the blocks of a day cover ----------

  /** Blocks that follow each other without gap or overlap. */
  predicate Tiles(blocks: seq<Period>, from: int, to: int) {
    if blocks == [] then from == to else
    var last := blocks[|blocks| - 1];
    last.duration > 0 && StartOf(last) + last.duration == to && Tiles(blocks[..|blocks| - 1], from, StartOf(last))
  }

  predicate Covers(b: Period, minute: int) {
    StartOf(b) <= minute < StartOf(b) + b.duration
  }

  ghost predicate IsCovered(blocks: seq<Period>, minute: int) {
    exists i :: 0 <= i < |blocks| && Covers(blocks[i], minute)
  }

  /** Tiles cover every minute exactly once, and nothing else. */
  lemma {:induction false} TilesCover(blocks: seq<Period>, from: int, to: int)
    requires Tiles(blocks, from, to)
    ensures from <= to
    ensures forall i, m :: 0 <= i < |blocks| && Covers(blocks[i], m) ==> from <= m < to
    ensures forall m :: from <= m < to ==> IsCovered(blocks, m)
    ensures forall i, j, m :: 0 <= i < j < |blocks| && Covers(blocks[i], m) ==> !Covers(blocks[j], m)
  {
    hide StartOf;
    if blocks != [] {
      var n := |blocks| - 1;
      var rest := blocks[..n];
      TilesCover(rest, from, StartOf(blocks[n]));
      forall m | from <= m < to ensures IsCovered(blocks, m) {
        if m < StartOf(blocks[n]) {
          assert IsCovered(rest, m);
          var i :| 0 <= i < |rest| && Covers(rest[i], m);
          assert Covers(blocks[i], m);
        } else {
          assert Covers(blocks[n], m);
        }
      }
      forall i, m | 0 <= i < |blocks| && Covers(blocks[i], m) ensures from <= m < to {
        assert i < n ==> Covers(rest[i], m);
      }
      forall i, j, m | 0 <= i < j < |blocks| && Covers(blocks[i], m) ensures !Covers(blocks[j], m) {
        assert Covers(rest[i], m);
        assert j < n ==> rest[j] == blocks[j];
      }
    }
  }

  lemma {:induction false} TilesFirst(b: Period, blocks: seq<Period>, to: int)
    ensures Tiles([b] + blocks, StartOf(b), to) <==> b.duration > 0 && Tiles(blocks, StartOf(b) + b.duration, to)
  {
    hide StartOf;
    var all := [b] + blocks;
    if blocks == [] {
      assert all[..|all| - 1] == [];
    } else {
      assert all[..|all| - 1] == [b] + blocks[..|blocks| - 1];
      TilesFirst(b, blocks[..|blocks| - 1], StartOf(blocks[|blocks| - 1]));
    }
  }

  /** Where the blocks of the first periods end when no two periods start at the same time. */
  function Until(s: seq<Period>, n: nat): int
    requires n <= |s|
  {
    if n < |s| then StartOf(s[n]) else MINUTES_IN_A_DAY
  }

  ghost predicate DifferentUpTo(s: seq<Period>, n: nat) {
    forall i :: 0 <= i < n && i + 1 < |s| ==> StartOf(s[i]) < StartOf(s[i + 1])
  }

  /** All starts lie between midnight and midnight. The time 24:00 is one that can be read. */
  predicate UpToMidnight(s: seq<Period>) {
    forall i :: 0 <= i < |s| ==> 0 <= StartOf(s[i]) <= MINUTES_IN_A_DAY
  }

  /** How many of the first periods start before midnight. */
  function Early(s: seq<Period>): (n: nat)
    ensures n <= |s| && (n < |s| ==> StartOf(s[n]) >= MINUTES_IN_A_DAY)
    ensures forall i :: 0 <= i < n ==> StartOf(s[i]) < MINUTES_IN_A_DAY
  {
    if s == [] || StartOf(s[0]) >= MINUTES_IN_A_DAY then 0 else 1 + Early(s[1..])
  }

  /** A period before midnight gives one block, which starts with it. */
  lemma BlockOfPeriod(s: seq<Period>, i: nat)
    requires i < |s| && Sorted(s) && UpToMidnight(s) && StartOf(s[i]) < MINUTES_IN_A_DAY
    ensures |BlockAt(s, i)| == 1
    ensures var b := BlockAt(s, i)[0];
      && StartOf(b) == StartOf(s[i]) && b.start == s[i].start
      && b.activity == s[i].activity && b.enabled == s[i].enabled
      && b.duration > 0
      && (b.duration == Until(s, i + 1) - StartOf(s[i]) <==> StartOf(s[i]) < Until(s, i + 1))
      && (i == |s| - 1 ==> b.end == END_OF_DAY)
      && (i < |s| - 1 && StartOf(s[i]) < StartOf(s[i + 1]) ==> b.end == MinutesToTime(StartOf(s[i + 1])))
  {
    hide Int64, MinutesToTime, ParseTime, TimeToMinutes;
    assert StartOf(s[0]) <= StartOf(s[i]);
  }

  /** A period at midnight gives none. */
  lemma NoBlockAtMidnight(s: seq<Period>, i: nat)
    requires i < |s| && Sorted(s) && UpToMidnight(s) && StartOf(s[i]) == MINUTES_IN_A_DAY
    ensures BlockAt(s, i) == []
  {
    hide StartOf, MinutesToTime;
    assert i < |s| - 1 ==> StartOf(s[i]) <= StartOf(s[i + 1]);
  }

  lemma {:induction false} BlocksOfPeriods(s: seq<Period>, n: nat)
    requires Sorted(s) && UpToMidnight(s) && n <= Early(s)
    ensures |Blocks(s, n)| == n
    ensures forall i :: 0 <= i < n ==> [Blocks(s, n)[i]] == BlockAt(s, i)
  {
    hide BlockAt, UpToMidnight, Sorted, Early, StartOf;
    if n > 0 {
      BlocksOfPeriods(s, n - 1);
      BlockOfPeriod(s, n - 1);
    }
  }

  /** Only the periods before midnight give blocks. */
  lemma {:induction false} BlocksAreEarly(s: seq<Period>, n: nat)
    requires Sorted(s) && UpToMidnight(s) && Early(s) <= n <= |s|
    ensures Blocks(s, n) == Blocks(s, Early(s))
  {
    hide BlockAt, Early, StartOf;
    if n > Early(s) {
      BlocksAreEarly(s, n - 1);
      assert StartOf(s[Early(s)]) <= StartOf(s[n - 1]);
      NoBlockAtMidnight(s, n - 1);
    }
  }

  /** The blocks of the first periods leave no gap and do not overlap exactly when no two of them
      start at the same time. */
  lemma {:induction false} BlocksTile(s: seq<Period>, n: nat)
    requires s != [] && Sorted(s) && UpToMidnight(s) && n <= Early(s)
    ensures Tiles(Blocks(s, n), StartOf(s[0]), Until(s, n)) <==> DifferentUpTo(s, n)
  {
    hide BlockAt, StartOf, UpToMidnight, Sorted, DifferentUpTo, Early, Tiles;
    OneMoreDifferent(s, n);
    if n == 0 {
      TilesNothing(StartOf(s[0]));
    } else {
      BlocksTile(s, n - 1);
      BlockOfPeriod(s, n - 1);
      var before, b := Blocks(s, n - 1), BlockAt(s, n - 1)[0];
      assert Blocks(s, n) == before + [b];
      TilesLast(before, b, StartOf(s[0]), Until(s, n));
    }
  }

  lemma TilesNothing(from: int)
    ensures Tiles([], from, from)
  {}

  lemma TilesLast(blocks: seq<Period>, b: Period, from: int, to: int)
    ensures Tiles(blocks + [b], from, to) <==>
      b.duration > 0 && StartOf(b) + b.duration == to && Tiles(blocks, from, StartOf(b))
  {
    hide StartOf;
    assert (blocks + [b])[..|blocks|] == blocks;
  }

  lemma OneMoreDifferent(s: seq<Period>, n: nat)
    requires n <= |s|
    ensures DifferentUpTo(s, n) <==>
      n == 0 || (DifferentUpTo(s, n - 1) && (n < |s| ==> StartOf(s[n - 1]) < StartOf(s[n])))
  {
    hide StartOf;
  }

  // ---------- Which days are covered ----------

  /** Periods that start at the same time do so at midnight, where they last no time. */
  ghost predicate EarlyDiffer(s: seq<Period>) {
    forall i, j :: 0 <= i < j < |s| && StartOf(s[i]) == StartOf(s[j]) ==> StartOf(s[i]) >= MINUTES_IN_A_DAY
  }

  /** A day from its first start on: some period starts before midnight, all start between midnight and
      midnight, and no two at the same time before the second. */
  ghost predicate CoversDay(s: seq<Period>) {
    UpToMidnight(s) && EarlyDiffer(s) && exists p :: p in s && StartOf(p) < MINUTES_IN_A_DAY
  }

  lemma DifferInOrder(s: seq<Period>)
    requires Sorted(s)
    ensures DifferentUpTo(s, Early(s)) <==> EarlyDiffer(s)
  {
    hide StartOf, Early;
    var m := Early(s);
    if DifferentUpTo(s, m) {
      forall i, j | 0 <= i < j < |s| && StartOf(s[i]) == StartOf(s[j]) ensures StartOf(s[i]) >= MINUTES_IN_A_DAY {
        assert StartOf(s[i]) <= StartOf(s[i + 1]) <= StartOf(s[j]);
        assert i >= m;
        assert StartOf(s[m]) <= StartOf(s[i]);
      }
    }
  }

  lemma FirstIsEarly(s: seq<Period>)
    requires Sorted(s) && CoversDay(s)
    ensures Early(s) > 0 && Until(s, Early(s)) == MINUTES_IN_A_DAY
  {
    hide StartOf;
    var p :| p in s && StartOf(p) < MINUTES_IN_A_DAY;
    var i :| 0 <= i < |s| && s[i] == p;
    assert StartOf(s[0]) <= StartOf(s[i]);
  }

  /** The blocks of such a day run from its first start to midnight. */
  lemma CoveredDayTiles(s: seq<Period>)
    requires Sorted(s) && CoversDay(s)
    ensures Blocks(s, |s|) == Blocks(s, Early(s)) && |Blocks(s, |s|)| == Early(s) > 0
    ensures Tiles(Blocks(s, |s|), StartOf(s[0]), MINUTES_IN_A_DAY)
  {
    hide StartOf, Early, Blocks, Tiles, Sorted, EarlyDiffer;
    FirstIsEarly(s);
    BlocksAreEarly(s, |s|);
    BlocksOfPeriods(s, Early(s));
    BlocksTile(s, Early(s));
    DifferInOrder(s);
  }

  // ---------- No other day is covered ----------

  lemma {:induction false} TilesWithin(blocks: seq<Period>, from: int, to: int, i: nat)
    requires Tiles(blocks, from, to) && i < |blocks|
    ensures from <= StartOf(blocks[i]) && blocks[i].duration > 0 && StartOf(blocks[i]) + blocks[i].duration <= to
  {
    hide StartOf;
    var n := |blocks| - 1;
    TilesCover(blocks[..n], from, StartOf(blocks[n]));
    if i < n {
      TilesWithin(blocks[..n], from, StartOf(blocks[n]), i);
    }
  }

  lemma {:induction false} TilesStart(blocks: seq<Period>, from: int, to: int)
    requires Tiles(blocks, from, to) && blocks != []
    ensures StartOf(blocks[0]) == from
  {
    hide StartOf;
    if |blocks| > 1 {
      TilesStart(blocks[..|blocks| - 1], from, StartOf(blocks[|blocks| - 1]));
    }
  }

  /** What a period gives is among the blocks of the day. */
  lemma {:induction false} BlockIsThere(s: seq<Period>, n: nat, i: nat) returns (k: nat)
    requires i < n <= |s| && BlockAt(s, i) != []
    ensures k < |Blocks(s, n)| && Blocks(s, n)[k] == BlockAt(s, i)[0]
  {
    hide BlockAt;
    if i == n - 1 {
      k := |Blocks(s, n - 1)|;
    } else {
      k := BlockIsThere(s, n - 1, i);
    }
  }

  /** So it lies within a day that is covered. */
  lemma BlockLiesWithin(s: seq<Period>, from: int, i: nat)
    requires i < |s| && BlockAt(s, i) != [] && Tiles(Blocks(s, |s|), from, MINUTES_IN_A_DAY)
    ensures var b := BlockAt(s, i)[0];
      from <= StartOf(b) && b.duration > 0 && StartOf(b) + b.duration <= MINUTES_IN_A_DAY
  {
    hide BlockAt, StartOf, Blocks, Tiles;
    var k := BlockIsThere(s, |s|, i);
    TilesWithin(Blocks(s, |s|), from, MINUTES_IN_A_DAY, k);
  }

  lemma {:induction false} NoBlocks(s: seq<Period>, n: nat)
    requires n <= |s| && forall i :: 0 <= i < |s| ==> BlockAt(s, i) == []
    ensures Blocks(s, n) == []
  {
    hide BlockAt;
    if n > 0 {
      NoBlocks(s, n - 1);
    }
  }

  /** Where the start first rises above the smallest one. */
  lemma FirstRise(s: seq<Period>) returns (i: nat)
    requires s != [] && Sorted(s) && StartOf(s[|s| - 1]) != StartOf(s[0])
    ensures i < |s| - 1 && StartOf(s[i]) == StartOf(s[0]) && StartOf(s[i]) < StartOf(s[i + 1])
  {
    hide StartOf;
    i := 0;
    while StartOf(s[i + 1]) == StartOf(s[0])
      invariant i < |s| - 1 && StartOf(s[i]) == StartOf(s[0])
      decreases |s| - i
    {
      i := i + 1;
    }
    assert StartOf(s[i]) <= StartOf(s[i + 1]);
  }

  lemma RisingGivesBlock(s: seq<Period>, i: nat)
    requires i < |s| - 1 && StartOf(s[i]) < StartOf(s[i + 1])
    ensures |BlockAt(s, i)| == 1
    ensures var b := BlockAt(s, i)[0];
      b.start == s[i].start && b.duration == Int64(StartOf(s[i + 1]) - StartOf(s[i]))
  {
    hide StartOf, Int64, MinutesToTime;
  }

  lemma FlatGivesSame(s: seq<Period>, i: nat)
    requires i < |s| && Sorted(s) && StartOf(s[|s| - 1]) == StartOf(s[0])
    ensures StartOf(s[i]) == StartOf(s[0])
    ensures Int64(MINUTES_IN_A_DAY - StartOf(s[0])) <= 0 ==> BlockAt(s, i) == []
    ensures Int64(MINUTES_IN_A_DAY - StartOf(s[0])) > 0 ==> |BlockAt(s, i)| == 1 && BlockAt(s, i)[0].start == s[i].start
  {
    hide StartOf, Int64, MinutesToTime;
    assert StartOf(s[0]) <= StartOf(s[i]) <= StartOf(s[|s| - 1]);
    assert i < |s| - 1 ==> StartOf(s[i]) <= StartOf(s[i + 1]) <= StartOf(s[|s| - 1]);
  }

  lemma SameText(p: Period, q: Period)
    requires p.start == q.start
    ensures StartOf(p) == StartOf(q)
  {}

  /** A covered day has no start before midnight. */
  lemma NoneNegative(s: seq<Period>, from: int)
    requires Sorted(s) && 0 <= from && Blocks(s, |s|) != [] && Tiles(Blocks(s, |s|), from, MINUTES_IN_A_DAY)
    ensures s != [] && 0 <= StartOf(s[0])
  {
    hide StartOf, BlockAt, Tiles, Int64;
    if StartOf(s[|s| - 1]) != StartOf(s[0]) {
      var i := FirstRise(s);
      RisingGivesBlock(s, i);
      BlockLiesWithin(s, from, i);
      SameText(BlockAt(s, i)[0], s[i]);
    } else {
      FlatGivesSame(s, 0);
      if BlockAt(s, 0) == [] {
        forall i | 0 <= i < |s| ensures BlockAt(s, i) == [] {
          FlatGivesSame(s, i);
        }
        NoBlocks(s, |s|);
      } else {
        BlockLiesWithin(s, from, 0);
        SameText(BlockAt(s, 0)[0], s[0]);
      }
    }
  }

  /** A covered day has a start before the second midnight, and none after it. */
  lemma NoneTooLate(s: seq<Period>, from: int)
    requires Sorted(s) && AllReadable(s) && 0 <= from
    requires Blocks(s, |s|) != [] && Tiles(Blocks(s, |s|), from, MINUTES_IN_A_DAY)
    ensures UpToMidnight(s) && Early(s) > 0
  {
    hide StartOf, BlockAt, Tiles, Blocks, Readable, Int64;
    NoneNegative(s, from);
    var last := |s| - 1;
    StartsFit(s[last]);
    if StartOf(s[last]) > MINUTES_IN_A_DAY {
      if StartOf(s[last]) == StartOf(s[0]) {
        forall i | 0 <= i < |s| ensures BlockAt(s, i) == [] {
          FlatGivesSame(s, i);
        }
        NoBlocks(s, |s|);
      } else {
        var i := LastRise(s);
        RisingGivesBlock(s, i);
        BlockLiesWithin(s, from, i);
        SameText(BlockAt(s, i)[0], s[i]);
      }
      assert false;
    }
    forall i | 0 <= i < |s| ensures 0 <= StartOf(s[i]) <= MINUTES_IN_A_DAY {
      assert StartOf(s[0]) <= StartOf(s[i]) <= StartOf(s[last]);
    }
    if Early(s) == 0 {
      forall i | 0 <= i < |s| ensures BlockAt(s, i) == [] {
        NoBlockAtMidnight(s, i);
      }
      NoBlocks(s, |s|);
      assert false;
    }
  }

  lemma StartsFit(p: Period)
    ensures INT64_MIN <= StartOf(p) <= INT64_MAX
  {
    hide ParseTime;
  }

  /** Where the start last rises, to the greatest one. */
  lemma LastRise(s: seq<Period>) returns (i: nat)
    requires s != [] && Sorted(s) && StartOf(s[|s| - 1]) != StartOf(s[0])
    ensures i < |s| - 1 && StartOf(s[i]) < StartOf(s[i + 1]) == StartOf(s[|s| - 1])
  {
    hide StartOf;
    i := |s| - 2;
    assert StartOf(s[0]) <= StartOf(s[i]);
    while StartOf(s[i]) == StartOf(s[|s| - 1])
      invariant i < |s| - 1 && StartOf(s[i + 1]) == StartOf(s[|s| - 1])
      decreases i
    {
      i := i - 1;
    }
    assert StartOf(s[i]) <= StartOf(s[|s| - 1]);
  }

  /** From a start that is not negative, the blocks of a day reach midnight without gap or overlap if
      and only if the day is one of those, and that is its first start. */
  lemma DayTiles(s: seq<Period>, from: int)
    requires Sorted(s) && AllReadable(s) && 0 <= from && Blocks(s, |s|) != []
    ensures s != []
    ensures Tiles(Blocks(s, |s|), from, MINUTES_IN_A_DAY) <==> CoversDay(s) && from == StartOf(s[0])
  {
    hide StartOf, BlockAt, Tiles, Early, Readable, EarlyDiffer;
    if Tiles(Blocks(s, |s|), from, MINUTES_IN_A_DAY) {
      hide Blocks, Sorted;
      NoneTooLate(s, from);
      TilesStart(Blocks(s, |s|), from, MINUTES_IN_A_DAY);
      BlocksAreEarly(s, |s|);
      BlocksOfPeriods(s, Early(s));
      BlockOfPeriod(s, 0);
      assert [Blocks(s, |s|)[0]] == BlockAt(s, 0);
      BlocksTile(s, Early(s));
      DifferInOrder(s);
      assert s[0] in s;
    }
    if CoversDay(s) {
      CoveredDayTiles(s);
    }
  }

  /** A block says when it ends, except that the last one says one minute before midnight. */
  lemma EndIsTold(s: seq<Period>, i: nat)
    requires Sorted(s) && CoversDay(s) && i < Early(s)
    ensures |BlockAt(s, i)| == 1
    ensures var b := BlockAt(s, i)[0];
      if i == |s| - 1
      then ParseTime(b.end).Time? && TextMinutes(b.end) == 1439 && StartOf(b) + b.duration == 1440
      else ParseTime(b.end).Time? && TextMinutes(b.end) == (StartOf(b) + b.duration) % MINUTES_IN_A_DAY
  {
    hide Int64, MinutesToTime, ParseTime, TimeToMinutes, StartOf, EarlyDiffer;
    BlockOfPeriod(s, i);
    DifferInOrder(s);
    if i < |s| - 1 {
      ReadsBack(StartOf(s[i + 1]));
    } else {
      LastMinuteText();
    }
  }

  lemma LastMinuteText()
    ensures ParseTime(END_OF_DAY).Time? && TextMinutes(END_OF_DAY) == 1439
  {
    hide ParseTime;
    ReadsBack(1439);
    assert MinutesToTime(1439) == END_OF_DAY;
  }

  /** Midnight is not written as the end of the day. */
  lemma MidnightText()
    ensures MinutesToTime(MINUTES_IN_A_DAY) != END_OF_DAY
  {
    assert MinutesToTime(MINUTES_IN_A_DAY)[0] == '0';
  }

  // ---------- What holds at each minute ----------

  /** The period that started last at a minute. */
  ghost predicate IsLatest(s: seq<Period>, minute: int, p: Period) {
    p in s && StartOf(p) <= minute && forall q :: q in s && StartOf(q) <= minute ==> StartOf(q) <= StartOf(p)
  }

  lemma LatestUnlessNext(s: seq<Period>, minute: int, i: nat)
    requires i < |s| && Sorted(s) && StartOf(s[i]) <= minute < Until(s, i + 1)
    requires i == |s| - 1 || Until(s, i + 1) == StartOf(s[i + 1])
    ensures IsLatest(s, minute, s[i])
  {
    hide StartOf;
    assert forall j :: i < j < |s| ==> StartOf(s[i + 1]) <= StartOf(s[j]);
  }

  /** The block that covers a minute says what the period says that started last. */
  lemma BlocksSayLatest(s: seq<Period>, i: nat, minute: int)
    requires Sorted(s) && CoversDay(s)
    requires i < |Blocks(s, |s|)| && Covers(Blocks(s, |s|)[i], minute)
    ensures i < Early(s) && IsLatest(s, minute, s[i])
    ensures Blocks(s, |s|)[i].activity == s[i].activity && Blocks(s, |s|)[i].enabled == s[i].enabled
  {
    hide StartOf, BlockAt, IsLatest, EarlyDiffer, Blocks, Early, Tiles, Sorted;
    CoveredDayTiles(s);
    BlocksOfPeriods(s, Early(s));
    BlockOfPeriod(s, i);
    DifferInOrder(s);
    assert BlockAt(s, i) == [Blocks(s, |s|)[i]];
    LatestUnlessNext(s, minute, i);
  }

  // ---------- The order of the periods does not matter ----------

  ghost predicate NoneTwice(m: multiset<Period>) {
    && (forall p :: p in m && StartOf(p) < MINUTES_IN_A_DAY ==> m[p] == 1)
    && (forall p, q :: p in m && q in m && StartOf(p) == StartOf(q) < MINUTES_IN_A_DAY ==> p == q)
  }

  lemma {:induction false} DifferMeansNoneTwice(s: seq<Period>)
    requires EarlyDiffer(s)
    ensures NoneTwice(multiset(s))
  {
    hide StartOf, NoneTwice;
    if s == [] {
      assert multiset(s) == multiset{};
      NothingTwice();
    } else {
      var n := |s| - 1;
      DifferMeansNoneTwice(s[..n]);
      assert s == s[..n] + [s[n]];
      assert multiset(s) == multiset(s[..n]) + multiset{s[n]};
      forall p | p in multiset(s[..n]) && StartOf(p) < MINUTES_IN_A_DAY ensures StartOf(p) != StartOf(s[n]) {
        var i :| 0 <= i < n && s[i] == p;
      }
      OneMoreOnce(multiset(s[..n]), s[n]);
    }
  }

  lemma NothingTwice()
    ensures NoneTwice(multiset{})
  {}

  lemma OneMoreOnce(m: multiset<Period>, p: Period)
    requires NoneTwice(m) && forall q :: q in m && StartOf(q) < MINUTES_IN_A_DAY ==> StartOf(q) != StartOf(p)
    ensures NoneTwice(m + multiset{p})
  {
    hide StartOf;
  }

  lemma NoneTwiceMeansDiffer(s: seq<Period>)
    requires NoneTwice(multiset(s))
    ensures EarlyDiffer(s)
  {
    hide StartOf;
    forall i, j | 0 <= i < j < |s| && StartOf(s[i]) == StartOf(s[j]) ensures StartOf(s[i]) >= MINUTES_IN_A_DAY {
      assert s[i] in multiset(s) && s[j] in multiset(s);
      TwoPlaces(s, i, j);
    }
  }

  lemma TwoPlaces(s: seq<Period>, i: nat, j: nat)
    requires i < j < |s|
    ensures s[i] == s[j] ==> multiset(s)[s[i]] >= 2
  {
    assert s == s[..j] + s[j..];
    assert s[i] in s[..j] && s[j] in s[j..];
    assert multiset(s) == multiset(s[..j]) + multiset(s[j..]);
  }

  lemma InAnyOrder(s: seq<Period>, t: seq<Period>)
    requires multiset(s) == multiset(t)
    ensures CoversDay(s) <==> CoversDay(t)
    ensures forall m, p :: IsLatest(s, m, p) <==> IsLatest(t, m, p)
  {
    hide StartOf, Readable;
    SameElements(s, t);
    assert UpToMidnight(s) <==> forall p :: p in s ==> 0 <= StartOf(p) <= MINUTES_IN_A_DAY;
    assert UpToMidnight(t) <==> forall p :: p in t ==> 0 <= StartOf(p) <= MINUTES_IN_A_DAY;
    if EarlyDiffer(s) {
      DifferMeansNoneTwice(s);
      NoneTwiceMeansDiffer(t);
    }
    if EarlyDiffer(t) {
      DifferMeansNoneTwice(t);
      NoneTwiceMeansDiffer(s);
    }
  }

  /** With all starts within the day: it is covered when it has a period and no two start at the same
      time. */
  lemma CoveredWithinDay(s: seq<Period>)
    requires WithinDay(s)
    ensures CoversDay(s) <==> s != [] && Different(s)
  {
    hide StartOf, Readable;
    assert s != [] ==> s[0] in s;
  }
}
