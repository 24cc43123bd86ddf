/** The week: the last period of each day goes on after midnight, and every minute is covered. */
module Week {
  import opened Clock
  import opened Schedule

  type Day = string

  type Schedules = map<Day, seq<Period>>

  /** What a lookup gives for a day, known or not. */
  function PeriodsOf(m: Schedules, day: Day): seq<Period> {
    if day in m then m[day] else []
  }

  function Last(s: seq<Period>): Period
    requires s != []
  {
    s[|s| - 1]
  }

  const DEFAULT_END := "06:30"

  datatype Crossing = Crossed(schedules: Schedules) | BadEnd(schedules: Schedules)

  predicate GoesOn(previous: seq<Period>) {
    previous != [] && Last(previous).end == END_OF_DAY
  }

  /** When the last period of the day before ends. */
  function EndText(today: seq<Period>): string {
    if today != [] then today[0].start else DEFAULT_END
  }

  function EndMinutes(today: seq<Period>): int {
    if today != [] then StartOf(today[0]) else TimeToMinutes(6, 30)
  }

  predicate Crosses(previous: seq<Period>, today: seq<Period>) {
    GoesOn(previous) && EndMinutes(today) > 0
  }

  /** The day with the continuation of the day before in front. */
  function WithCrossover(previous: seq<Period>, today: seq<Period>): seq<Period> {
    if !Crosses(previous, today) then today else
    var last := Last(previous);
    [Period("00:00", EndText(today), last.activity, EndMinutes(today), last.enabled)] + today
  }

  predicate FailsToEnd(previous: seq<Period>, today: seq<Period>) {
    GoesOn(previous) && today != [] && !Readable(today[0])
  }

  function DayBefore(days: seq<Day>, i: nat): (day: Day)
    requires i < |days|
    ensures day in days
  {
    days[(i + |days| - 1) % |days|]
  }

  function CrossDay(m: Schedules, before: Day, day: Day): Crossing {
    var previous, today := PeriodsOf(m, before), PeriodsOf(m, day);
    if FailsToEnd(previous, today) then BadEnd(m)
    else if Crosses(previous, today) then Crossed(m[day := WithCrossover(previous, today)])
    else Crossed(m)
  }

  /** One day after the other, each on what is there by then. */
  function CrossDays(m: Schedules, days: seq<Day>, n: nat): Crossing
    requires n <= |days|
  {
    if n == 0 then Crossed(m) else
    match CrossDays(m, days, n - 1)
    case BadEnd(m') => BadEnd(m')
    case Crossed(m') => CrossDay(m', DayBefore(days, n - 1), days[n - 1])
  }

  class ScheduleView {
    var daySchedules: Schedules

    constructor ()
      ensures daySchedules == map[]
    {
      daySchedules := map[];
    }

    method AddCrossoverBlock(before: Day, day: Day) returns (ok: bool)
      modifies this
      ensures (if ok then Crossed(daySchedules) else BadEnd(daySchedules)) == CrossDay(old(daySchedules), before, day)
    {
      hide StartOf, TimeToMinutes, Readable;
      var previous := PeriodsOf(daySchedules, before);
      if previous == [] {
        return true;
      }
      var last := previous[|previous| - 1];
      if last.end != END_OF_DAY {
        return true;
      }
      var today := PeriodsOf(daySchedules, day);
      var endTime, endMinutes := DEFAULT_END, TimeToMinutes(6, 30);
      if |today| > 0 {
        endTime := today[0].start;
        if !Readable(today[0]) {
          return false;
        }
        endMinutes := StartOf(today[0]);
      }
      if endMinutes > 0 {
        var crossover := Period("00:00", endTime, last.activity, endMinutes, last.enabled);
        daySchedules := daySchedules[day := [crossover] + today];
      }
      return true;
    }

    method AddCrossoverBlocks(days: seq<Day>) returns (ok: bool)
      modifies this
      ensures (if ok then Crossed(daySchedules) else BadEnd(daySchedules)) == CrossDays(old(daySchedules), days, |days|)
    {
      hide CrossDay;
      for i := 0 to |days|
        invariant CrossDays(old(daySchedules), days, i) == Crossed(daySchedules)
      {
        BadEndStays(old(daySchedules), days, i + 1, |days|);
        var prevDayIndex := (i - 1 + |days|) % |days|;
        ok := AddCrossoverBlock(days[prevDayIndex], days[i]);
        if !ok {
          return;
        }
      }
      return true;
    }

    /** The schedule page: each day on its own first, then the continuations. */
    method ComputeWeek(programs: Schedules, days: seq<Day>) returns (ok: bool)
      requires NoDayTwice(days)
      modifies this
      ensures ok <==> EachReadable(programs, days)
      ensures ok ==> IsWeek(programs, daySchedules, days)
      ensures ok ==> (EachTiled(daySchedules, days) <==> EachCovered(programs, days))
      ensures ok && EachCovered(programs, days) ==> EachSaysWhatIsOn(programs, daySchedules, days)
    {
      hide EachTiled, EachSaysWhatIsOn, EachCovered, AllReadable, IsCut, CrossDays, NoDayTwice;
      daySchedules := map[];
      for i := 0 to |days|
        invariant forall k :: 0 <= k < i ==> AllReadable(PeriodsOf(programs, days[k]))
        invariant EachCut(programs, daySchedules, days[..i])
      {
        var r := ComputeDay(PeriodsOf(programs, days[i]));
        if r.BadTime? {
          return false;
        }
        CutOneMore(programs, daySchedules, days, i, r.blocks);
        daySchedules := daySchedules[days[i] := r.blocks];
      }
      assert days[..|days|] == days;
      CutsAreReadable(programs, daySchedules, days);
      NeverBadEnd(daySchedules, days, |days|);
      WeekIsTiled(programs, daySchedules, days);
      ghost var m := daySchedules;
      ok := AddCrossoverBlocks(days);
      assert CrossesTo(programs, m, days, daySchedules);
    }
  }

  method ComputeDay(periods: seq<Period>) returns (r: Computed)
    ensures r.BadTime? <==> !AllReadable(periods)
    ensures r.Computed? ==> IsCut(periods, r.blocks)
  {
    hide AllReadable, Blocks, Sorted;
    var a := new Period[|periods|](i requires 0 <= i < |periods| => periods[i]);
    assert a[..] == periods;
    r := ComputeScheduleBlocks(a);
    if r.Computed? {
      assert InOrder(periods, a[..]);
    }
  }

  lemma CutOneMore(programs: Schedules, m: Schedules, days: seq<Day>, i: nat, blocks: seq<Period>)
    requires i < |days| && NoDayTwice(days) && EachCut(programs, m, days[..i])
    requires IsCut(PeriodsOf(programs, days[i]), blocks)
    ensures EachCut(programs, m[days[i] := blocks], days[..i + 1])
  {
    hide IsCut;
  }

  // ---------- Errors ----------

  lemma {:induction false} BlocksAreReadable(s: seq<Period>, n: nat)
    requires n <= |s| && AllReadable(s)
    ensures AllReadable(Blocks(s, n))
  {
    hide BlockAt, ParseTime;
    if n > 0 {
      BlocksAreReadable(s, n - 1);
      SameStart(s, n - 1);
      assert Readable(s[n - 1]);
    }
  }

  lemma SameStart(s: seq<Period>, i: nat)
    requires i < |s|
    ensures BlockAt(s, i) == [] || (|BlockAt(s, i)| == 1 && BlockAt(s, i)[0].start == s[i].start)
  {
    hide StartOf, Int64, MinutesToTime;
  }

  ghost predicate AllDaysReadable(m: Schedules, days: seq<Day>) {
    forall day :: day in days ==> AllReadable(PeriodsOf(m, day))
  }

  lemma CutsAreReadable(programs: Schedules, m: Schedules, days: seq<Day>)
    requires EachCut(programs, m, days) && EachReadable(programs, days)
    ensures AllDaysReadable(m, days)
  {
    hide AllReadable, InOrder;
    forall day | day in days ensures AllReadable(PeriodsOf(m, day)) {
      var i :| 0 <= i < |days| && days[i] == day;
      CutIsReadable(PeriodsOf(programs, days[i]), PeriodsOf(m, days[i]));
    }
  }

  lemma CutIsReadable(p: seq<Period>, blocks: seq<Period>)
    requires IsCut(p, blocks) && AllReadable(p)
    ensures AllReadable(blocks)
  {
    hide AllReadable, Blocks;
    var s :| InOrder(p, s) && blocks == Blocks(s, |s|);
    SameElements(s, p);
    BlocksAreReadable(s, |s|);
  }

  /** No continuation ever finds an end that it cannot read: the second pass cannot fail after the
      first has succeeded. */
  lemma {:induction false} NeverBadEnd(m: Schedules, days: seq<Day>, n: nat)
    requires n <= |days| && AllDaysReadable(m, days)
    ensures CrossDays(m, days, n).Crossed? && AllDaysReadable(CrossDays(m, days, n).schedules, days)
  {
    hide Readable, StartOf, DayBefore, GoesOn, EndMinutes, EndText;
    if n > 0 {
      NeverBadEnd(m, days, n - 1);
      var m' := CrossDays(m, days, n - 1).schedules;
      CrossoverIsReadable(PeriodsOf(m', DayBefore(days, n - 1)), PeriodsOf(m', days[n - 1]));
    }
  }

  lemma CrossoverIsReadable(previous: seq<Period>, today: seq<Period>)
    requires AllReadable(today)
    ensures AllReadable(WithCrossover(previous, today)) && !FailsToEnd(previous, today)
  {
    hide Readable, StartOf, EndMinutes, EndText;
    if Crosses(previous, today) {
      MidnightIsZero(WithCrossover(previous, today)[0]);
    }
  }

  lemma {:induction false} BadEndStays(m: Schedules, days: seq<Day>, n: nat, k: nat)
    requires n <= k <= |days|
    ensures CrossDays(m, days, n).BadEnd? ==> CrossDays(m, days, k) == CrossDays(m, days, n)
  {
    if n < k {
      BadEndStays(m, days, n, k - 1);
    }
  }

  // ---------- Each day in place is as good as all at once ----------

  ghost predicate NoDayTwice(days: seq<Day>) {
    forall i, j :: 0 <= i < j < |days| ==> days[i] != days[j]
  }

  function Expected(m: Schedules, days: seq<Day>, i: nat, n: nat): seq<Period>
    requires i < |days|
  {
    var today := PeriodsOf(m, days[i]);
    if i < n then WithCrossover(PeriodsOf(m, DayBefore(days, i)), today) else today
  }

  lemma CrossoverKeepsEnd(previous: seq<Period>, today: seq<Period>)
    ensures today != [] ==> WithCrossover(previous, today) != [] && Last(WithCrossover(previous, today)) == Last(today)
    ensures today == [] ==> !GoesOn(WithCrossover(previous, today))
  {
    hide StartOf, TimeToMinutes;
    assert DEFAULT_END[0] != END_OF_DAY[0];
  }

  /** Whether the day before has already been changed makes no difference. */
  lemma SameBefore(first: seq<Period>, previous: seq<Period>, today: seq<Period>)
    ensures WithCrossover(WithCrossover(first, previous), today) == WithCrossover(previous, today)
    ensures FailsToEnd(WithCrossover(first, previous), today) == FailsToEnd(previous, today)
  {
    hide StartOf, Readable;
    CrossoverKeepsEnd(first, previous);
  }

  /** Going through the days one by one, changing them in place, gives each day the continuation of
      the original day before. It fails if and only if, on some day, that one would end where the day
      starts, and the day's start cannot be read. */
  lemma {:induction false} OneByOne(m: Schedules, days: seq<Day>, n: nat)
    requires n <= |days| && NoDayTwice(days)
    ensures CrossDays(m, days, n).BadEnd? <==> exists i :: 0 <= i < n && EndsUnreadably(m, days, i)
    ensures CrossDays(m, days, n).Crossed? ==>
      var after := CrossDays(m, days, n).schedules;
      forall i :: 0 <= i < |days| ==> PeriodsOf(after, days[i]) == Expected(m, days, i, n)
  {
    hide CrossDay, Expected, NoDayTwice, EndsUnreadably, DayBefore;
    if n > 0 {
      OneByOne(m, days, n - 1);
      if CrossDays(m, days, n - 1).Crossed? {
        OneMoreDay(m, CrossDays(m, days, n - 1).schedules, days, n - 1);
      }
    } else {
      assert forall i :: 0 <= i < |days| ==> Expected(m, days, i, 0) == PeriodsOf(m, days[i]) by {
        NothingExpected(m, days);
      }
    }
  }

  /** The day before goes on, and the first start of the day cannot be read. */
  ghost predicate EndsUnreadably(m: Schedules, days: seq<Day>, i: nat)
    requires i < |days|
  {
    var before, today := PeriodsOf(m, DayBefore(days, i)), PeriodsOf(m, days[i]);
    before != [] && Last(before).end == "23:59" && today != [] && ParseTime(today[0].start).Malformed?
  }

  lemma NothingExpected(m: Schedules, days: seq<Day>)
    ensures forall i :: 0 <= i < |days| ==> Expected(m, days, i, 0) == PeriodsOf(m, days[i])
  {}

  lemma OneMoreDay(m: Schedules, m': Schedules, days: seq<Day>, k: nat)
    requires k < |days| && NoDayTwice(days)
    requires forall i :: 0 <= i < |days| ==> PeriodsOf(m', days[i]) == Expected(m, days, i, k)
    ensures var r := CrossDay(m', DayBefore(days, k), days[k]);
      && (r.BadEnd? <==> EndsUnreadably(m, days, k))
      && (r.Crossed? ==>
            forall i :: 0 <= i < |days| ==> PeriodsOf(r.schedules, days[i]) == Expected(m, days, i, k + 1))
  {
    hide WithCrossover, Crosses, FailsToEnd, DayBefore, EndsUnreadably;
    BeforeIsOutOfTheWay(days, k);
    var previous, today := PeriodsOf(m', DayBefore(days, k)), PeriodsOf(m, days[k]);
    if 0 < k {
      SameBefore(PeriodsOf(m, DayBefore(days, k - 1)), PeriodsOf(m, days[k - 1]), today);
    }
    assert WithCrossover(previous, today) == Expected(m, days, k, k + 1);
    assert FailsToEnd(previous, today) == FailsToEnd(PeriodsOf(m, DayBefore(days, k)), today);
    FailsWhen(m, days, k);
    StepOfOne(previous, today);
  }

  lemma FailsWhen(m: Schedules, days: seq<Day>, i: nat)
    requires i < |days|
    ensures FailsToEnd(PeriodsOf(m, DayBefore(days, i)), PeriodsOf(m, days[i])) <==> EndsUnreadably(m, days, i)
  {
    hide ParseTime, DayBefore;
  }

  lemma BeforeIsOutOfTheWay(days: seq<Day>, k: nat)
    requires k < |days|
    ensures DayBefore(days, k) == if k > 0 then days[k - 1] else days[|days| - 1]
  {
    if k > 0 {
      WrapOnce(k - 1, |days|);
    }
  }

  lemma WrapOnce(x: nat, n: nat)
    requires x < n
    ensures (x + n) % n == x
  {}

  lemma StepOfOne(previous: seq<Period>, today: seq<Period>)
    ensures !Crosses(previous, today) ==> WithCrossover(previous, today) == today
  {}

  // ---------- A whole day ----------

  /** What the first pass makes of the periods of a day, in whatever order those are given. */
  ghost predicate IsCut(p: seq<Period>, blocks: seq<Period>) {
    exists s :: InOrder(p, s) && blocks == Blocks(s, |s|)
  }

  ghost predicate InOrder(p: seq<Period>, s: seq<Period>) {
    multiset(s) == multiset(p) && Sorted(s)
  }

  /** A day of which no period starts at the midnight that ends it: the last one goes on after it. */
  ghost predicate RunsOn(p: seq<Period>) {
    forall x :: x in p ==> StartOf(x) < MINUTES_IN_A_DAY
  }

  ghost predicate StartsAtMidnight(p: seq<Period>) {
    exists x :: x in p && StartOf(x) == 0
  }

  /** Of the blocks of a covered day, the first starts with the first period, and the last goes on
      after midnight exactly when the day does. */
  lemma CoveredBlocks(p: seq<Period>, s: seq<Period>)
    requires InOrder(p, s) && CoversDay(p)
    ensures CoversDay(s) && |Blocks(s, |s|)| == Early(s) > 0
    ensures StartOf(Blocks(s, |s|)[0]) == StartOf(s[0]) >= 0
    ensures StartOf(s[0]) == 0 <==> StartsAtMidnight(p)
    ensures GoesOn(Blocks(s, |s|)) <==> RunsOn(p)
    ensures Says(Last(Blocks(s, |s|)), s[Early(s) - 1])
    ensures RunsOn(p) ==> Early(s) == |s|
  {
    hide StartOf, Early, Blocks, CoversDay, Says, GoesOn;
    InAnyOrder(s, p);
    SameElements(s, p);
    CoveredDayTiles(s);
    FirstBlock(s);
    LastBlock(s);
    assert forall x :: x in s ==> StartOf(s[0]) <= StartOf(x);
    assert forall x :: x in p <==> x in s;
  }

  lemma FirstBlock(s: seq<Period>)
    requires Sorted(s) && CoversDay(s)
    ensures Blocks(s, |s|) != [] && s != [] && StartOf(Blocks(s, |s|)[0]) == StartOf(s[0]) >= 0
  {
    hide BlockAt, StartOf, EarlyDiffer, Early, Tiles, Blocks, Sorted;
    CoveredDayTiles(s);
    BlocksOfPeriods(s, Early(s));
    BlockOfPeriod(s, 0);
    assert BlockAt(s, 0) == [Blocks(s, |s|)[0]];
  }

  lemma LastBlock(s: seq<Period>)
    requires Sorted(s) && CoversDay(s)
    ensures Blocks(s, |s|) != [] && Early(s) > 0 && Says(Last(Blocks(s, |s|)), s[Early(s) - 1])
    ensures GoesOn(Blocks(s, |s|)) <==> Early(s) == |s|
    ensures RunsOn(s) <==> Early(s) == |s|
  {
    hide BlockAt, StartOf, EarlyDiffer, Early, Tiles, Blocks, MinutesToTime, Sorted;
    CoveredDayTiles(s);
    var m := Early(s);
    BlocksOfPeriods(s, m);
    BlockOfPeriod(s, m - 1);
    assert BlockAt(s, m - 1) == [Last(Blocks(s, |s|))];
    if m < |s| {
      MidnightText();
      assert s[m] in s;
    }
  }

  lemma CrossoverTiles(previous: seq<Period>, today: seq<Period>)
    requires today != []
    ensures Tiles(WithCrossover(previous, today), 0, MINUTES_IN_A_DAY) <==>
      if Crosses(previous, today) then Tiles(today, StartOf(today[0]), MINUTES_IN_A_DAY)
      else Tiles(today, 0, MINUTES_IN_A_DAY)
  {
    hide StartOf, Tiles, Readable;
    if Crosses(previous, today) {
      var w := WithCrossover(previous, today);
      assert w == [w[0]] + today;
      MidnightIsZero(w[0]);
      TilesFirst(w[0], today, MINUTES_IN_A_DAY);
    }
  }

  lemma MidnightIsZero(p: Period)
    requires p.start == "00:00"
    ensures Readable(p) && StartOf(p) == 0
  {
    assert ParseTime(p.start) == Time(0, 0);
  }

  /** Whatever its start times, a day is covered without gap or overlap if and only if its periods
      cover it from the first one on, and that starts at midnight or the day before goes on. */
  lemma WholeDay(previous: seq<Period>, p: seq<Period>, today: seq<Period>)
    requires IsCut(p, today) && AllReadable(p)
    ensures Tiles(WithCrossover(previous, today), 0, MINUTES_IN_A_DAY) <==>
      CoversDay(p) && (StartsAtMidnight(p) || GoesOn(previous))
  {
    hide Blocks, StartOf, Tiles, CoversDay, WithCrossover, AllReadable, StartsAtMidnight, RunsOn, Sorted, GoesOn;
    var s :| InOrder(p, s) && today == Blocks(s, |s|);
    SameElements(s, p);
    InAnyOrder(s, p);
    if CoversDay(p) {
      CoveredBlocks(p, s);
    }
    if today == [] {
      EmptyDay(previous);
    } else {
      CrossoverTiles(previous, today);
      DayTiles(s, if Crosses(previous, today) then StartOf(today[0]) else 0);
    }
  }

  /** A day without blocks is never covered. */
  lemma EmptyDay(previous: seq<Period>)
    ensures !Tiles(WithCrossover(previous, []), 0, MINUTES_IN_A_DAY)
  {
    var w := WithCrossover(previous, []);
    HalfPastSix();
    hide StartOf;
    if w != [] {
      assert w[..|w| - 1] == [];
      MidnightIsZero(w[0]);
    }
  }

  lemma HalfPastSix()
    ensures TimeToMinutes(6, 30) == 390
  {}

  /** A day with blocks gets one more in front if and only if the day before goes on and the day does
      not start at midnight or before; that one lasts from midnight until the day starts. */
  lemma ContinuationIs(previous: seq<Period>, today: seq<Period>)
    requires today != []
    ensures var w := WithCrossover(previous, today);
      if previous != [] && Last(previous).end == "23:59" && StartOf(today[0]) > 0
      then |w| == |today| + 1 && w[1..] == today && Says(w[0], Last(previous))
        && w[0].start == "00:00" && w[0].end == today[0].start && w[0].duration == StartOf(today[0])
      else w == today
  {
    hide StartOf;
  }

  /** What a day without blocks comes out as: nothing, or the day before until half past six. */
  lemma EmptyDayBlock(previous: seq<Period>)
    ensures var w := WithCrossover(previous, []);
      if GoesOn(previous)
      then |w| == 1 && w[0].start == "00:00" && w[0].end == "06:30" && Says(w[0], Last(previous)) && Tiles(w, 0, 390)
      else w == []
  {
    hide StartOf, TimeToMinutes, ParseTime, Readable, Tiles, GoesOn, FailsToEnd;
    HalfPastSix();
    if GoesOn(previous) {
      var w := WithCrossover(previous, []);
      MidnightIsZero(w[0]);
      TilesNothing(390);
      TilesFirst(w[0], [], 390);
      assert [w[0]] + [] == w;
    }
  }

  /** A continuation says when it ends. */
  lemma CrossoverEndIsTold(previous: seq<Period>, today: seq<Period>)
    requires Crosses(previous, today) && !FailsToEnd(previous, today)
    ensures var w := WithCrossover(previous, today);
      w != [] && ParseTime(w[0].end).Time? && TextMinutes(w[0].end) == w[0].duration && StartOf(w[0]) == 0
  {
    hide ParseTime, TimeToMinutes;
    MidnightIsZero(WithCrossover(previous, today)[0]);
    DefaultEndIsTold();
  }

  lemma DefaultEndIsTold()
    ensures ParseTime(DEFAULT_END).Time? && TextMinutes(DEFAULT_END) == TimeToMinutes(6, 30)
  {
    hide ParseTime;
    ReadsBack(390);
    assert MinutesToTime(390) == DEFAULT_END;
  }

  // ---------- What holds at each minute ----------

  ghost predicate HasStarted(p: seq<Period>, minute: int) {
    exists x :: x in p && StartOf(x) <= minute
  }

  /** The period that is on: the one that started last today, or if there is none yet, the one that
      started last on the day before. */
  ghost predicate IsOn(before: seq<Period>, p: seq<Period>, minute: int, x: Period) {
    if HasStarted(p, minute) then IsLatest(p, minute, x) else IsLatest(before, MINUTES_IN_A_DAY - 1, x)
  }

  ghost predicate Says(b: Period, x: Period) {
    b.activity == x.activity && b.enabled == x.enabled
  }

  ghost predicate SomeIsOn(before: seq<Period>, p: seq<Period>, minute: int, b: Period) {
    exists x :: IsOn(before, p, minute, x) && Says(b, x)
  }

  lemma DaySaysWhatIsOn(before: seq<Period>, previous: seq<Period>, p: seq<Period>, today: seq<Period>,
                        i: nat, minute: int)
    requires IsCut(before, previous) && IsCut(p, today) && CoversDay(before) && CoversDay(p)
    requires i < |WithCrossover(previous, today)| && Covers(WithCrossover(previous, today)[i], minute)
    ensures SomeIsOn(before, p, minute, WithCrossover(previous, today)[i])
  {
    hide Blocks, StartOf, IsLatest, HasStarted, CoversDay, InOrder, Covers, WithCrossover, Says, IsOn;
    var b :| InOrder(before, b) && previous == Blocks(b, |b|);
    var s :| InOrder(p, s) && today == Blocks(s, |s|);
    var w := WithCrossover(previous, today);
    FrontOfDay(previous, today);
    if |w| > |today| && i == 0 {
      FrontSays(before, b, p, s, minute);
      assert IsOn(before, p, minute, Last(b));
    } else {
      var k := i - (|w| - |today|);
      assert w[i] == today[k];
      BlockSays(before, p, s, k, minute);
      assert IsOn(before, p, minute, s[k]);
    }
  }

  lemma FrontOfDay(previous: seq<Period>, today: seq<Period>)
    ensures var w := WithCrossover(previous, today);
      w == today || (|w| == |today| + 1 && w[1..] == today)
  {}

  lemma FrontSays(before: seq<Period>, b: seq<Period>, p: seq<Period>, s: seq<Period>, minute: int)
    requires InOrder(before, b) && InOrder(p, s) && CoversDay(before) && CoversDay(p)
    requires var w := WithCrossover(Blocks(b, |b|), Blocks(s, |s|)); |w| > |Blocks(s, |s|)| && Covers(w[0], minute)
    ensures b != [] && IsOn(before, p, minute, Last(b))
    ensures Says(WithCrossover(Blocks(b, |b|), Blocks(s, |s|))[0], Last(b))
  {
    hide Blocks, IsLatest, CoversDay, InOrder, HasStarted, StartOf, WithCrossover, RunsOn, StartsAtMidnight;
    CoveredBlocks(before, b);
    CoveredBlocks(p, s);
    Front(Blocks(b, |b|), Blocks(s, |s|));
    NothingYet(p, s, minute);
    LastOfBefore(before, b);
  }

  lemma Front(previous: seq<Period>, today: seq<Period>)
    requires |WithCrossover(previous, today)| > |today|
    ensures GoesOn(previous) && Says(WithCrossover(previous, today)[0], Last(previous))
    ensures StartOf(WithCrossover(previous, today)[0]) == 0
    ensures today != [] ==> WithCrossover(previous, today)[0].duration == StartOf(today[0])
  {
    hide StartOf, TimeToMinutes;
    MidnightIsZero(WithCrossover(previous, today)[0]);
  }

  lemma NothingYet(p: seq<Period>, s: seq<Period>, minute: int)
    requires InOrder(p, s) && s != [] && minute < StartOf(s[0])
    ensures !HasStarted(p, minute)
  {
    hide StartOf;
    SameElements(s, p);
    NoneBeforeFirst(s, minute);
  }

  lemma LastOfBefore(before: seq<Period>, b: seq<Period>)
    requires InOrder(before, b) && b != [] && RunsOn(before)
    ensures IsLatest(before, MINUTES_IN_A_DAY - 1, Last(b))
  {
    hide IsLatest, StartOf;
    InAnyOrder(b, before);
    SameElements(b, before);
    LastIsLatest(b);
  }

  lemma LastIsLatest(s: seq<Period>)
    requires s != [] && Sorted(s) && RunsOn(s)
    ensures IsLatest(s, MINUTES_IN_A_DAY - 1, Last(s))
  {
    hide StartOf;
    assert Last(s) in s;
  }

  lemma BlockSays(before: seq<Period>, p: seq<Period>, s: seq<Period>, k: nat, minute: int)
    requires InOrder(p, s) && CoversDay(p)
    requires k < |Blocks(s, |s|)| && Covers(Blocks(s, |s|)[k], minute)
    ensures k < |s| && IsOn(before, p, minute, s[k]) && Says(Blocks(s, |s|)[k], s[k])
  {
    hide Blocks, IsLatest, CoversDay, StartOf, HasStarted, Covers;
    InAnyOrder(s, p);
    BlocksSayLatest(s, k, minute);
    LatestHasStarted(p, minute, s[k]);
  }

  lemma LatestHasStarted(p: seq<Period>, minute: int, x: Period)
    requires IsLatest(p, minute, x)
    ensures HasStarted(p, minute)
  {}

  lemma NoneBeforeFirst(s: seq<Period>, minute: int)
    requires s != [] && Sorted(s) && minute < StartOf(s[0])
    ensures !HasStarted(s, minute)
  {
    hide StartOf;
  }

  // ---------- The whole week ----------

  /** Each day's program, as it was read. */
  ghost predicate EachReadable(m: Schedules, days: seq<Day>) {
    forall i :: 0 <= i < |days| ==> AllReadable(PeriodsOf(m, days[i]))
  }

  ghost predicate EachWithinDay(m: Schedules, days: seq<Day>) {
    forall i :: 0 <= i < |days| ==> WithinDay(PeriodsOf(m, days[i]))
  }

  /** Every day has a period, and no two of a day start at the same time. */
  ghost predicate EachRegular(m: Schedules, days: seq<Day>) {
    forall i :: 0 <= i < |days| ==> PeriodsOf(m, days[i]) != [] && Different(PeriodsOf(m, days[i]))
  }

  /** Every day is covered from its first start on, and before that there is no time, or the day before
      goes on. */
  ghost predicate EachCovered(m: Schedules, days: seq<Day>) {
    forall i :: 0 <= i < |days| ==>
      && CoversDay(PeriodsOf(m, days[i]))
      && (StartsAtMidnight(PeriodsOf(m, days[i])) || RunsOn(PeriodsOf(m, DayBefore(days, i))))
  }

  ghost predicate EachCut(programs: Schedules, m: Schedules, days: seq<Day>) {
    forall i :: 0 <= i < |days| ==> IsCut(PeriodsOf(programs, days[i]), PeriodsOf(m, days[i]))
  }

  /** What a week comes out as: every day cut on its own, and then continued after midnight, one day
      after the other. */
  ghost predicate IsWeek(programs: Schedules, after: Schedules, days: seq<Day>) {
    exists m :: CrossesTo(programs, m, days, after)
  }

  ghost predicate CrossesTo(programs: Schedules, m: Schedules, days: seq<Day>, after: Schedules) {
    EachCut(programs, m, days) && CrossDays(m, days, |days|) == Crossed(after)
  }

  ghost predicate EachTiled(m: Schedules, days: seq<Day>) {
    forall i :: 0 <= i < |days| ==> Tiles(PeriodsOf(m, days[i]), 0, MINUTES_IN_A_DAY)
  }

  /** Every block of a day says, for each of its minutes, what is on then. */
  ghost predicate EachSaysWhatIsOn(programs: Schedules, m: Schedules, days: seq<Day>) {
    forall i, k, minute ::
      0 <= i < |days| && 0 <= k < |PeriodsOf(m, days[i])| && Covers(PeriodsOf(m, days[i])[k], minute) ==>
        SomeIsOn(PeriodsOf(programs, DayBefore(days, i)), PeriodsOf(programs, days[i]), minute,
                 PeriodsOf(m, days[i])[k])
  }

  lemma CutOfDay(programs: Schedules, m: Schedules, days: seq<Day>, day: Day)
    requires EachCut(programs, m, days) && EachReadable(programs, days) && day in days
    ensures IsCut(PeriodsOf(programs, day), PeriodsOf(m, day)) && AllReadable(PeriodsOf(programs, day))
  {
    hide IsCut, AllReadable;
    var i :| 0 <= i < |days| && days[i] == day;
  }

  lemma GoesOnWhen(p: seq<Period>, blocks: seq<Period>)
    requires IsCut(p, blocks) && CoversDay(p)
    ensures GoesOn(blocks) <==> RunsOn(p)
  {
    hide CoversDay, InOrder, RunsOn, GoesOn, Blocks;
    var s :| InOrder(p, s) && blocks == Blocks(s, |s|);
    CoveredBlocks(p, s);
  }

  /** Whatever the start times, the week is covered without gap or overlap if and only if every day is
      covered from its first start on, and that is midnight or the day before goes on; and then every
      block says what is on. */
  lemma WeekIsTiled(programs: Schedules, m: Schedules, days: seq<Day>)
    requires NoDayTwice(days) && EachCut(programs, m, days) && EachReadable(programs, days)
    ensures CrossDays(m, days, |days|).Crossed?
    ensures var after := CrossDays(m, days, |days|).schedules;
      && (EachTiled(after, days) <==> EachCovered(programs, days))
      && (EachCovered(programs, days) ==> EachSaysWhatIsOn(programs, after, days))
  {
    hide Tiles, CoversDay, AllReadable, Covers, IsCut, SomeIsOn, WithCrossover, CrossDays, DayBefore;
    hide NoDayTwice, RunsOn, StartsAtMidnight, GoesOn;
    CutsAreReadable(programs, m, days);
    NeverBadEnd(m, days, |days|);
    OneByOne(m, days, |days|);
    var after := CrossDays(m, days, |days|).schedules;
    forall i | 0 <= i < |days|
      ensures Tiles(PeriodsOf(after, days[i]), 0, MINUTES_IN_A_DAY) <==>
        CoversDay(PeriodsOf(programs, days[i]))
        && (StartsAtMidnight(PeriodsOf(programs, days[i])) || GoesOn(PeriodsOf(m, DayBefore(days, i))))
      ensures CoversDay(PeriodsOf(programs, DayBefore(days, i))) ==>
        (GoesOn(PeriodsOf(m, DayBefore(days, i))) <==> RunsOn(PeriodsOf(programs, DayBefore(days, i))))
    {
      OneDay(programs, m, days, i);
    }
    EachBefore(programs, days);
    if EachCovered(programs, days) {
      forall i, k, minute |
        0 <= i < |days| && 0 <= k < |PeriodsOf(after, days[i])| && Covers(PeriodsOf(after, days[i])[k], minute)
        ensures SomeIsOn(PeriodsOf(programs, DayBefore(days, i)), PeriodsOf(programs, days[i]), minute,
                         PeriodsOf(after, days[i])[k])
      {
        OneDaySays(programs, m, days, i, k, minute);
      }
    }
  }

  /** What holds for each day holds for each day before. */
  lemma EachBefore(programs: Schedules, days: seq<Day>)
    ensures (forall i :: 0 <= i < |days| ==> CoversDay(PeriodsOf(programs, days[i]))) ==>
      forall i :: 0 <= i < |days| ==> CoversDay(PeriodsOf(programs, DayBefore(days, i)))
  {
    hide CoversDay;
  }

  lemma OneDay(programs: Schedules, m: Schedules, days: seq<Day>, i: nat)
    requires i < |days| && EachCut(programs, m, days) && EachReadable(programs, days)
    ensures var p, previous := PeriodsOf(programs, days[i]), PeriodsOf(m, DayBefore(days, i));
      Tiles(WithCrossover(previous, PeriodsOf(m, days[i])), 0, MINUTES_IN_A_DAY) <==>
        CoversDay(p) && (StartsAtMidnight(p) || GoesOn(previous))
    ensures var before := PeriodsOf(programs, DayBefore(days, i));
      CoversDay(before) ==> (GoesOn(PeriodsOf(m, DayBefore(days, i))) <==> RunsOn(before))
  {
    hide Tiles, CoversDay, AllReadable, IsCut, WithCrossover, GoesOn, RunsOn, StartsAtMidnight;
    CutOfDay(programs, m, days, days[i]);
    CutOfDay(programs, m, days, DayBefore(days, i));
    WholeDay(PeriodsOf(m, DayBefore(days, i)), PeriodsOf(programs, days[i]), PeriodsOf(m, days[i]));
    if CoversDay(PeriodsOf(programs, DayBefore(days, i))) {
      GoesOnWhen(PeriodsOf(programs, DayBefore(days, i)), PeriodsOf(m, DayBefore(days, i)));
    }
  }

  lemma OneDaySays(programs: Schedules, m: Schedules, days: seq<Day>, i: nat, k: nat, minute: int)
    requires i < |days| && EachCut(programs, m, days) && EachReadable(programs, days)
    requires CoversDay(PeriodsOf(programs, days[i])) && CoversDay(PeriodsOf(programs, DayBefore(days, i)))
    requires var today := WithCrossover(PeriodsOf(m, DayBefore(days, i)), PeriodsOf(m, days[i]));
      k < |today| && Covers(today[k], minute)
    ensures var today := WithCrossover(PeriodsOf(m, DayBefore(days, i)), PeriodsOf(m, days[i]));
      SomeIsOn(PeriodsOf(programs, DayBefore(days, i)), PeriodsOf(programs, days[i]), minute, today[k])
  {
    hide CoversDay, AllReadable, IsCut, WithCrossover, Covers, SomeIsOn;
    CutOfDay(programs, m, days, days[i]);
    CutOfDay(programs, m, days, DayBefore(days, i));
    DaySaysWhatIsOn(PeriodsOf(programs, DayBefore(days, i)), PeriodsOf(m, DayBefore(days, i)),
                    PeriodsOf(programs, days[i]), PeriodsOf(m, days[i]), k, minute);
  }

  /** With all start times within the day, that is: every day has a period, and no two periods of a
      day start at the same time. */
  lemma WithinDayCovered(programs: Schedules, days: seq<Day>)
    requires EachWithinDay(programs, days)
    ensures EachCovered(programs, days) <==> EachRegular(programs, days)
  {
    hide CoversDay, Different, StartsAtMidnight;
    forall i | 0 <= i < |days|
      ensures CoversDay(PeriodsOf(programs, days[i])) <==>
        PeriodsOf(programs, days[i]) != [] && Different(PeriodsOf(programs, days[i]))
      ensures RunsOn(PeriodsOf(programs, DayBefore(days, i)))
    {
      CoveredWithinDay(PeriodsOf(programs, days[i]));
      var j :| 0 <= j < |days| && days[j] == DayBefore(days, i);
    }
  }

  // ---------- Days without periods ----------

  /** In every week, a day without periods has no block, or one from midnight until half past six that
      says what the last block of the day before says. After a covered day it has that block if and
      only if the day runs on, and it then says what was on at its end. */
  lemma EmptyDayInWeek(programs: Schedules, m: Schedules, days: seq<Day>, i: nat)
    requires NoDayTwice(days) && EachCut(programs, m, days) && EachReadable(programs, days)
    requires i < |days| && (PeriodsOf(programs, days[i]) == [] || PeriodsOf(m, days[i]) == [])
    ensures CrossDays(m, days, |days|).Crossed?
    ensures var w := PeriodsOf(CrossDays(m, days, |days|).schedules, days[i]);
      var previous := PeriodsOf(m, DayBefore(days, i));
      if previous != [] && Last(previous).end == "23:59"
      then |w| == 1 && w[0].start == "00:00" && w[0].end == "06:30" && Says(w[0], Last(previous)) && Tiles(w, 0, 390)
      else w == []
    ensures var w := PeriodsOf(CrossDays(m, days, |days|).schedules, days[i]);
      var before := PeriodsOf(programs, DayBefore(days, i));
      CoversDay(before) ==>
        && (w != [] <==> RunsOn(before))
        && (w != [] ==> exists x :: IsLatest(before, MINUTES_IN_A_DAY - 1, x) && Says(w[0], x))
  {
    hide Tiles, CoversDay, AllReadable, IsCut, WithCrossover, CrossDays, DayBefore, NoDayTwice, RunsOn;
    hide IsLatest, StartOf, PeriodsOf, EachReadable, EachCut, AllDaysReadable;
    CutsAreReadable(programs, m, days);
    NeverBadEnd(m, days, |days|);
    OneByOne(m, days, |days|);
    var previous, before := PeriodsOf(m, DayBefore(days, i)), PeriodsOf(programs, DayBefore(days, i));
    CutOfDay(programs, m, days, days[i]);
    CutOfDay(programs, m, days, DayBefore(days, i));
    if PeriodsOf(programs, days[i]) == [] {
      NoPeriodsNoBlocks(PeriodsOf(m, days[i]));
    }
    EmptyDayBlock(previous);
    assert PeriodsOf(CrossDays(m, days, |days|).schedules, days[i]) == Expected(m, days, i, |days|);
    if CoversDay(before) {
      LastOfCut(before, previous);
      if RunsOn(before) {
        var x :| IsLatest(before, MINUTES_IN_A_DAY - 1, x) && Says(Last(previous), x);
        assert Says(PeriodsOf(CrossDays(m, days, |days|).schedules, days[i])[0], x);
      }
    }
  }

  lemma NoPeriodsNoBlocks(blocks: seq<Period>)
    requires IsCut([], blocks)
    ensures blocks == []
  {
    var s :| InOrder([], s) && blocks == Blocks(s, |s|);
    SameElements(s, []);
  }

  /** The last block of a covered day that runs on says what is on at its end. */
  lemma LastOfCut(before: seq<Period>, previous: seq<Period>)
    requires IsCut(before, previous) && CoversDay(before)
    ensures GoesOn(previous) <==> RunsOn(before)
    ensures RunsOn(before) ==>
      previous != [] && exists x :: IsLatest(before, MINUTES_IN_A_DAY - 1, x) && Says(Last(previous), x)
  {
    hide CoversDay, InOrder, RunsOn, Blocks, IsLatest, Says;
    var b :| InOrder(before, b) && previous == Blocks(b, |b|);
    CoveredBlocks(before, b);
    if RunsOn(before) {
      LastOfBefore(before, b);
    }
  }
}
