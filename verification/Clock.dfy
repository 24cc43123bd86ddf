/** Times of day as text and as minutes since midnight. */
module Clock {

  const INT64_MIN := -0x8000_0000_0000_0000
  const INT64_MAX := 0x7FFF_FFFF_FFFF_FFFF

  /** What a 64-bit integer holds of a result. */
  function Int64(x: int): (r: int)
    ensures INT64_MIN <= x <= INT64_MAX ==> r == x
  {
    (x - INT64_MIN) % 0x1_0000_0000_0000_0000 + INT64_MIN
  }

  /** Division and remainder round toward zero. */
  function Quot(x: int, y: int): int
    requires y > 0
  {
    if x >= 0 then x / y else -((-x) / y)
  }

  function Rem(x: int, y: int): int
    requires y > 0
  {
    if x >= 0 then x % y else -((-x) % y)
  }

  // ---------- Reading ----------

  predicate IsSpace(c: char) {
    || '\t' <= c <= '\r' || c == ' ' || c == '\U{85}' || c == '\U{a0}' || c == '\U{1680}'
    || '\U{2000}' <= c <= '\U{200a}' || c == '\U{2028}' || c == '\U{2029}' || c == '\U{202f}'
    || c == '\U{205f}' || c == '\U{3000}'
  }

  predicate IsDigit(c: char) {
    '0' <= c <= '9'
  }

  /** A line feed is not skipped: it ends the scan with an error. */
  function SkipSpaces(s: string): string {
    if s != "" && IsSpace(s[0]) && s[0] != '\n' then SkipSpaces(s[1..]) else s
  }

  function DigitCount(s: string): (n: nat)
    ensures n <= |s| && forall i :: 0 <= i < n ==> IsDigit(s[i])
  {
    if s != "" && IsDigit(s[0]) then 1 + DigitCount(s[1..]) else 0
  }

  function DigitValue(c: char): nat
    requires IsDigit(c)
  {
    c as int - '0' as int
  }

  function Value(digits: string): nat
    requires forall i :: 0 <= i < |digits| ==> IsDigit(digits[i])
  {
    if digits == "" then 0
    else Value(digits[..|digits| - 1]) * 10 + DigitValue(digits[|digits| - 1])
  }

  datatype Scan = Scanned(value: int, rest: string) | Failed

  /** One `%d`: spaces, a sign, and digits that fit into 64 bits. */
  function ScanInt(s: string): Scan {
    var t := SkipSpaces(s);
    var body := if t != "" && (t[0] == '+' || t[0] == '-') then t[1..] else t;
    var n := DigitCount(body);
    if n == 0 then Failed else
    var v: int := Value(body[..n]);
    var x: int := if t[0] == '-' then 0 - v else v;
    if INT64_MIN <= x <= INT64_MAX then Scanned(x, body[n..]) else Failed
  }

  datatype Parsed = Time(hour: int, minute: int) | Malformed

  /** Hours and minutes may be any numbers, and what follows the minutes is not looked at. */
  function ParseTime(s: string): Parsed {
    if s == "00:00" || s == "" then Time(0, 0) else
    match ScanInt(s)
    case Failed => Malformed
    case Scanned(hour, rest) =>
      if rest == "" || rest[0] != ':' then Malformed else
      match ScanInt(rest[1..])
      case Failed => Malformed
      case Scanned(minute, _) => Time(hour, minute)
  }

  function TimeToMinutes(hour: int, minute: int): int {
    Int64(hour * 60 + minute)
  }

  // ---------- Writing ----------

  function Digit(x: int): (c: char)
    requires 0 <= x < 10
    ensures IsDigit(c) && DigitValue(c) == x
  {
    (x + '0' as int) as char
  }

  /** `%02d`: a minus sign counts for the width. */
  function TwoDigits(x: int): string
    requires -100 < x < 100
  {
    if x >= 0 then [Digit(x / 10), Digit(x % 10)]
    else if x > -10 then ['-', Digit(-x)]
    else ['-', Digit(-x / 10), Digit(-x % 10)]
  }

  function MinutesToTime(minutes: int): string {
    TwoDigits(Rem(Quot(minutes, 60), 24)) + ":" + TwoDigits(Rem(minutes, 60))
  }

  // ---------- Reading back what was written ----------

  predicate StartsWithDigit(s: string) {
    s != "" && IsDigit(s[0])
  }

  lemma ScanUnsigned(s: string, n: nat)
    requires StartsWithDigit(s) && n == DigitCount(s) && Value(s[..n]) <= INT64_MAX
    ensures ScanInt(s) == Scanned(Value(s[..n]), s[n..])
  {}

  lemma ScanNegative(s: string, n: nat)
    requires StartsWithDigit(s) && n == DigitCount(s) && Value(s[..n]) <= INT64_MAX
    ensures ScanInt("-" + s) == Scanned(0 as int - Value(s[..n]) as int, s[n..])
  {
    assert ("-" + s)[1..] == s;
  }

  lemma OneDigit(a: char, rest: string)
    requires IsDigit(a) && !StartsWithDigit(rest)
    ensures DigitCount([a] + rest) == 1 && Value(([a] + rest)[..1]) == DigitValue(a) && ([a] + rest)[1..] == rest
  {
    var s := [a] + rest;
    assert s[1..] == rest;
    assert s[..1][..0] == "";
  }

  lemma BothDigits(a: char, b: char, rest: string)
    requires IsDigit(a) && IsDigit(b) && !StartsWithDigit(rest)
    ensures var s := [a, b] + rest;
      DigitCount(s) == 2 && Value(s[..2]) == DigitValue(a) * 10 + DigitValue(b) && s[2..] == rest
  {
    var s := [a, b] + rest;
    assert s[1..] == [b] + rest;
    OneDigit(b, rest);
    assert s[..2][..1] == [a];
    assert [a][..0] == "";
  }

  lemma ScanTwoDigits(x: int, rest: string)
    requires -100 < x < 100 && !StartsWithDigit(rest)
    ensures ScanInt(TwoDigits(x) + rest) == Scanned(x, rest)
  {
    hide ScanInt, DigitCount, Value;
    if x >= 0 {
      var s := [Digit(x / 10), Digit(x % 10)] + rest;
      BothDigits(Digit(x / 10), Digit(x % 10), rest);
      ScanUnsigned(s, 2);
    } else if x > -10 {
      var s := [Digit(-x)] + rest;
      OneDigit(Digit(-x), rest);
      ScanNegative(s, 1);
      assert TwoDigits(x) + rest == "-" + s;
    } else {
      var s := [Digit(-x / 10), Digit(-x % 10)] + rest;
      BothDigits(Digit(-x / 10), Digit(-x % 10), rest);
      ScanNegative(s, 2);
      assert TwoDigits(x) + rest == "-" + s;
    }
  }

  lemma SplitDay(m: nat)
    ensures ((m / 60) % 24) * 60 + m % 60 == m % 1440
  {
    assert m == m / 1440 * 1440 + m % 1440;
    assert m / 60 == m / 1440 * 24 + m % 1440 / 60;
  }

  /** Reading back what was written gives the time of day, for every number of minutes. */
  lemma ReadsBack(minutes: int)
    ensures var p := ParseTime(MinutesToTime(minutes));
      p.Time? && TimeToMinutes(p.hour, p.minute) == Rem(minutes, 1440)
  {
    hide ScanInt, TwoDigits, Int64;
    var hour, minute := Rem(Quot(minutes, 60), 24), Rem(minutes, 60);
    assert hour * 60 + minute == Rem(minutes, 1440) by {
      SplitDay(if minutes >= 0 then minutes else -minutes);
    }
    var s := MinutesToTime(minutes);
    var rest := ":" + TwoDigits(minute);
    assert s == TwoDigits(hour) + rest;
    ScanTwoDigits(hour, rest);
    ScanTwoDigits(minute, "");
    assert rest[1..] == TwoDigits(minute) == TwoDigits(minute) + "";
    if s == "00:00" {
      ZeroIsZero(hour, minute);
    }
    NeverEmpty(hour);
  }

  lemma NeverEmpty(x: int)
    requires -100 < x < 100
    ensures TwoDigits(x) != ""
  {}

  lemma ZeroIsZero(hour: int, minute: int)
    requires -100 < hour < 100 && -100 < minute < 100
    requires TwoDigits(hour) + ":" + TwoDigits(minute) == "00:00"
    ensures hour == 0 && minute == 0
  {
    var s := TwoDigits(hour) + ":" + TwoDigits(minute);
    assert s[0] == '0' && s[1] == '0' && s[3] == '0' && s[4] == '0';
    assert hour >= 0;
    assert s[3] == TwoDigits(minute)[0] && s[4] == TwoDigits(minute)[1];
  }

  // ---------- Which texts are times ----------

  /** The white space characters of Unicode but for the line feed. */
  predicate IsSkipped(c: char) {
    var x := c as int;
    || x in {9, 11, 12, 13, 32, 133, 160, 5760, 8232, 8233, 8239, 8287, 12288} || 8192 <= x <= 8202
  }

  lemma SpacesAreSkipped(c: char)
    ensures IsSkipped(c) <==> IsSpace(c) && c != '\n'
  {}

  /** A text starts with a number: spaces but no line feed, a sign, and all digits that follow. */
  ghost predicate NumberAt(s: string, spaces: string, sign: string, digits: string, rest: string) {
    && s == spaces + (sign + (digits + rest))
    && (forall i :: 0 <= i < |spaces| ==> IsSkipped(spaces[i]))
    && (sign == "" || sign == "+" || sign == "-")
    && digits != "" && (forall i :: 0 <= i < |digits| ==> IsDigit(digits[i])) && !StartsWithDigit(rest)
  }

  function Signed(sign: string, digits: string): int
    requires forall i :: 0 <= i < |digits| ==> IsDigit(digits[i])
  {
    if sign == "-" then 0 - Value(digits) as int else Value(digits)
  }

  predicate Fits(x: int) {
    INT64_MIN <= x <= INT64_MAX
  }

  lemma {:induction false} SpacesSkipped(spaces: string, t: string)
    requires forall i :: 0 <= i < |spaces| ==> IsSkipped(spaces[i])
    requires t != "" && !IsSkipped(t[0])
    ensures SkipSpaces(spaces + t) == t
  {
    hide IsSpace, IsSkipped;
    SpacesAreSkipped(t[0]);
    if spaces == "" {
      assert spaces + t == t;
    } else {
      SpacesAreSkipped(spaces[0]);
      assert (spaces + t)[1..] == spaces[1..] + t;
      SpacesSkipped(spaces[1..], t);
    }
  }

  lemma {:induction false} DigitsCounted(digits: string, rest: string)
    requires (forall i :: 0 <= i < |digits| ==> IsDigit(digits[i])) && !StartsWithDigit(rest)
    ensures DigitCount(digits + rest) == |digits|
  {
    if digits == "" {
      assert digits + rest == rest;
    } else {
      assert (digits + rest)[1..] == digits[1..] + rest;
      DigitsCounted(digits[1..], rest);
    }
  }

  /** A number is read for what it says, unless that does not fit into 64 bits. */
  lemma {:induction false} ScanIs(s: string, spaces: string, sign: string, digits: string, rest: string)
    requires NumberAt(s, spaces, sign, digits, rest)
    ensures ScanInt(s) == if Fits(Signed(sign, digits)) then Scanned(Signed(sign, digits), rest) else Failed
  {
    hide Value;
    var t := sign + (digits + rest);
    assert t[0] == (if sign == "" then digits[0] else sign[0]);
    SpacesSkipped(spaces, t);
    hide IsSpace, IsSkipped, SkipSpaces, DigitCount;
    assert sign != "" ==> t[1..] == digits + rest;
    assert sign == "" ==> t == digits + rest;
    DigitsCounted(digits, rest);
    assert (digits + rest)[..|digits|] == digits && (digits + rest)[|digits|..] == rest;
  }

  lemma {:induction false} SkippedAre(s: string) returns (spaces: string)
    ensures s == spaces + SkipSpaces(s)
    ensures forall i :: 0 <= i < |spaces| ==> IsSkipped(spaces[i])
  {
    hide IsSpace, IsSkipped;
    spaces := "";
    if s != "" && IsSpace(s[0]) && s[0] != '\n' {
      SpacesAreSkipped(s[0]);
      var more := SkippedAre(s[1..]);
      spaces := [s[0]] + more;
    }
  }

  lemma {:induction false} AllDigitsCounted(s: string)
    ensures !StartsWithDigit(s[DigitCount(s)..])
  {
    if StartsWithDigit(s) {
      AllDigitsCounted(s[1..]);
      assert s[1..][DigitCount(s[1..])..] == s[DigitCount(s)..];
    }
  }

  /** The sign in front of a number, if there is one. */
  function SignOf(t: string): (sign: string)
    ensures |sign| <= |t| && t == sign + t[|sign|..]
  {
    if t != "" && t[0] == '+' then "+" else if t != "" && t[0] == '-' then "-" else ""
  }

  lemma {:induction false} ScanParts(s: string)
    requires ScanInt(s).Scanned?
    ensures var t := SkipSpaces(s);
      var body := t[|SignOf(t)|..];
      DigitCount(body) > 0 && ScanInt(s).rest == body[DigitCount(body)..]
  {
    hide Value, SkipSpaces, DigitCount;
  }

  /** Nothing else is read as a number. */
  lemma {:induction false} OnlyNumbersAreScanned(s: string) returns (spaces: string, sign: string, digits: string)
    requires ScanInt(s).Scanned?
    ensures NumberAt(s, spaces, sign, digits, ScanInt(s).rest)
    ensures Fits(Signed(sign, digits)) && ScanInt(s).value == Signed(sign, digits)
  {
    hide ScanInt, Value, IsSkipped, SkipSpaces, DigitCount, StartsWithDigit, Signed, Fits;
    spaces := SkippedAre(s);
    var t := SkipSpaces(s);
    sign := SignOf(t);
    var body := t[|sign|..];
    ScanParts(s);
    AllDigitsCounted(body);
    digits := body[..DigitCount(body)];
    assert body == digits + body[DigitCount(body)..];
    ScanIs(s, spaces, sign, digits, body[DigitCount(body)..]);
  }

  /** A time: two numbers with a colon between them, whatever follows. */
  ghost predicate TimeAt(s: string, hour: int, minute: int) {
    exists spaces, sign, digits, s', spaces', sign', digits', tail ::
      && NumberAt(s, spaces, sign, digits, ":" + s') && hour == Signed(sign, digits) && Fits(hour)
      && NumberAt(s', spaces', sign', digits', tail) && minute == Signed(sign', digits') && Fits(minute)
  }

  /** A text is read as a time if and only if it is empty, for midnight, or is one; and as that time. */
  lemma {:induction false} TimesAreRead(s: string, hour: int, minute: int)
    ensures ParseTime(s) == Time(hour, minute) <==>
      (s == "" && hour == minute == 0) || TimeAt(s, hour, minute)
  {
    hide ScanInt, NumberAt, Fits;
    ScanTwoDigits(0, ":00");
    ScanTwoDigits(0, "");
    assert TwoDigits(0) + ":00" == "00:00" && TwoDigits(0) + "" == "00" == (":00")[1..];
    if TimeAt(s, hour, minute) {
      TimeIsRead(s, hour, minute);
    }
    if ParseTime(s) == Time(hour, minute) && s != "" {
      var spaces, sign, digits := OnlyNumbersAreScanned(s);
      var rest := ScanInt(s).rest;
      assert rest == ":" + rest[1..];
      var spaces', sign', digits' := OnlyNumbersAreScanned(rest[1..]);
      assert NumberAt(s, spaces, sign, digits, ":" + rest[1..]);
    }
  }

  lemma {:induction false} TimeIsRead(s: string, hour: int, minute: int)
    requires TimeAt(s, hour, minute)
    ensures s != ""
    ensures ScanInt(s).Scanned? && ScanInt(s).value == hour
    ensures ScanInt(s).rest != "" && ScanInt(s).rest[0] == ':'
    ensures ScanInt(ScanInt(s).rest[1..]).Scanned? && ScanInt(ScanInt(s).rest[1..]).value == minute
  {
    hide ScanInt, Fits, IsSpace, IsSkipped;
    var spaces, sign, digits, s', spaces', sign', digits', tail :|
      && NumberAt(s, spaces, sign, digits, ":" + s') && hour == Signed(sign, digits) && Fits(hour)
      && NumberAt(s', spaces', sign', digits', tail) && minute == Signed(sign', digits') && Fits(minute);
    ScanIs(s, spaces, sign, digits, ":" + s');
    assert (":" + s')[1..] == s';
    ScanIs(s', spaces', sign', digits', tail);
  }
}
