/** Printing and parsing of time values in src/runtime/lib/Date.c: the ISO form (section 15.9.1.15 of
    ECMA-262, edition 5.1) and the UTC form. */
module DateText {
  import opened Calendar
  import opened Options

  // ---- printf's conversions ----

  function DigitChar(d: int): char
    requires 0 <= d <= 9
  {
    ['0', '1', '2', '3', '4', '5', '6', '7', '8', '9'][d]
  }

  function Digits(n: nat): (s: string)
    ensures |s| > 0
  {
    if n < 10 then [DigitChar(n)] else Digits(n / 10) + [DigitChar(n % 10)]
  }

  /** %d */
  function FormatInt(n: int): (s: string)
    ensures |s| > 0
  {
    if n < 0 then "-" + Digits(-n) else Digits(n)
  }

  function Zeros(k: nat): (s: string)
    ensures |s| == k
  {
    if k == 0 then "" else "0" + Zeros(k - 1)
  }

  function ZeroPad(s: string, w: nat): string {
    if |s| >= w then s else Zeros(w - |s|) + s
  }

  /** %0wd */
  function Padded(n: int, w: nat): string {
    if n < 0 then "-" + ZeroPad(Digits(-n), if w > 0 then w - 1 else 0) else ZeroPad(Digits(n), w)
  }

  // ---- names ----

  function DayString(d: int): (s: string)
    ensures |s| == 3
  {
    match d
    case 0 => "Sun"
    case 1 => "Mon"
    case 2 => "Tue"
    case 3 => "Wed"
    case 4 => "Thu"
    case 5 => "Fri"
    case _ => "Sat"
  }

  function MonthString(m: int): (s: string)
    ensures |s| == 3
  {
    match m
    case 0 => "Jan"
    case 1 => "Feb"
    case 2 => "Mar"
    case 3 => "Apr"
    case 4 => "May"
    case 5 => "Jun"
    case 6 => "Jul"
    case 7 => "Aug"
    case 8 => "Sep"
    case 9 => "Oct"
    case 10 => "Nov"
    case _ => "Dec"
  }

  /** week_day */
  function WeekDay(t: int): int {
    NonNegative(FMod(Day(t) + 4, 7), 7)
  }

  // ---- printing ----

  function FormatIso(t: int): string {
    FormatInt(Year(t)) + "-" + Padded(MonthFromTime(t) + 1, 2) + "-" + Padded(DateFromTime(t), 2) + "T"
    + Padded(HourFromTime(t), 2) + ":" + Padded(MinFromTime(t), 2) + ":" + Padded(SecFromTime(t), 2)
    + "." + Padded(MsFromTime(t), 3) + "Z"
  }

  function JoinUtc(w: string, d: string, m: string, y: string, h: string, mn: string, s: string): string {
    w + ", " + d + " " + m + " " + y + " " + h + ":" + mn + ":" + s + " GMT"
  }

  function FormatUtc(t: int): string {
    JoinUtc(DayString(WeekDay(t)), Padded(DateFromTime(t), 2), MonthString(MonthFromTime(t)), FormatInt(Year(t)),
            Padded(HourFromTime(t), 2), Padded(MinFromTime(t), 2), Padded(SecFromTime(t), 2))
  }

  // ---- parsing ----

  predicate IsDigit(c: char) { '0' <= c <= '9' }

  predicate IsAlpha(c: char) { 'a' <= c <= 'z' || 'A' <= c <= 'Z' }

  predicate CharMatches(c: char, f: char) {
    f == '?' || if f == 'a' then IsAlpha(c) else if f == 'd' then IsDigit(c) else c == f
  }

  /** What date_verify_format accepts: as long as the format, every character of its class. */
  predicate Matches(str: string, fmt: string) {
    |str| == |fmt| && forall i :: 0 <= i < |str| ==> CharMatches(str[i], fmt[i])
  }

  /** date_verify_format */
  method VerifyFormat(str: string, fmt: string) returns (ok: bool)
    ensures ok == Matches(str, fmt)
    ensures ok <==> |str| == |fmt| && forall i :: 0 <= i < |str| ==>
      if fmt[i] == 'a' then 'a' <= str[i] <= 'z' || 'A' <= str[i] <= 'Z'
      else if fmt[i] == 'd' then '0' <= str[i] <= '9'
      else fmt[i] == '?' || str[i] == fmt[i]
  {
    if |str| != |fmt| {
      return false;
    }
    var i, n := 0, |str|;
    while i < n
      invariant 0 <= i <= n
      invariant forall j :: 0 <= j < i ==> CharMatches(str[j], fmt[j])
    {
      var c, f := str[i], fmt[i];
      if f != '?' {
        if f == 'a' && !IsAlpha(c) { return false; }
        if f == 'd' && !IsDigit(c) { return false; }
        if f != 'a' && f != 'd' && c != f { return false; }
      }
      i := i + 1;
    }
    return true;
  }

  function DigitValue(c: char): int
    requires IsDigit(c)
  {
    c as int - '0' as int
  }

  /** atoi of a string without blanks or sign: the value of its leading digits, after `acc`. */
  function Atoi(s: string, acc: int): int {
    if s == "" || !IsDigit(s[0]) then acc else Atoi(s[1..], 10 * acc + DigitValue(s[0]))
  }

  function MonthIndex(name: string, from: nat): nat
    decreases 12 - from
  {
    if from >= 12 then 12 else if MonthString(from) == name then from else MonthIndex(name, from + 1)
  }

  /** The loop over the month names. */
  method FindMonth(name: string) returns (month: nat)
    ensures month == MonthIndex(name, 0)
  {
    month := 0;
    while month < 12
      invariant month <= 12 && MonthIndex(name, month) == MonthIndex(name, 0)
    {
      if MonthString(month) == name { break; }
      month := month + 1;
    }
  }

  const ISO_FORMAT := "dddd-dd-ddTdd:dd:dd.dddZ"
  const UTC_FORMAT := "aaa, dd aaa dddd dd:dd:dd GMT"

  function ParseIso(str: string): Option<int> {
    if !Matches(str, ISO_FORMAT) then None
    else
      var year, month, date := Atoi(str[0..4], 0), Atoi(str[5..7], 0) - 1, Atoi(str[8..10], 0);
      var hour, min, sec, msec := Atoi(str[11..13], 0), Atoi(str[14..16], 0), Atoi(str[17..19], 0), Atoi(str[20..23], 0);
      Some(TimeClip(MakeDate(MakeDay(year, month, date), MakeTime(hour, min, sec, msec))))
  }

  function ParseUtc(str: string): Option<int> {
    if !Matches(str, UTC_FORMAT) then None
    else
      var date, month, year := Atoi(str[5..7], 0), MonthIndex(str[8..11], 0), Atoi(str[12..16], 0);
      var hour, min, sec := Atoi(str[17..19], 0), Atoi(str[20..22], 0), Atoi(str[23..25], 0);
      if month == 12 then None
      else Some(TimeClip(MakeDate(MakeDay(year, month, date), MakeTime(hour, min, sec, 0))))
  }

  /** date_parse_str: the first parser that accepts; `parseLoc` stands for the one for local times. */
  function ParseStr(str: string, parseLoc: string -> Option<int>): Option<int> {
    if ParseIso(str).Some? then ParseIso(str)
    else if ParseUtc(str).Some? then ParseUtc(str)
    else parseLoc(str)
  }

  method DateParseIso(str: string) returns (r: Option<int>)
    ensures r == ParseIso(str)
  {
    var ok := VerifyFormat(str, ISO_FORMAT);
    if !ok { return None; }
    var year, month, date := Atoi(str[0..4], 0), Atoi(str[5..7], 0) - 1, Atoi(str[8..10], 0);
    var hour, min, sec, msec := Atoi(str[11..13], 0), Atoi(str[14..16], 0), Atoi(str[17..19], 0), Atoi(str[20..23], 0);
    return Some(TimeClip(MakeDate(MakeDay(year, month, date), MakeTime(hour, min, sec, msec))));
  }

  method DateParseUtc(str: string) returns (r: Option<int>)
    ensures r == ParseUtc(str)
  {
    var ok := VerifyFormat(str, UTC_FORMAT);
    if !ok { return None; }
    var date, year := Atoi(str[5..7], 0), Atoi(str[12..16], 0);
    var hour, min, sec := Atoi(str[17..19], 0), Atoi(str[20..22], 0), Atoi(str[23..25], 0);
    var month := FindMonth(str[8..11]);
    if month == 12 { return None; }
    return Some(TimeClip(MakeDate(MakeDay(year, month, date), MakeTime(hour, min, sec, 0))));
  }

  // ---- what the conversions print ----

  lemma DigitFacts(d: int)
    requires 0 <= d <= 9
    ensures IsDigit(DigitChar(d)) && DigitValue(DigitChar(d)) == d
  {
  }

  function Two(n: int): (s: string)
    requires 0 <= n < 100
    ensures |s| == 2
  {
    [DigitChar(n / 10), DigitChar(n % 10)]
  }

  function Three(n: int): (s: string)
    requires 0 <= n < 1000
    ensures |s| == 3
  {
    [DigitChar(n / 100)] + Two(n % 100)
  }

  function Four(n: int): (s: string)
    requires 0 <= n < 10000
    ensures |s| == 4
  {
    Two(n / 100) + Two(n % 100)
  }

  ghost predicate AllDigits(s: string) {
    forall i :: 0 <= i < |s| ==> IsDigit(s[i])
  }

  lemma DigitsStep(n: nat)
    ensures n < 10 ==> Digits(n) == [DigitChar(n)]
    ensures n >= 10 ==> Digits(n) == Digits(n / 10) + [DigitChar(n % 10)]
  {
  }

  lemma ZeroPads(s: string)
    ensures |s| == 1 ==> ZeroPad(s, 2) == "0" + s && ZeroPad(s, 3) == "00" + s
    ensures |s| == 2 ==> ZeroPad(s, 2) == s && ZeroPad(s, 3) == "0" + s
    ensures |s| == 3 ==> ZeroPad(s, 3) == s
  {
    assert Zeros(0) == "" && Zeros(1) == "0" + Zeros(0) && Zeros(2) == "0" + Zeros(1);
    assert Zeros(2) == "00";
  }

  lemma ZeroChar()
    ensures DigitChar(0) == '0'
  {
  }

  /** One to four digits, printed. */
  lemma SmallDigits(n: nat)
    requires n < 10000
    ensures n < 10 ==> Digits(n) == [DigitChar(n)]
    ensures 10 <= n < 100 ==> Digits(n) == Two(n)
    ensures 100 <= n < 1000 ==> Digits(n) == Three(n)
    ensures n >= 1000 ==> Digits(n) == Four(n)
  {
    hide Digits, DigitChar;
    DigitsStep(n);
    if n >= 10 {
      DigitsStep(n / 10);
    }
    if n >= 100 {
      assert n / 10 / 10 == n / 100 && n / 10 % 10 == n % 100 / 10 && n % 10 == n % 100 % 10;
      DigitsStep(n / 100);
    }
    if n >= 1000 {
      assert n / 100 / 10 == n / 1000;
      DigitsStep(n / 1000);
    }
  }

  lemma PaddedTwo(n: int)
    requires 0 <= n < 100
    ensures Padded(n, 2) == Two(n)
  {
    hide Digits, DigitChar, ZeroPad;
    SmallDigits(n);
    ZeroPads(Digits(n));
    ZeroChar();
  }

  lemma PaddedThree(n: int)
    requires 0 <= n < 1000
    ensures Padded(n, 3) == Three(n)
  {
    hide Digits, DigitChar, ZeroPad;
    SmallDigits(n);
    ZeroPads(Digits(n));
    ZeroChar();
  }

  lemma FormatFour(n: int)
    requires 1000 <= n <= 9999
    ensures FormatInt(n) == Four(n)
  {
    hide Digits;
    SmallDigits(n);
  }

  lemma {:induction false} DigitsGrow(n: nat)
    requires n >= 10000
    ensures |Digits(n)| > 4
  {
    hide Digits, DigitChar;
    DigitsStep(n);
    if n >= 100000 {
      DigitsGrow(n / 10);
    } else {
      SmallDigits(n / 10);
    }
  }

  /** A year prints as four digits exactly when it lies between 1000 and 9999. */
  lemma YearText(y: int)
    ensures 1000 <= y <= 9999 ==> |FormatInt(y)| == 4
    ensures y >= 10000 ==> |FormatInt(y)| > 4
    ensures 0 <= y < 1000 ==> |FormatInt(y)| < 4
    ensures y < 0 ==> FormatInt(y)[0] == '-'
  {
    hide Digits;
    if y >= 10000 {
      DigitsGrow(y);
    } else if y >= 0 {
      SmallDigits(y);
    }
  }

  lemma AtoiTwo(n: int)
    requires 0 <= n < 100
    ensures Atoi(Two(n), 0) == n && AllDigits(Two(n))
  {
    DigitFacts(n / 10);
    DigitFacts(n % 10);
    var s := Two(n);
    assert s[1..] == [DigitChar(n % 10)] && s[1..][1..] == "";
    assert Atoi(s[1..], n / 10) == Atoi(s[1..][1..], 10 * (n / 10) + n % 10);
  }

  lemma {:induction false} AtoiConcat(s: string, t: string, acc: int)
    requires AllDigits(s)
    ensures Atoi(s + t, acc) == Atoi(t, Atoi(s, acc))
  {
    if s == "" {
      assert s + t == t;
    } else {
      assert (s + t)[1..] == s[1..] + t;
      AtoiConcat(s[1..], t, 10 * acc + DigitValue(s[0]));
    }
  }

  lemma AtoiTwoAfter(n: int, acc: int)
    requires 0 <= n < 100
    ensures Atoi(Two(n), acc) == 100 * acc + n
  {
    DigitFacts(n / 10);
    DigitFacts(n % 10);
    var s := Two(n);
    assert s[1..] == [DigitChar(n % 10)] && s[1..][1..] == "";
    assert Atoi(s[1..], 10 * acc + n / 10) == Atoi(s[1..][1..], 10 * (10 * acc + n / 10) + n % 10);
  }

  lemma AtoiThree(n: int)
    requires 0 <= n < 1000
    ensures Atoi(Three(n), 0) == n && AllDigits(Three(n))
  {
    DigitFacts(n / 100);
    AtoiTwo(n % 100);
    AtoiTwoAfter(n % 100, n / 100);
    assert Three(n)[1..] == Two(n % 100);
  }

  lemma AtoiFour(n: int)
    requires 0 <= n < 10000
    ensures Atoi(Four(n), 0) == n && AllDigits(Four(n))
  {
    AtoiTwo(n / 100);
    AtoiTwo(n % 100);
    AtoiConcat(Two(n / 100), Two(n % 100), 0);
    AtoiTwoAfter(n % 100, n / 100);
  }

  // ---- round trips ----

  /** Seven digit fields joined as in the ISO form are cut out again where the parser looks. */
  lemma IsoFields(y: string, m: string, d: string, h: string, mn: string, s: string, ms: string)
    requires |y| == 4 && |m| == |d| == |h| == |mn| == |s| == 2 && |ms| == 3
    requires AllDigits(y) && AllDigits(m) && AllDigits(d) && AllDigits(h) && AllDigits(mn) && AllDigits(s) && AllDigits(ms)
    ensures var str := y + "-" + m + "-" + d + "T" + h + ":" + mn + ":" + s + "." + ms + "Z";
      && Matches(str, ISO_FORMAT)
      && str[0..4] == y && str[5..7] == m && str[8..10] == d
      && str[11..13] == h && str[14..16] == mn && str[17..19] == s && str[20..23] == ms
  {
    var str := y + "-" + m + "-" + d + "T" + h + ":" + mn + ":" + s + "." + ms + "Z";
    assert |str| == 24;
  }

  ghost predicate UtcSizes(w: string, d: string, m: string, y: string, h: string, mn: string, s: string) {
    |y| == 4 && |d| == |h| == |mn| == |s| == 2 && |w| == |m| == 3
  }

  lemma UtcFieldsCut(w: string, d: string, m: string, y: string, h: string, mn: string, s: string)
    requires UtcSizes(w, d, m, y, h, mn, s)
    ensures var str := JoinUtc(w, d, m, y, h, mn, s);
      && |str| == 29
      && str[0..3] == w && str[5..7] == d && str[8..11] == m && str[12..16] == y
      && str[17..19] == h && str[20..22] == mn && str[23..25] == s
  {
  }

  lemma MatchesConcat(s: string, t: string, f: string, g: string)
    requires Matches(s, f) && Matches(t, g)
    ensures Matches(s + t, f + g)
  {
  }

  lemma FieldMatches(s: string)
    ensures |s| == 2 && AllDigits(s) ==> Matches(s, "dd")
    ensures |s| == 4 && AllDigits(s) ==> Matches(s, "dddd")
    ensures |s| == 3 && (forall i :: 0 <= i < 3 ==> IsAlpha(s[i])) ==> Matches(s, "aaa")
  {
  }

  lemma PunctuationMatches()
    ensures Matches(", ", ", ") && Matches(" ", " ") && Matches(":", ":") && Matches(" GMT", " GMT")
  {
  }

  lemma UtcFormatParts()
    ensures UTC_FORMAT == "aaa" + ", " + "dd" + " " + "aaa" + " " + "dddd" + " " + "dd" + ":" + "dd" + ":" + "dd" + " GMT"
  {
  }

  lemma UtcFieldsMatch(w: string, d: string, m: string, y: string, h: string, mn: string, s: string)
    requires UtcSizes(w, d, m, y, h, mn, s)
    requires AllDigits(y) && AllDigits(d) && AllDigits(h) && AllDigits(mn) && AllDigits(s)
    requires forall i :: 0 <= i < 3 ==> IsAlpha(w[i]) && IsAlpha(m[i])
    ensures Matches(JoinUtc(w, d, m, y, h, mn, s), UTC_FORMAT)
  {
    hide Matches, AllDigits, IsAlpha;
    FieldMatches(w);
    FieldMatches(d);
    FieldMatches(m);
    FieldMatches(y);
    FieldMatches(h);
    FieldMatches(mn);
    FieldMatches(s);
    PunctuationMatches();
    UtcFormatParts();
    var s0, f0 := w + ", " + d + " " + m + " " + y + " ", "aaa" + ", " + "dd" + " " + "aaa" + " " + "dddd" + " ";
    MatchesConcat(w, ", ", "aaa", ", ");
    MatchesConcat(w + ", ", d, "aaa" + ", ", "dd");
    MatchesConcat(w + ", " + d, " ", "aaa" + ", " + "dd", " ");
    MatchesConcat(w + ", " + d + " ", m, "aaa" + ", " + "dd" + " ", "aaa");
    MatchesConcat(w + ", " + d + " " + m, " ", "aaa" + ", " + "dd" + " " + "aaa", " ");
    MatchesConcat(w + ", " + d + " " + m + " ", y, "aaa" + ", " + "dd" + " " + "aaa" + " ", "dddd");
    MatchesConcat(w + ", " + d + " " + m + " " + y, " ", "aaa" + ", " + "dd" + " " + "aaa" + " " + "dddd", " ");
    MatchesConcat(s0, h, f0, "dd");
    MatchesConcat(s0 + h, ":", f0 + "dd", ":");
    MatchesConcat(s0 + h + ":", mn, f0 + "dd" + ":", "dd");
    MatchesConcat(s0 + h + ":" + mn, ":", f0 + "dd" + ":" + "dd", ":");
    MatchesConcat(s0 + h + ":" + mn + ":", s, f0 + "dd" + ":" + "dd" + ":", "dd");
    MatchesConcat(s0 + h + ":" + mn + ":" + s, " GMT", f0 + "dd" + ":" + "dd" + ":" + "dd", " GMT");
  }

  lemma NearEnough(t: int)
    requires 1000 <= Year(t) <= 9999
    ensures -8640000000000000 < t < 8640000000000000
  {
    assert InYear(t, Year(t));
    var y := Year(t);
    hide Year;
    if y > 1000 { DayFromYearMonotone(1000, y); }
    if y < 9999 { DayFromYearMonotone(y + 1, 10000); }
  }

  /** The texts of the fields of a time value, as printed. */
  lemma FieldTexts(t: int)
    ensures Padded(MonthFromTime(t) + 1, 2) == Two(MonthFromTime(t) + 1) && Atoi(Two(MonthFromTime(t) + 1), 0) == MonthFromTime(t) + 1
    ensures 0 <= DateFromTime(t) < 100 && Padded(DateFromTime(t), 2) == Two(DateFromTime(t)) && Atoi(Two(DateFromTime(t)), 0) == DateFromTime(t)
    ensures Padded(HourFromTime(t), 2) == Two(HourFromTime(t)) && Atoi(Two(HourFromTime(t)), 0) == HourFromTime(t)
    ensures Padded(MinFromTime(t), 2) == Two(MinFromTime(t)) && Atoi(Two(MinFromTime(t)), 0) == MinFromTime(t)
    ensures Padded(SecFromTime(t), 2) == Two(SecFromTime(t)) && Atoi(Two(SecFromTime(t)), 0) == SecFromTime(t)
    ensures Padded(MsFromTime(t), 3) == Three(MsFromTime(t)) && Atoi(Three(MsFromTime(t)), 0) == MsFromTime(t)
    ensures AllDigits(Two(MonthFromTime(t) + 1)) && AllDigits(Two(DateFromTime(t))) && AllDigits(Two(HourFromTime(t)))
    ensures AllDigits(Two(MinFromTime(t))) && AllDigits(Two(SecFromTime(t))) && AllDigits(Three(MsFromTime(t)))
    ensures Civil(Year(t), MonthFromTime(t), DateFromTime(t), HourFromTime(t), MinFromTime(t), SecFromTime(t), MsFromTime(t))
  {
    hide Year, MonthFromTime, DateFromTime, HourFromTime, MinFromTime, SecFromTime, MsFromTime, Padded, Atoi, AllDigits, Two, Three, LeapYear;
    FieldsAreCivil(t);
    PaddedTwo(MonthFromTime(t) + 1);
    PaddedTwo(DateFromTime(t));
    PaddedTwo(HourFromTime(t));
    PaddedTwo(MinFromTime(t));
    PaddedTwo(SecFromTime(t));
    PaddedThree(MsFromTime(t));
    AtoiTwo(MonthFromTime(t) + 1);
    AtoiTwo(DateFromTime(t));
    AtoiTwo(HourFromTime(t));
    AtoiTwo(MinFromTime(t));
    AtoiTwo(SecFromTime(t));
    AtoiThree(MsFromTime(t));
  }

  lemma YearDigits(t: int)
    requires 1000 <= Year(t) <= 9999
    ensures FormatInt(Year(t)) == Four(Year(t)) && Atoi(Four(Year(t)), 0) == Year(t) && AllDigits(Four(Year(t)))
  {
    FormatFour(Year(t));
    AtoiFour(Year(t));
  }

  lemma ClipKeeps(t: int)
    requires -8640000000000000 < t < 8640000000000000
    ensures TimeClip(t) == t
  {
  }

  lemma IsoText(t: int)
    requires 1000 <= Year(t) <= 9999
    ensures ParseIso(FormatIso(t)) == Some(t)
  {
    hide Year, MonthFromTime, DateFromTime, HourFromTime, MinFromTime, SecFromTime, MsFromTime, Padded, Atoi, AllDigits,
      Two, Three, Four, FormatInt, Matches, MakeDate, MakeDay, MakeTime, TimeClip, Civil;
    FieldTexts(t);
    YearDigits(t);
    CivilRanges(t);
    IsoFields(Four(Year(t)), Two(MonthFromTime(t) + 1), Two(DateFromTime(t)), Two(HourFromTime(t)),
              Two(MinFromTime(t)), Two(SecFromTime(t)), Three(MsFromTime(t)));
    Recompose(t);
    NearEnough(t);
    ClipKeeps(t);
  }

  lemma CivilRanges(t: int)
    ensures 0 <= MonthFromTime(t) <= 11 && 0 <= DateFromTime(t) < 100
    ensures 0 <= HourFromTime(t) < 24 && 0 <= MinFromTime(t) < 60 && 0 <= SecFromTime(t) < 60 && 0 <= MsFromTime(t) < 1000
  {
    hide Year, MonthFromTime, DateFromTime, HourFromTime, MinFromTime, SecFromTime, MsFromTime, LeapYear;
    FieldsAreCivil(t);
  }

  /** Parsing the ISO text of a time value gives the value back if and only if its year has four digits. */
  lemma IsoRoundTripIff(t: int)
    ensures ParseIso(FormatIso(t)) == Some(t) <==> 1000 <= Year(t) <= 9999
    ensures !(1000 <= Year(t) <= 9999) ==> ParseIso(FormatIso(t)) == None
  {
    hide Year, MonthFromTime, DateFromTime, HourFromTime, MinFromTime, SecFromTime, MsFromTime, Padded, Atoi,
      Two, Three, Four, FormatInt, MakeDate, MakeDay, MakeTime, TimeClip, Civil, AllDigits;
    if 1000 <= Year(t) <= 9999 {
      IsoText(t);
    } else {
      YearText(Year(t));
      FieldTexts(t);
      CivilRanges(t);
      var str := FormatIso(t);
      assert |str| == |FormatInt(Year(t))| + 20;
      if Year(t) < 0 {
        assert str[0] == FormatInt(Year(t))[0] == '-';
        assert ISO_FORMAT[0] == 'd';
      }
      assert !Matches(str, ISO_FORMAT);
    }
  }

  lemma MonthNames(m: int)
    requires 0 <= m <= 11
    ensures MonthIndex(MonthString(m), 0) == m
    ensures forall i :: 0 <= i < 3 ==> IsAlpha(MonthString(m)[i])
  {
    FirstSuchMonth(m, 0);
  }

  lemma {:induction false} FirstSuchMonth(m: int, from: nat)
    requires 0 <= from <= m <= 11
    ensures MonthIndex(MonthString(m), from) == m
    decreases m - from
  {
    if from < m {
      MonthNamesDiffer(from, m);
      FirstSuchMonth(m, from + 1);
    }
  }

  lemma MonthNamesDiffer(i: int, j: int)
    requires 0 <= i < j <= 11
    ensures MonthString(i) != MonthString(j)
  {
    var s, t := MonthString(i), MonthString(j);
    assert s[0] != t[0] || s[1] != t[1] || s[2] != t[2];
  }

  lemma DayNames(d: int)
    ensures forall i :: 0 <= i < 3 ==> IsAlpha(DayString(d)[i])
  {
  }

  lemma WithoutMs(h: int, m: int, s: int, ms: int, day: int)
    ensures MakeDate(day, MakeTime(h, m, s, 0)) == MakeDate(day, MakeTime(h, m, s, ms)) - ms
  {
  }

  lemma UtcText(t: int)
    requires 1000 <= Year(t) <= 9999
    ensures ParseUtc(FormatUtc(t)) == Some(t - MsFromTime(t))
    ensures |FormatUtc(t)| == 29
  {
    hide Year, MonthFromTime, DateFromTime, HourFromTime, MinFromTime, SecFromTime, MsFromTime, Padded, Atoi, AllDigits,
      Two, Three, Four, FormatInt, Matches, MakeDate, MakeDay, MakeTime, TimeClip, Civil, MonthString, DayString, WeekDay, MonthIndex;
    FieldTexts(t);
    YearDigits(t);
    CivilRanges(t);
    MonthNames(MonthFromTime(t));
    DayNames(WeekDay(t));
    UtcFieldsCut(DayString(WeekDay(t)), Two(DateFromTime(t)), MonthString(MonthFromTime(t)), Four(Year(t)),
                 Two(HourFromTime(t)), Two(MinFromTime(t)), Two(SecFromTime(t)));
    UtcFieldsMatch(DayString(WeekDay(t)), Two(DateFromTime(t)), MonthString(MonthFromTime(t)), Four(Year(t)),
                   Two(HourFromTime(t)), Two(MinFromTime(t)), Two(SecFromTime(t)));
    Recompose(t);
    WithoutMs(HourFromTime(t), MinFromTime(t), SecFromTime(t), MsFromTime(t), MakeDay(Year(t), MonthFromTime(t), DateFromTime(t)));
    NearEnough(t);
    ClipSeconds(t);
  }

  /** Parsing the UTC text of a time value gives it back, rounded down to the second, if and only if its
      year has four digits. */
  lemma UtcRoundTripIff(t: int)
    ensures ParseUtc(FormatUtc(t)) == Some(t - MsFromTime(t)) <==> 1000 <= Year(t) <= 9999
    ensures !(1000 <= Year(t) <= 9999) ==> ParseUtc(FormatUtc(t)) == None
  {
    hide Year, MonthFromTime, DateFromTime, HourFromTime, MinFromTime, SecFromTime, MsFromTime, Padded, Atoi,
      Two, Three, Four, FormatInt, MakeDate, MakeDay, MakeTime, TimeClip, Civil, AllDigits, MonthString, DayString, WeekDay, MonthIndex;
    if 1000 <= Year(t) <= 9999 {
      UtcText(t);
    } else {
      YearText(Year(t));
      FieldTexts(t);
      CivilRanges(t);
      var str := FormatUtc(t);
      assert |str| == |FormatInt(Year(t))| + 25;
      if Year(t) < 0 {
        assert str[12] == FormatInt(Year(t))[0] == '-';
        assert UTC_FORMAT[12] == 'd';
      }
      assert !Matches(str, UTC_FORMAT);
    }
  }

  lemma ClipSeconds(t: int)
    requires 1000 <= Year(t) <= 9999
    ensures TimeClip(t - MsFromTime(t)) == t - MsFromTime(t)
  {
    hide Year, MsFromTime;
    CivilRanges(t);
    assert InYear(t, Year(t));
    var y := Year(t);
    if y > 1000 { DayFromYearMonotone(1000, y); }
    if y < 9999 { DayFromYearMonotone(y + 1, 10000); }
  }

  /** The first instant of the year 999 prints as texts that neither parser accepts. */
  lemma ShortYear()
    ensures ParseIso(FormatIso(TimeFromYear(999))) == None && ParseUtc(FormatUtc(TimeFromYear(999))) == None
  {
    hide *;
    YearOfStart(999);
    IsoRoundTripIff(TimeFromYear(999));
    UtcRoundTripIff(TimeFromYear(999));
  }

  lemma WeekDayIs(t: int)
    ensures WeekDay(t) == (Day(t) + 4) % 7
  {
    FModIsModulo(Day(t) + 4, 7);
  }

  lemma NextDay(t: int)
    ensures Day(t + MS_PER_DAY) == Day(t) + 1
  {
  }

  lemma NextRemainder(d: int)
    ensures (d + 1) % 7 == (d % 7 + 1) % 7
  {
  }

  /** Days of the week follow one another, from Thursday, 1 January 1970 (section 15.9.1.6). */
  lemma WeekDays(t: int)
    ensures 0 <= WeekDay(t) < 7
    ensures WeekDay(t + MS_PER_DAY) == (WeekDay(t) + 1) % 7
    ensures 0 <= t < MS_PER_DAY ==> DayString(WeekDay(t)) == "Thu"
  {
    hide WeekDay;
    WeekDayIs(t);
    WeekDayIs(t + MS_PER_DAY);
    NextDay(t);
    NextRemainder(Day(t) + 4);
  }

  /** A text that neither parser accepts goes to the one for local times. */
  lemma ParseStrLast(str: string, parseLoc: string -> Option<int>)
    requires !Matches(str, ISO_FORMAT) && !Matches(str, UTC_FORMAT)
    ensures ParseStr(str, parseLoc) == parseLoc(str)
  {
  }

  /** Through date_parse_str's ordered attempts: an ISO text gives its time back, a UTC text gives it
      rounded down to the second, whatever the parser of local times would do. */
  lemma ParseStrRoundTrips(t: int, parseLoc: string -> Option<int>)
    requires 1000 <= Year(t) <= 9999
    ensures ParseStr(FormatIso(t), parseLoc) == Some(t)
    ensures ParseStr(FormatUtc(t), parseLoc) == Some(t - MsFromTime(t))
  {
    hide Year, MsFromTime, FormatIso, FormatUtc, ParseUtc, MakeDate, MakeDay, MakeTime, TimeClip, Atoi;
    IsoText(t);
    UtcText(t);
    assert ParseIso(FormatUtc(t)) == None by {
      assert |FormatUtc(t)| != |ISO_FORMAT|;
    }
  }

  // ---- parsing and printing again ----

  lemma DigitBack(c: char)
    requires IsDigit(c)
    ensures 0 <= DigitValue(c) <= 9 && DigitChar(DigitValue(c)) == c
  {
  }

  lemma AtoiStep(c: char, s: string, acc: int)
    requires IsDigit(c)
    ensures Atoi([c] + s, acc) == Atoi(s, 10 * acc + DigitValue(c))
  {
    assert ([c] + s)[1..] == s;
  }

  lemma Digit(x: int, y: int, b: int)
    requires b > 0 && 0 <= y < b
    ensures (b * x + y) / b == x && (b * x + y) % b == y
  {
    DivModUnique(b * x + y, b, x, y);
  }

  /** Two digits print again as they were read. */
  lemma TwoBack(s: string, acc: nat)
    requires |s| == 2 && AllDigits(s)
    ensures 0 <= Atoi(s, 0) < 100 && Two(Atoi(s, 0)) == s && Atoi(s, acc) == 100 * acc + Atoi(s, 0)
  {
    hide *;
    var c, t := s[0], s[1..];
    DigitParts(s, 1);
    DigitParts(t, 1);
    var x, y := DigitValue(c), DigitValue(t[0]);
    DigitBack(c);
    DigitBack(t[0]);
    assert t == [t[0]] + "";
    AtoiStep(c, t, acc);
    AtoiStep(t[0], "", 10 * acc + x);
    AtoiNone(10 * (10 * acc + x) + y);
    AtoiStep(c, t, 0);
    AtoiStep(t[0], "", 10 * 0 + x);
    AtoiNone(10 * (10 * 0 + x) + y);
    TwoOf(x, y);
  }

  lemma TwoOf(x: int, y: int)
    requires 0 <= x < 10 && 0 <= y < 10
    ensures Two(10 * x + y) == [DigitChar(x)] + [DigitChar(y)]
  {
    hide DigitChar;
    Digit(x, y, 10);
  }

  lemma AtoiNone(acc: int)
    ensures Atoi("", acc) == acc
  {
  }

  lemma ThreeOf(x: int, y: int)
    requires 0 <= x < 10 && 0 <= y < 100
    ensures Three(100 * x + y) == [DigitChar(x)] + Two(y)
  {
    hide Two, DigitChar;
    Digit(x, y, 100);
  }

  lemma FourOf(x: int, y: int)
    requires 0 <= x < 100 && 0 <= y < 100
    ensures Four(100 * x + y) == Two(x) + Two(y)
  {
    hide Two;
    Digit(x, y, 100);
  }

  lemma DigitParts(s: string, i: nat)
    requires 0 < i <= |s| && AllDigits(s)
    ensures s == s[..i] + s[i..] && AllDigits(s[..i]) && AllDigits(s[i..])
    ensures IsDigit(s[0]) && (i == 1 ==> s[..i] == [s[0]])
  {
  }

  lemma ThreeBack(s: string)
    requires |s| == 3 && AllDigits(s)
    ensures 0 <= Atoi(s, 0) < 1000 && Three(Atoi(s, 0)) == s
  {
    hide *;
    var c, t := s[0], s[1..];
    DigitParts(s, 1);
    DigitBack(c);
    TwoBack(t, DigitValue(c));
    AtoiStep(c, t, 0);
    ThreeOf(DigitValue(c), Atoi(t, 0));
    assert 10 * 0 + DigitValue(c) == DigitValue(c);
  }

  lemma FourBack(s: string)
    requires |s| == 4 && AllDigits(s)
    ensures 0 <= Atoi(s, 0) < 10000 && Four(Atoi(s, 0)) == s
  {
    hide *;
    var a, b := s[..2], s[2..];
    DigitParts(s, 2);
    TwoBack(a, 0);
    TwoBack(b, Atoi(a, 0));
    AtoiConcat(a, b, 0);
    FourOf(Atoi(a, 0), Atoi(b, 0));
  }

  /** Year, month, date, hour, minute, second and millisecond that date_parse_iso reads. */
  function IsoNumbers(s: string): (p: seq<int>)
    requires |s| == 24
    ensures |p| == 7
  {
    [Atoi(s[0..4], 0), Atoi(s[5..7], 0) - 1, Atoi(s[8..10], 0),
     Atoi(s[11..13], 0), Atoi(s[14..16], 0), Atoi(s[17..19], 0), Atoi(s[20..23], 0)]
  }

  function UtcNumbers(s: string): (p: seq<int>)
    requires |s| == 29
    ensures |p| == 7
  {
    [Atoi(s[12..16], 0), MonthIndex(s[8..11], 0), Atoi(s[5..7], 0),
     Atoi(s[17..19], 0), Atoi(s[20..22], 0), Atoi(s[23..25], 0), 0]
  }

  ghost predicate CivilNumbers(p: seq<int>)
    requires |p| == 7
  {
    Civil(p[0], p[1], p[2], p[3], p[4], p[5], p[6])
  }

  function TimeOf(p: seq<int>): int
    requires |p| == 7
  {
    MakeDate(MakeDay(p[0], p[1], p[2]), MakeTime(p[3], p[4], p[5], p[6]))
  }

  lemma IsoDigits(s: string)
    requires Matches(s, ISO_FORMAT)
    ensures |s| == 24
    ensures AllDigits(s[0..4]) && AllDigits(s[5..7]) && AllDigits(s[8..10])
    ensures AllDigits(s[11..13]) && AllDigits(s[14..16]) && AllDigits(s[17..19]) && AllDigits(s[20..23])
  {
    var f := ISO_FORMAT;
    hide Matches, AllDigits;
    MatchedLength(s, f);
    DigitsAt(s, f, 0);
    DigitsAt(s, f, 5);
    DigitsAt(s, f, 8);
    DigitsAt(s, f, 11);
    DigitsAt(s, f, 14);
    DigitsAt(s, f, 17);
    DigitsAt(s, f, 20);
  }

  /** An accepted ISO text is its punctuation and seven fields. */
  lemma IsoCut(s: string)
    requires Matches(s, ISO_FORMAT)
    ensures |s| == 24
    ensures s == s[0..4] + "-" + s[5..7] + "-" + s[8..10] + "T" + s[11..13] + ":" + s[14..16] + ":" + s[17..19]
                 + "." + s[20..23] + "Z"
  {
    hide Matches;
    IsoPunctuation(s);
    CutAt(s, 4, 7);
    CutAt(s, 7, 10);
    CutAt(s, 10, 13);
    CutAt(s, 13, 16);
    CutAt(s, 16, 19);
    CutAt(s, 19, 23);
    CutAt(s, 23, 24);
    assert s[..4] == s[0..4] && s[..24] == s && s[24..24] == "";
  }

  lemma IsoPunctuation(s: string)
    requires Matches(s, ISO_FORMAT)
    ensures |s| == 24 && s[4] == '-' && s[7] == '-' && s[10] == 'T' && s[13] == ':' && s[16] == ':' && s[19] == '.'
    ensures s[23] == 'Z'
  {
    var f := ISO_FORMAT;
    hide Matches;
    LiteralAt(s, f, 4);
    LiteralAt(s, f, 7);
    LiteralAt(s, f, 10);
    LiteralAt(s, f, 13);
    LiteralAt(s, f, 16);
    LiteralAt(s, f, 19);
    LiteralAt(s, f, 23);
  }

  /** The text up to `j`, cut behind the character at `i`. */
  lemma CutAt(s: string, i: nat, j: nat)
    requires i < j <= |s|
    ensures s[..j] == s[..i] + [s[i]] + s[i + 1..j]
  {
  }

  lemma DigitsAt(s: string, f: string, i: nat)
    requires Matches(s, f)
    ensures |s| == |f|
    ensures i + 2 <= |f| && f[i] == 'd' && f[i + 1] == 'd' ==> AllDigits(s[i..i + 2])
    ensures i + 3 <= |f| && f[i] == 'd' && f[i + 1] == 'd' && f[i + 2] == 'd' ==> AllDigits(s[i..i + 3])
    ensures i + 4 <= |f| && f[i] == 'd' && f[i + 1] == 'd' && f[i + 2] == 'd' && f[i + 3] == 'd' ==> AllDigits(s[i..i + 4])
  {
  }

  lemma LiteralAt(s: string, f: string, i: nat)
    requires Matches(s, f) && i < |f| && f[i] != 'a' && f[i] != 'd' && f[i] != '?'
    ensures |s| == |f| && s[i] == f[i]
  {
  }

  lemma IsoPrinted(t: int, y: int, m: int, d: int, h: int, mn: int, s: int, ms: int)
    requires 1000 <= y <= 9999 && 0 <= m < 12 && 0 <= d < 100 && 0 <= h < 24 && 0 <= mn < 60 && 0 <= s < 60 && 0 <= ms < 1000
    requires Year(t) == y && MonthFromTime(t) == m && DateFromTime(t) == d
    requires HourFromTime(t) == h && MinFromTime(t) == mn && SecFromTime(t) == s && MsFromTime(t) == ms
    ensures FormatIso(t) == Four(y) + "-" + Two(m + 1) + "-" + Two(d) + "T" + Two(h) + ":" + Two(mn) + ":" + Two(s)
      + "." + Three(ms) + "Z"
  {
    hide Year, MonthFromTime, DateFromTime, HourFromTime, MinFromTime, SecFromTime, MsFromTime, Padded, FormatInt,
      Two, Three, Four;
    FormatFour(y);
    PaddedTwo(m + 1);
    PaddedTwo(d);
    PaddedTwo(h);
    PaddedTwo(mn);
    PaddedTwo(s);
    PaddedThree(ms);
  }

  lemma IsoReprints(s: string)
    requires Matches(s, ISO_FORMAT) && |s| == 24 && CivilNumbers(IsoNumbers(s)) && IsoNumbers(s)[0] >= 1000
    ensures ParseIso(s).Some? && FormatIso(ParseIso(s).value) == s
  {
    hide Year, MonthFromTime, DateFromTime, HourFromTime, MinFromTime, SecFromTime, MsFromTime, Atoi, AllDigits,
      Two, Three, Four, Matches, MakeDate, MakeDay, MakeTime, TimeClip, Civil, FormatIso;
    IsoCut(s);
    IsoDigits(s);
    FourBack(s[0..4]);
    TwoBack(s[5..7], 0);
    TwoBack(s[8..10], 0);
    TwoBack(s[11..13], 0);
    TwoBack(s[14..16], 0);
    TwoBack(s[17..19], 0);
    ThreeBack(s[20..23]);
    var p := IsoNumbers(s);
    var t := TimeOf(p);
    Decompose(p[0], p[1], p[2], p[3], p[4], p[5], p[6]);
    NearEnough(t);
    ClipKeeps(t);
    CivilRanges(t);
    IsoPrinted(t, p[0], p[1], p[2], p[3], p[4], p[5], p[6]);
  }

  lemma IsoReprinted(t: int)
    requires 1000 <= Year(t) <= 9999
    ensures |FormatIso(t)| == 24 && CivilNumbers(IsoNumbers(FormatIso(t))) && IsoNumbers(FormatIso(t))[0] >= 1000
  {
    hide Year, MonthFromTime, DateFromTime, HourFromTime, MinFromTime, SecFromTime, MsFromTime, Atoi, AllDigits,
      Two, Three, Four, Matches, MakeDate, MakeDay, MakeTime, TimeClip, Civil, FormatIso, ParseIso, FormatInt, Padded;
    CivilRanges(t);
    FieldTexts(t);
    YearDigits(t);
    IsoPrinted(t, Year(t), MonthFromTime(t), DateFromTime(t), HourFromTime(t), MinFromTime(t), SecFromTime(t), MsFromTime(t));
    IsoFields(Four(Year(t)), Two(MonthFromTime(t) + 1), Two(DateFromTime(t)), Two(HourFromTime(t)),
              Two(MinFromTime(t)), Two(SecFromTime(t)), Three(MsFromTime(t)));
    MatchedLength(FormatIso(t), ISO_FORMAT);
  }

  lemma MatchedLength(s: string, f: string)
    requires Matches(s, f)
    ensures |s| == |f|
  {
  }

  /** An accepted ISO text prints again as it was if and only if its fields name an existing date and time
      and its year is at least 1000. */
  lemma IsoReprintsIff(s: string)
    requires Matches(s, ISO_FORMAT)
    ensures |s| == 24 && ParseIso(s).Some?
    ensures FormatIso(ParseIso(s).value) == s <==> CivilNumbers(IsoNumbers(s)) && IsoNumbers(s)[0] >= 1000
  {
    MatchedLength(s, ISO_FORMAT);
    hide FormatIso, CivilNumbers, Matches, IsoNumbers, Atoi, MakeDate, MakeDay, MakeTime, TimeClip;
    if CivilNumbers(IsoNumbers(s)) && IsoNumbers(s)[0] >= 1000 {
      IsoReprints(s);
    }
    if FormatIso(ParseIso(s).value) == s {
      IsoRoundTripIff(ParseIso(s).value);
      IsoReprinted(ParseIso(s).value);
    }
  }

  lemma {:induction false} MonthBack(name: string, from: nat)
    requires MonthIndex(name, from) < 12
    ensures MonthString(MonthIndex(name, from)) == name
    decreases 12 - from
  {
    if from < 12 && MonthString(from) != name {
      MonthBack(name, from + 1);
    }
  }

  lemma UtcDigits(s: string)
    requires Matches(s, UTC_FORMAT)
    ensures |s| == 29
    ensures AllDigits(s[5..7]) && AllDigits(s[12..16]) && AllDigits(s[17..19]) && AllDigits(s[20..22]) && AllDigits(s[23..25])
  {
    var f := UTC_FORMAT;
    hide Matches, AllDigits;
    MatchedLength(s, f);
    DigitsAt(s, f, 5);
    DigitsAt(s, f, 12);
    DigitsAt(s, f, 17);
    DigitsAt(s, f, 20);
    DigitsAt(s, f, 23);
  }

  lemma UtcPunctuation(s: string)
    requires Matches(s, UTC_FORMAT)
    ensures |s| == 29 && s[3] == ',' && s[4] == ' ' && s[7] == ' ' && s[11] == ' ' && s[16] == ' ' && s[19] == ':' && s[22] == ':'
    ensures s[25] == ' ' && s[26] == 'G' && s[27] == 'M' && s[28] == 'T'
  {
    var f := UTC_FORMAT;
    hide Matches;
    LiteralAt(s, f, 3);
    LiteralAt(s, f, 4);
    LiteralAt(s, f, 7);
    LiteralAt(s, f, 11);
    LiteralAt(s, f, 16);
    LiteralAt(s, f, 19);
    LiteralAt(s, f, 22);
    LiteralAt(s, f, 25);
    LiteralAt(s, f, 26);
    LiteralAt(s, f, 27);
    LiteralAt(s, f, 28);
  }

  /** An accepted UTC text is its punctuation and seven fields. */
  lemma UtcCut(s: string)
    requires Matches(s, UTC_FORMAT)
    ensures |s| == 29
    ensures s == JoinUtc(s[0..3], s[5..7], s[8..11], s[12..16], s[17..19], s[20..22], s[23..25])
  {
    hide Matches;
    UtcPunctuation(s);
    CutAt(s, 4, 7);
    CutAt(s, 7, 11);
    CutAt(s, 11, 16);
    CutAt(s, 16, 19);
    CutAt(s, 19, 22);
    CutAt(s, 22, 25);
    assert s[..4] + [' '] == s[0..3] + ", ";
    assert s == s[..25] + " GMT";
  }

  lemma UtcPrinted(t: int, y: int, m: int, d: int, h: int, mn: int, s: int)
    requires 1000 <= y <= 9999 && 0 <= m < 12 && 0 <= d < 100 && 0 <= h < 24 && 0 <= mn < 60 && 0 <= s < 60
    requires Year(t) == y && MonthFromTime(t) == m && DateFromTime(t) == d
    requires HourFromTime(t) == h && MinFromTime(t) == mn && SecFromTime(t) == s
    ensures FormatUtc(t) == JoinUtc(DayString(WeekDay(t)), Two(d), MonthString(m), Four(y), Two(h), Two(mn), Two(s))
  {
    hide Year, MonthFromTime, DateFromTime, HourFromTime, MinFromTime, SecFromTime, Padded, FormatInt, WeekDay, DayString,
      MonthString, JoinUtc, Two, Four;
    FormatFour(y);
    PaddedTwo(d);
    PaddedTwo(h);
    PaddedTwo(mn);
    PaddedTwo(s);
  }

  lemma UtcReprints(s: string)
    requires Matches(s, UTC_FORMAT) && |s| == 29 && CivilNumbers(UtcNumbers(s)) && UtcNumbers(s)[0] >= 1000
    ensures ParseUtc(s) == Some(TimeOf(UtcNumbers(s)))
    ensures FormatUtc(TimeOf(UtcNumbers(s))) == JoinUtc(DayString(WeekDay(TimeOf(UtcNumbers(s)))),
      s[5..7], s[8..11], s[12..16], s[17..19], s[20..22], s[23..25])
  {
    hide Year, MonthFromTime, DateFromTime, HourFromTime, MinFromTime, SecFromTime, MsFromTime, Atoi, AllDigits,
      Two, Four, Matches, MakeDate, MakeDay, MakeTime, TimeClip, LeapYear, FormatUtc, MonthIndex, MonthString, WeekDay,
      DayString, JoinUtc;
    UtcDigits(s);
    MonthBack(s[8..11], 0);
    FourBack(s[12..16]);
    TwoBack(s[5..7], 0);
    TwoBack(s[17..19], 0);
    TwoBack(s[20..22], 0);
    TwoBack(s[23..25], 0);
    var p := UtcNumbers(s);
    var t := TimeOf(p);
    Decompose(p[0], p[1], p[2], p[3], p[4], p[5], p[6]);
    NearEnough(t);
    ClipKeeps(t);
    CivilRanges(t);
    UtcPrinted(t, p[0], p[1], p[2], p[3], p[4], p[5]);
  }

  lemma UtcReprinted(t: int)
    requires 1000 <= Year(t) <= 9999 && MsFromTime(t) == 0
    ensures |FormatUtc(t)| == 29 && CivilNumbers(UtcNumbers(FormatUtc(t))) && UtcNumbers(FormatUtc(t))[0] >= 1000
    ensures FormatUtc(t)[0..3] == DayString(WeekDay(TimeOf(UtcNumbers(FormatUtc(t)))))
  {
    hide Year, MonthFromTime, DateFromTime, HourFromTime, MinFromTime, SecFromTime, MsFromTime, Atoi, AllDigits,
      Two, Four, Matches, MakeDate, MakeDay, MakeTime, TimeClip, Civil, FormatUtc, ParseUtc, FormatInt, Padded,
      MonthIndex, MonthString, WeekDay, DayString, JoinUtc;
    UtcText(t);
    CivilRanges(t);
    FieldTexts(t);
    YearDigits(t);
    MonthNames(MonthFromTime(t));
    Recompose(t);
    UtcPrinted(t, Year(t), MonthFromTime(t), DateFromTime(t), HourFromTime(t), MinFromTime(t), SecFromTime(t));
    UtcFieldsCut(DayString(WeekDay(t)), Two(DateFromTime(t)), MonthString(MonthFromTime(t)), Four(Year(t)),
                 Two(HourFromTime(t)), Two(MinFromTime(t)), Two(SecFromTime(t)));
  }

  lemma UtcWholeSeconds(t: int)
    ensures ParseUtc(FormatUtc(t)) == Some(t) ==> 1000 <= Year(t) <= 9999 && MsFromTime(t) == 0
  {
    hide *;
    UtcRoundTripIff(t);
    if 1000 <= Year(t) <= 9999 {
      UtcText(t);
    }
  }

  lemma UtcAccepted(s: string)
    ensures ParseUtc(s).Some? ==> Matches(s, UTC_FORMAT) && |s| == 29
  {
  }

  lemma SameJoined(w: string, w': string, d: string, m: string, y: string, h: string, mn: string, s: string)
    requires |w| == |w'| == 3
    ensures JoinUtc(w, d, m, y, h, mn, s) == JoinUtc(w', d, m, y, h, mn, s) <==> w == w'
  {
    if JoinUtc(w, d, m, y, h, mn, s) == JoinUtc(w', d, m, y, h, mn, s) {
      assert JoinUtc(w, d, m, y, h, mn, s)[..3] == w && JoinUtc(w', d, m, y, h, mn, s)[..3] == w';
    }
  }

  /** An accepted UTC text prints again as it was if and only if its fields name an existing date and time,
      its year is at least 1000, and its day of the week is the right one. */
  lemma UtcReprintsIff(s: string)
    ensures ParseUtc(s).Some? ==> |s| == 29
    ensures ParseUtc(s).Some? ==> (FormatUtc(ParseUtc(s).value) == s <==>
      CivilNumbers(UtcNumbers(s)) && UtcNumbers(s)[0] >= 1000 && s[0..3] == DayString(WeekDay(TimeOf(UtcNumbers(s)))))
  {
    hide *;
    UtcAccepted(s);
    if ParseUtc(s).None? {
      return;
    }
    if CivilNumbers(UtcNumbers(s)) && UtcNumbers(s)[0] >= 1000 {
      UtcReprints(s);
      UtcCut(s);
      SameJoined(s[0..3], DayString(WeekDay(TimeOf(UtcNumbers(s)))),
                 s[5..7], s[8..11], s[12..16], s[17..19], s[20..22], s[23..25]);
    }
    if FormatUtc(ParseUtc(s).value) == s {
      UtcWholeSeconds(ParseUtc(s).value);
      UtcReprinted(ParseUtc(s).value);
    }
  }

  const NO_SUCH_DAY := "2001-02-31T00:00:00.000Z"
  const THIRD_OF_MARCH := "2001-03-03T00:00:00.000Z"

  lemma NoSuchDayNumbers()
    ensures Matches(NO_SUCH_DAY, ISO_FORMAT) && IsoNumbers(NO_SUCH_DAY) == [2001, 1, 31, 0, 0, 0, 0]
    ensures Matches(THIRD_OF_MARCH, ISO_FORMAT) && IsoNumbers(THIRD_OF_MARCH) == [2001, 2, 3, 0, 0, 0, 0]
  {
    hide Two, Three, Four, Atoi, Matches, AllDigits;
    FieldLiterals();
    NoSuchDayLiteral();
    ThirdOfMarchLiteral();
    IsoFields(Four(2001), Two(2), Two(31), Two(0), Two(0), Two(0), Three(0));
    IsoFields(Four(2001), Two(3), Two(3), Two(0), Two(0), Two(0), Three(0));
  }

  lemma FieldLiterals()
    ensures Four(2001) == "2001" && Two(2) == "02" && Two(3) == "03" && Two(31) == "31" && Two(0) == "00" && Three(0) == "000"
    ensures Atoi(Four(2001), 0) == 2001 && Atoi(Two(2), 0) == 2 && Atoi(Two(3), 0) == 3 && Atoi(Two(31), 0) == 31
    ensures Atoi(Two(0), 0) == 0 && Atoi(Three(0), 0) == 0
    ensures AllDigits(Four(2001)) && AllDigits(Two(2)) && AllDigits(Two(3)) && AllDigits(Two(31)) && AllDigits(Two(0)) && AllDigits(Three(0))
  {
    hide Atoi, AllDigits;
    AtoiFour(2001);
    AtoiTwo(2);
    AtoiTwo(3);
    AtoiTwo(31);
    AtoiTwo(0);
    AtoiThree(0);
  }

  lemma NoSuchDayLiteral()
    ensures NO_SUCH_DAY == "2001" + "-" + "02" + "-" + "31" + "T" + "00" + ":" + "00" + ":" + "00" + "." + "000" + "Z"
  {
  }

  lemma ThirdOfMarchLiteral()
    ensures THIRD_OF_MARCH == "2001" + "-" + "03" + "-" + "03" + "T" + "00" + ":" + "00" + ":" + "00" + "." + "000" + "Z"
  {
  }

  lemma YearOf2001()
    ensures !LeapYear(2001)
  {
  }

  lemma ParsedIso(s: string)
    requires Matches(s, ISO_FORMAT)
    ensures |s| == 24 && ParseIso(s) == Some(TimeClip(TimeOf(IsoNumbers(s))))
  {
    hide Atoi, MakeDate, MakeDay, MakeTime, TimeClip;
  }

  /** The thirty-first of February is accepted, and prints again as the third of March. */
  lemma NoSuchDayMoves()
    ensures ParseIso(NO_SUCH_DAY).Some?
    ensures FormatIso(ParseIso(NO_SUCH_DAY).value) == THIRD_OF_MARCH != NO_SUCH_DAY
  {
    hide Matches, IsoNumbers, Atoi, MakeDate, MakeDay, MakeTime, TimeClip, FormatIso, ParseIso, LeapYear, MonthStart, DayFromYear;
    NoSuchDayNumbers();
    YearOf2001();
    ParsedIso(NO_SUCH_DAY);
    ParsedIso(THIRD_OF_MARCH);
    MakeDayInRange(2001, 1, 31);
    MakeDayInRange(2001, 2, 3);
    MonthStarts(false);
    IsoReprintsIff(THIRD_OF_MARCH);
    assert NO_SUCH_DAY[6] != THIRD_OF_MARCH[6];
  }

  /** %d prints the digits of any number, without leading zeros. */
  lemma {:induction false} DigitsValue(n: nat)
    ensures AllDigits(Digits(n)) && Atoi(Digits(n), 0) == n && (n > 0 ==> Digits(n)[0] != '0')
  {
    hide Digits, DigitChar, Atoi, DigitValue;
    DigitsStep(n);
    if n < 10 {
      OneDigit(n, 0);
    } else {
      DigitsValue(n / 10);
      OneDigit(n % 10, n / 10);
      AtoiConcat(Digits(n / 10), [DigitChar(n % 10)], 0);
    }
  }

  lemma OneDigit(d: int, acc: int)
    requires 0 <= d <= 9
    ensures AllDigits([DigitChar(d)]) && Atoi([DigitChar(d)], acc) == 10 * acc + d && (d > 0 ==> DigitChar(d) != '0')
  {
    DigitFacts(d);
    assert [DigitChar(d)][1..] == "";
  }

  // ---- names and texts, literally ----

  lemma MonthsInOrder(m: int)
    requires 0 <= m <= 11
    ensures MonthString(m) == ["Jan", "Feb", "Mar", "Apr", "May", "Jun", "Jul", "Aug", "Sep", "Oct", "Nov", "Dec"][m]
  {
  }

  lemma DaysInOrder(d: int)
    requires 0 <= d <= 6
    ensures DayString(d) == ["Sun", "Mon", "Tue", "Wed", "Thu", "Fri", "Sat"][d]
  {
  }

  lemma NumberTexts()
    ensures Two(3) == "03" && Two(21) == "21" && Two(44) == "44" && Two(38) == "38" && Four(2006) == "2006"
    ensures Two(7) == "07" && Three(123) == "123"
  {
  }

  /** 21:44:38 on the third of month `m` of 2006: its time, its day of the week, and both ways of its text. */
  lemma OnTheThird(m: int, start: int, t: int, w: int, text: string)
    requires 0 <= m <= 11 && start == MonthStart(m, false)
    requires t == (13149 + start + 2) * MS_PER_DAY + 78278000 && w == (13149 + start + 6) % 7
    requires text == DayString(w) + ", 03 " + MonthString(m) + " 2006 21:44:38 GMT"
    ensures FormatUtc(t) == text && ParseUtc(text) == Some(t)
  {
    hide Year, MonthFromTime, DateFromTime, HourFromTime, MinFromTime, SecFromTime, MsFromTime, Two, Four, MakeDay,
      LeapYear, FormatUtc, ParseUtc, MonthString, WeekDay, DayString, JoinUtc, MonthStart;
    LeapYearRule(2006);
    MakeDayInRange(2006, m, 3);
    assert MakeDay(2006, m, 3) == 13149 + start + 2;
    assert MakeDate(MakeDay(2006, m, 3), MakeTime(21, 44, 38, 0)) == t;
    Decompose(2006, m, 3, 21, 44, 38, 0);
    DayOfDate(13149 + start + 2, 21, 44, 38, 0);
    WeekDayIs(t);
    NumberTexts();
    UtcPrinted(t, 2006, m, 3, 21, 44, 38);
    ThirdText(DayString(w), MonthString(m));
    UtcText(t);
  }

  lemma ThirdText(w: string, m: string)
    ensures JoinUtc(w, "03", m, "2006", "21", "44", "38") == w + ", 03 " + m + " 2006 21:44:38 GMT"
  {
  }

  lemma January()
    ensures var text := "Tue, 03 Jan 2006 21:44:38 GMT"; FormatUtc(1136324678000) == text && ParseUtc(text) == Some(1136324678000)
  {
    hide FormatUtc, ParseUtc, MonthStart;
    MonthStarts(false);
    OnTheThird(0, 0, 1136324678000, 2, "Tue, 03 Jan 2006 21:44:38 GMT");
  }

  lemma February()
    ensures var text := "Fri, 03 Feb 2006 21:44:38 GMT"; FormatUtc(1139003078000) == text && ParseUtc(text) == Some(1139003078000)
  {
    hide FormatUtc, ParseUtc, MonthStart;
    MonthStarts(false);
    OnTheThird(1, 31, 1139003078000, 5, "Fri, 03 Feb 2006 21:44:38 GMT");
  }

  lemma March()
    ensures var text := "Fri, 03 Mar 2006 21:44:38 GMT"; FormatUtc(1141422278000) == text && ParseUtc(text) == Some(1141422278000)
  {
    hide FormatUtc, ParseUtc, MonthStart;
    MonthStarts(false);
    OnTheThird(2, 59, 1141422278000, 5, "Fri, 03 Mar 2006 21:44:38 GMT");
  }

  lemma April()
    ensures var text := "Mon, 03 Apr 2006 21:44:38 GMT"; FormatUtc(1144100678000) == text && ParseUtc(text) == Some(1144100678000)
  {
    hide FormatUtc, ParseUtc, MonthStart;
    MonthStarts(false);
    OnTheThird(3, 90, 1144100678000, 1, "Mon, 03 Apr 2006 21:44:38 GMT");
  }

  lemma May()
    ensures var text := "Wed, 03 May 2006 21:44:38 GMT"; FormatUtc(1146692678000) == text && ParseUtc(text) == Some(1146692678000)
  {
    hide FormatUtc, ParseUtc, MonthStart;
    MonthStarts(false);
    OnTheThird(4, 120, 1146692678000, 3, "Wed, 03 May 2006 21:44:38 GMT");
  }

  lemma June()
    ensures var text := "Sat, 03 Jun 2006 21:44:38 GMT"; FormatUtc(1149371078000) == text && ParseUtc(text) == Some(1149371078000)
  {
    hide FormatUtc, ParseUtc, MonthStart;
    MonthStarts(false);
    OnTheThird(5, 151, 1149371078000, 6, "Sat, 03 Jun 2006 21:44:38 GMT");
  }

  lemma July()
    ensures var text := "Mon, 03 Jul 2006 21:44:38 GMT"; FormatUtc(1151963078000) == text && ParseUtc(text) == Some(1151963078000)
  {
    hide FormatUtc, ParseUtc, MonthStart;
    MonthStarts(false);
    OnTheThird(6, 181, 1151963078000, 1, "Mon, 03 Jul 2006 21:44:38 GMT");
  }

  lemma August()
    ensures var text := "Thu, 03 Aug 2006 21:44:38 GMT"; FormatUtc(1154641478000) == text && ParseUtc(text) == Some(1154641478000)
  {
    hide FormatUtc, ParseUtc, MonthStart;
    MonthStarts(false);
    OnTheThird(7, 212, 1154641478000, 4, "Thu, 03 Aug 2006 21:44:38 GMT");
  }

  lemma September()
    ensures var text := "Sun, 03 Sep 2006 21:44:38 GMT"; FormatUtc(1157319878000) == text && ParseUtc(text) == Some(1157319878000)
  {
    hide FormatUtc, ParseUtc, MonthStart;
    MonthStarts(false);
    OnTheThird(8, 243, 1157319878000, 0, "Sun, 03 Sep 2006 21:44:38 GMT");
  }

  lemma October()
    ensures var text := "Tue, 03 Oct 2006 21:44:38 GMT"; FormatUtc(1159911878000) == text && ParseUtc(text) == Some(1159911878000)
  {
    hide FormatUtc, ParseUtc, MonthStart;
    MonthStarts(false);
    OnTheThird(9, 273, 1159911878000, 2, "Tue, 03 Oct 2006 21:44:38 GMT");
  }

  lemma November()
    ensures var text := "Fri, 03 Nov 2006 21:44:38 GMT"; FormatUtc(1162590278000) == text && ParseUtc(text) == Some(1162590278000)
  {
    hide FormatUtc, ParseUtc, MonthStart;
    MonthStarts(false);
    OnTheThird(10, 304, 1162590278000, 5, "Fri, 03 Nov 2006 21:44:38 GMT");
  }

  lemma December()
    ensures var text := "Sun, 03 Dec 2006 21:44:38 GMT"; FormatUtc(1165182278000) == text && ParseUtc(text) == Some(1165182278000)
  {
    hide FormatUtc, ParseUtc, MonthStart;
    MonthStarts(false);
    OnTheThird(11, 334, 1165182278000, 0, "Sun, 03 Dec 2006 21:44:38 GMT");
  }

  /** The same instant with its milliseconds, in the ISO form. */
  lemma IsoOfJuly()
    ensures FormatIso(1151963078123) == "2006-07-03T21:44:38.123Z"
    ensures ParseIso("2006-07-03T21:44:38.123Z") == Some(1151963078123)
  {
    hide Year, MonthFromTime, DateFromTime, HourFromTime, MinFromTime, SecFromTime, MsFromTime, Two, Three, Four, MakeDay,
      LeapYear, FormatIso, ParseIso, MonthStart;
    LeapYearRule(2006);
    MonthStarts(false);
    MakeDayInRange(2006, 6, 3);
    Decompose(2006, 6, 3, 21, 44, 38, 123);
    NumberTexts();
    IsoPrinted(1151963078123, 2006, 6, 3, 21, 44, 38, 123);
    IsoText(1151963078123);
    IsoOfJulyLiteral();
  }

  lemma IsoOfJulyLiteral()
    ensures "2006-07-03T21:44:38.123Z"
         == "2006" + "-" + "07" + "-" + "03" + "T" + "21" + ":" + "44" + ":" + "38" + "." + "123" + "Z"
  {
  }
}
