/** The setUTC methods of Date.prototype: rebuilding a time value from its parts and the arguments. */
module DateSetters {
  import opened Calendar

  /** An argument of a call; `Number` carries the value TO_NUM gives for it. */
  datatype Arg = Undefined | Number(v: int)

  /** args_get: arguments that were not passed are undefined. */
  function ArgAt(args: seq<Arg>, j: nat): Arg {
    if j < |args| then args[j] else Undefined
  }

  /** The number field of TO_NUM(arg): zero for the NaN that undefined becomes. */
  function ToNum(arg: Arg): int {
    if arg.Undefined? then 0 else arg.v
  }

  /** make_part: year, month, date, hour, minute, second, millisecond of a time value. */
  function MakePart(t: int, i: int): int {
    match i
    case 0 => Year(t)
    case 1 => MonthFromTime(t)
    case 2 => DateFromTime(t)
    case 3 => HourFromTime(t)
    case 4 => MinFromTime(t)
    case 5 => SecFromTime(t)
    case _ => MsFromTime(t)
  }

  /** The part the rebuilt time is made of: an argument inside the window of `maxArgs` parts from `shift`
      on, the first one even when it is missing; otherwise the old part. */
  function Part(args: seq<Arg>, t: int, shift: nat, maxArgs: nat, i: nat): int {
    if shift <= i < shift + maxArgs && (ArgAt(args, i - shift).Number? || i == shift)
    then ToNum(ArgAt(args, i - shift))
    else MakePart(t, i)
  }

  function Parts(args: seq<Arg>, t: int, shift: nat, maxArgs: nat): (p: seq<int>)
    ensures |p| == 7
    ensures forall i :: 0 <= i < 7 ==> p[i] == Part(args, t, shift, maxArgs, i)
  {
    seq(7, i requires i >= 0 => Part(args, t, shift, maxArgs, i))
  }

  function FromParts(p: seq<int>): int
    requires |p| == 7
  {
    MakeDate(MakeDay(p[0], p[1], p[2]), MakeTime(p[3], p[4], p[5], p[6]))
  }

  /** make_date_from_args */
  method MakeDateFromArgs(args: seq<Arg>, t: int, shift: nat, maxArgs: nat) returns (r: int)
    ensures r == FromParts(Parts(args, t, shift, maxArgs))
  {
    hide MakePart, MakeDate, MakeDay, MakeTime;
    var parts := new int[7];
    var i, j := 0, 0;
    while i < 7
      invariant 0 <= i <= 7
      invariant j == if i <= shift then 0 else if i - shift <= maxArgs then i - shift else maxArgs
      invariant forall k :: 0 <= k < i ==> parts[k] == Part(args, t, shift, maxArgs, k)
    {
      var taken := false;
      if shift <= i && i - shift < maxArgs {
        var arg := ArgAt(args, j);
        j := j + 1;
        if arg.Number? || j == 1 {
          parts[i] := ToNum(arg);
          taken := true;
        }
      }
      if !taken {
        parts[i] := MakePart(t, i);
      }
      i := i + 1;
    }
    assert parts[..] == Parts(args, t, shift, maxArgs);
    var day := MakeDay(parts[0], parts[1], parts[2]);
    var time := MakeTime(parts[3], parts[4], parts[5], parts[6]);
    r := MakeDate(day, time);
  }

  datatype Setter =
    | SetUTCFullYear | SetUTCMonth | SetUTCDate | SetUTCHours | SetUTCMinutes | SetUTCSeconds | SetUTCMilliseconds
  {
    /** The window of parts the method takes as arguments: where it starts and how many parts it covers. */
    function Shift(): nat {
      match this
      case SetUTCFullYear => 0
      case SetUTCMonth => 1
      case SetUTCDate => 2
      case SetUTCHours => 3
      case SetUTCMinutes => 4
      case SetUTCSeconds => 5
      case SetUTCMilliseconds => 6
    }

    function MaxArgs(): nat {
      match this
      case SetUTCFullYear => 3
      case SetUTCMonth => 2
      case SetUTCDate => 1
      case SetUTCHours => 4
      case SetUTCMinutes => 3
      case SetUTCSeconds => 2
      case SetUTCMilliseconds => 1
    }
  }

  /** The parts a setter call asks for. */
  function Wanted(setter: Setter, args: seq<Arg>, t: int): (p: seq<int>)
    ensures |p| == 7
  {
    Parts(args, t, setter.Shift(), setter.MaxArgs())
  }

  /** The number given as argument `j`, or else `old`. */
  function Given(args: seq<Arg>, j: nat, old': int): int {
    if j < |args| && args[j].Number? then args[j].v else old'
  }

  lemma WantedParts(setter: Setter, args: seq<Arg>, t: int)
    ensures Wanted(setter, args, t) == Parts(args, t, setter.Shift(), setter.MaxArgs())
  {
  }

  /** Which parts each method takes, in the order of its arguments (sections 15.9.5.29 to 15.9.5.41 of
      ECMA-262, edition 5.1). The first argument counts as 0 when it is missing; every other part stays. */
  lemma NamedWindows(args: seq<Arg>, t: int)
    ensures Wanted(SetUTCFullYear, args, t) == [
      Given(args, 0, 0), Given(args, 1, MonthFromTime(t)), Given(args, 2, DateFromTime(t)), HourFromTime(t),
      MinFromTime(t), SecFromTime(t), MsFromTime(t)]
    ensures Wanted(SetUTCMonth, args, t) == [
      Year(t), Given(args, 0, 0), Given(args, 1, DateFromTime(t)), HourFromTime(t), MinFromTime(t),
      SecFromTime(t), MsFromTime(t)]
    ensures Wanted(SetUTCDate, args, t) == [
      Year(t), MonthFromTime(t), Given(args, 0, 0), HourFromTime(t), MinFromTime(t), SecFromTime(t),
      MsFromTime(t)]
    ensures Wanted(SetUTCHours, args, t) == [
      Year(t), MonthFromTime(t), DateFromTime(t), Given(args, 0, 0), Given(args, 1, MinFromTime(t)),
      Given(args, 2, SecFromTime(t)), Given(args, 3, MsFromTime(t))]
    ensures Wanted(SetUTCMinutes, args, t) == [
      Year(t), MonthFromTime(t), DateFromTime(t), HourFromTime(t), Given(args, 0, 0),
      Given(args, 1, SecFromTime(t)), Given(args, 2, MsFromTime(t))]
    ensures Wanted(SetUTCSeconds, args, t) == [
      Year(t), MonthFromTime(t), DateFromTime(t), HourFromTime(t), MinFromTime(t), Given(args, 0, 0),
      Given(args, 1, MsFromTime(t))]
    ensures Wanted(SetUTCMilliseconds, args, t) == [
      Year(t), MonthFromTime(t), DateFromTime(t), HourFromTime(t), MinFromTime(t), SecFromTime(t),
      Given(args, 0, 0)]
  {
    hide Year, MonthFromTime, DateFromTime, HourFromTime, MinFromTime, SecFromTime, MsFromTime;
  }

  /** The time value of a Date object. */
  class DateObject {
    var val: int

    constructor (t: int)
      ensures val == t
    {
      val := t;
    }

    /** Date.prototype.setUTC...: the instance's number is updated in place. */
    method Set(setter: Setter, args: seq<Arg>)
      modifies this
      ensures val == TimeClip(FromParts(Wanted(setter, args, old(val))))
      ensures setter.SetUTCFullYear? ==> val == TimeClip(FromParts([
        Given(args, 0, 0), Given(args, 1, MonthFromTime(old(val))), Given(args, 2, DateFromTime(old(val))),
        HourFromTime(old(val)), MinFromTime(old(val)), SecFromTime(old(val)), MsFromTime(old(val))]))
      ensures setter.SetUTCMonth? ==> val == TimeClip(FromParts([
        Year(old(val)), Given(args, 0, 0), Given(args, 1, DateFromTime(old(val))), HourFromTime(old(val)),
        MinFromTime(old(val)), SecFromTime(old(val)), MsFromTime(old(val))]))
      ensures setter.SetUTCDate? ==> val == TimeClip(FromParts([
        Year(old(val)), MonthFromTime(old(val)), Given(args, 0, 0), HourFromTime(old(val)),
        MinFromTime(old(val)), SecFromTime(old(val)), MsFromTime(old(val))]))
      ensures setter.SetUTCHours? ==> val == TimeClip(FromParts([
        Year(old(val)), MonthFromTime(old(val)), DateFromTime(old(val)), Given(args, 0, 0),
        Given(args, 1, MinFromTime(old(val))), Given(args, 2, SecFromTime(old(val))),
        Given(args, 3, MsFromTime(old(val)))]))
      ensures setter.SetUTCMinutes? ==> val == TimeClip(FromParts([
        Year(old(val)), MonthFromTime(old(val)), DateFromTime(old(val)), HourFromTime(old(val)),
        Given(args, 0, 0), Given(args, 1, SecFromTime(old(val))), Given(args, 2, MsFromTime(old(val)))]))
      ensures setter.SetUTCSeconds? ==> val == TimeClip(FromParts([
        Year(old(val)), MonthFromTime(old(val)), DateFromTime(old(val)), HourFromTime(old(val)),
        MinFromTime(old(val)), Given(args, 0, 0), Given(args, 1, MsFromTime(old(val)))]))
      ensures setter.SetUTCMilliseconds? ==> val == TimeClip(FromParts([
        Year(old(val)), MonthFromTime(old(val)), DateFromTime(old(val)), HourFromTime(old(val)),
        MinFromTime(old(val)), SecFromTime(old(val)), Given(args, 0, 0)]))
    {
      hide FromParts, Wanted, TimeClip, Year, MonthFromTime, DateFromTime, HourFromTime, MinFromTime, SecFromTime, MsFromTime;
      NamedWindows(args, val);
      WantedParts(setter, args, val);
      var t := val;
      var r := MakeDateFromArgs(args, t, setter.Shift(), setter.MaxArgs());
      val := TimeClip(r);
    }
  }

  /** Seven parts that name an existing date and time. */
  predicate CivilParts(p: seq<int>)
    requires |p| == 7
  {
    Civil(p[0], p[1], p[2], p[3], p[4], p[5], p[6])
  }

  /** Every part reads back from the time value. */
  ghost predicate ReadsBack(t: int, p: seq<int>)
    requires |p| == 7
  {
    forall i :: 0 <= i < 7 ==> MakePart(t, i) == p[i]
  }

  lemma ReadsBackFields(t: int, p: seq<int>)
    requires |p| == 7
    ensures ReadsBack(t, p) <==>
      Year(t) == p[0] && MonthFromTime(t) == p[1] && DateFromTime(t) == p[2] && HourFromTime(t) == p[3]
      && MinFromTime(t) == p[4] && SecFromTime(t) == p[5] && MsFromTime(t) == p[6]
  {
    hide Year, MonthFromTime, DateFromTime, HourFromTime, MinFromTime, SecFromTime, MsFromTime;
    if ReadsBack(t, p) {
      assert MakePart(t, 0) == p[0] && MakePart(t, 1) == p[1] && MakePart(t, 2) == p[2] && MakePart(t, 3) == p[3];
      assert MakePart(t, 4) == p[4] && MakePart(t, 5) == p[5] && MakePart(t, 6) == p[6];
    }
  }

  /** A rebuilt and clipped time value reads back as its parts if and only if they name an existing date
      and time within 8.64e15 milliseconds of the epoch. */
  lemma RebuildReadsBackIff(p: seq<int>)
    requires |p| == 7
    ensures ReadsBack(TimeClip(FromParts(p)), p)
      <==> CivilParts(p) && -8640000000000000 <= FromParts(p) <= 8640000000000000
  {
    hide Year, MonthFromTime, DateFromTime, HourFromTime, MinFromTime, SecFromTime, MsFromTime, MakeDate, MakeDay, MakeTime, Civil;
    var t := FromParts(p);
    ReadsBackFields(TimeClip(t), p);
    if CivilParts(p) {
      Decompose(p[0], p[1], p[2], p[3], p[4], p[5], p[6]);
    }
    FieldsAreCivil(TimeClip(t));
    Recompose(TimeClip(t));
  }

  /** What part `i` should be after a call: the argument given for it, or what it was. */
  function Asked(setter: Setter, args: seq<Arg>, t: int, i: nat): int {
    if setter.Shift() <= i < setter.Shift() + setter.MaxArgs() && ArgAt(args, i - setter.Shift()).Number?
    then ArgAt(args, i - setter.Shift()).v
    else MakePart(t, i)
  }

  function AllAsked(setter: Setter, args: seq<Arg>, t: int): (p: seq<int>)
    ensures |p| == 7
    ensures forall i :: 0 <= i < 7 ==> p[i] == Asked(setter, args, t, i)
  {
    seq(7, i requires i >= 0 => Asked(setter, args, t, i))
  }

  /** The first part of the window is the one part that differs from what is asked: it becomes zero when
      its argument is missing. */
  lemma WantedIs(setter: Setter, args: seq<Arg>, t: int)
    ensures Wanted(setter, args, t) ==
      if ArgAt(args, 0).Number? then AllAsked(setter, args, t) else AllAsked(setter, args, t)[setter.Shift() := 0]
  {
    hide MakePart;
  }

  lemma FromCivilParts(p: seq<int>)
    requires |p| == 7 && 0 <= p[1] <= 11
    ensures FromParts(p) ==
      (DayFromYear(p[0]) + MonthStart(p[1], LeapYear(p[0])) + p[2] - 1) * MS_PER_DAY
      + ((p[3] * MIN_PER_HR + p[4]) * SEC_PER_MIN + p[5]) * MS_PER_SEC + p[6]
  {
    hide MakeDay, MonthStart, DayFromYear, LeapYear;
    MakeDayInRange(p[0], p[1], p[2]);
  }

  /** Different parts of the year 0, or of the month 0, are different days. */
  lemma ZeroedDay(y: int, m: int)
    requires 0 <= m <= 11
    ensures y != 0 ==> DayFromYear(y) + MonthStart(m, LeapYear(y)) != DayFromYear(0) + MonthStart(m, LeapYear(0))
    ensures m != 0 ==> MonthStart(m, LeapYear(y)) != MonthStart(0, LeapYear(y))
  {
    hide MonthStart, DayFromYear, LeapYear;
    if y < 0 { StartOrder(y, 0, m); }
    if y > 0 { StartOrder(0, y, m); }
    MonthStarts(LeapYear(y));
  }

  /** Setting one part of a date that exists to zero gives another time. */
  lemma ZeroedDiffers(p: seq<int>, k: nat)
    requires |p| == 7 && k < 7 && 0 <= p[1] <= 11 && p[k] != 0
    ensures FromParts(p[k := 0]) != FromParts(p)
  {
    hide FromParts, MonthStart, DayFromYear, LeapYear;
    ZeroedDay(p[0], p[1]);
    FromCivilParts(p);
    FromCivilParts(p[k := 0]);
  }

  /** Around the epoch, a zeroed part stays within range, so it is not clipped back to the epoch. */
  lemma ZeroedEpoch(k: nat)
    requires k < 7
    ensures -8640000000000000 <= FromParts([1970, 0, 1, 0, 0, 0, 0][k := 0]) <= 8640000000000000
  {
    var p := [1970, 0, 1, 0, 0, 0, 0][k := 0];
    hide FromParts;
    assert p[1] == 0 && (p[0] == 1970 || p[0] == 0) && 0 <= p[2] <= 1 && p[3] == p[4] == p[5] == p[6] == 0;
    FromCivilParts(p);
  }

  lemma EpochParts(p: seq<int>)
    requires |p| == 7 && ReadsBack(0, p)
    ensures p == [1970, 0, 1, 0, 0, 0, 0]
  {
    hide Year, MonthFromTime, DateFromTime, HourFromTime, MinFromTime, SecFromTime, MsFromTime;
    ReadsBackFields(0, p);
    EpochFields();
  }

  /** What reads back from a time makes up that time again. */
  lemma ReadBackTime(t: int, p: seq<int>)
    requires |p| == 7 && ReadsBack(t, p)
    ensures FromParts(p) == t && CivilParts(p)
  {
    hide Year, MonthFromTime, DateFromTime, HourFromTime, MinFromTime, SecFromTime, MsFromTime, Civil, MakeDate, MakeDay, MakeTime;
    ReadsBackFields(t, p);
    Recompose(t);
    FieldsAreCivil(t);
  }

  /** A zeroed part never reads back as the part it replaced. */
  lemma ZeroedNeverReadsBack(p: seq<int>, k: nat)
    requires |p| == 7 && k < 7 && p[k] != 0
    ensures !ReadsBack(TimeClip(FromParts(p[k := 0])), p)
  {
    hide FromParts, ReadsBack, CivilParts;
    var w := FromParts(p[k := 0]);
    if ReadsBack(TimeClip(w), p) {
      ReadBackTime(TimeClip(w), p);
      CivilMonth(p);
      ZeroedDiffers(p, k);
      EpochClipped(p, k);
      assert false;
    }
  }

  lemma CivilMonth(p: seq<int>)
    requires |p| == 7 && CivilParts(p)
    ensures 0 <= p[1] <= 11
  {
  }

  lemma EpochClipped(p: seq<int>, k: nat)
    requires |p| == 7 && k < 7
    ensures var w := FromParts(p[k := 0]); ReadsBack(TimeClip(w), p) ==> TimeClip(w) == w
  {
    hide FromParts, ReadsBack;
    var w := FromParts(p[k := 0]);
    if ReadsBack(TimeClip(w), p) && TimeClip(w) != w {
      EpochParts(p);
      ZeroedEpoch(k);
      assert false;
    }
  }

  /** A setUTC call makes every supplied part inside its window read back as given and leaves every other
      part unchanged, if and only if the resulting parts name an existing date and time in range, and the
      first part of the window is either supplied or was zero before. */
  lemma SetterIff(setter: Setter, args: seq<Arg>, t: int)
    ensures var after := TimeClip(FromParts(Wanted(setter, args, t)));
      (forall i :: 0 <= i < 7 ==> MakePart(after, i) == Asked(setter, args, t, i))
      <==>
      && CivilParts(Wanted(setter, args, t))
      && -8640000000000000 <= FromParts(Wanted(setter, args, t)) <= 8640000000000000
      && (ArgAt(args, 0).Number? || MakePart(t, setter.Shift()) == 0)
  {
    hide MakePart, FromParts, Civil, TimeClip, Wanted;
    var p, k := AllAsked(setter, args, t), setter.Shift();
    WantedIs(setter, args, t);
    RebuildReadsBackIff(Wanted(setter, args, t));
    if !ArgAt(args, 0).Number? {
      assert p[k] == MakePart(t, k);
      if p[k] == 0 {
        assert p[k := 0] == p;
      } else {
        ZeroedNeverReadsBack(p, k);
      }
    }
  }

  /** Outside the range of time values a setter stores the epoch. */
  lemma OutOfRangeStoresEpoch(setter: Setter, args: seq<Arg>, t: int)
    requires FromParts(Wanted(setter, args, t)) < -8640000000000000 || FromParts(Wanted(setter, args, t)) > 8640000000000000
    ensures TimeClip(FromParts(Wanted(setter, args, t))) == 0
  {
    hide FromParts, Wanted;
  }

  /** setUTCFullYear(300000) on the epoch leaves the epoch. */
  lemma FarYearStoresEpoch()
    ensures FromParts(Wanted(SetUTCFullYear, [Number(300000)], 0)) > 8640000000000000
    ensures TimeClip(FromParts(Wanted(SetUTCFullYear, [Number(300000)], 0))) == 0
  {
    hide Year, MonthFromTime, DateFromTime, HourFromTime, MinFromTime, SecFromTime, MsFromTime, FromParts;
    EpochFields();
    var p := Wanted(SetUTCFullYear, [Number(300000)], 0);
    assert p == [300000, 0, 1, 0, 0, 0, 0];
    FromCivilParts(p);
    OutOfRangeStoresEpoch(SetUTCFullYear, [Number(300000)], 0);
  }

  // ---- what each setter does, by name ----

  /** Seven parts that name an existing date and time in the range of time values. */
  predicate InRange(p: seq<int>)
    requires |p| == 7
  {
    CivilParts(p) && -8640000000000000 <= FromParts(p) <= 8640000000000000
  }

  lemma PartsReadBack(p: seq<int>)
    requires |p| == 7 && InRange(p)
    ensures var after := TimeClip(FromParts(p));
      && Year(after) == p[0] && MonthFromTime(after) == p[1] && DateFromTime(after) == p[2] && HourFromTime(after) == p[3]
      && MinFromTime(after) == p[4] && SecFromTime(after) == p[5] && MsFromTime(after) == p[6]
  {
    hide Year, MonthFromTime, DateFromTime, HourFromTime, MinFromTime, SecFromTime, MsFromTime, FromParts, CivilParts, TimeClip;
    RebuildReadsBackIff(p);
    ReadsBackFields(TimeClip(FromParts(p)), p);
  }

  lemma SetUTCFullYearReads(args: seq<Arg>, t: int)
    requires InRange(Wanted(SetUTCFullYear, args, t))
    ensures var after := TimeClip(FromParts(Wanted(SetUTCFullYear, args, t)));
      && Year(after) == Given(args, 0, 0)
      && MonthFromTime(after) == Given(args, 1, MonthFromTime(t))
      && DateFromTime(after) == Given(args, 2, DateFromTime(t))
      && HourFromTime(after) == HourFromTime(t)
      && MinFromTime(after) == MinFromTime(t)
      && SecFromTime(after) == SecFromTime(t)
      && MsFromTime(after) == MsFromTime(t)
  {
    hide *;
    NamedWindows(args, t);
    PartsReadBack(Wanted(SetUTCFullYear, args, t));
  }

  lemma SetUTCMonthReads(args: seq<Arg>, t: int)
    requires InRange(Wanted(SetUTCMonth, args, t))
    ensures var after := TimeClip(FromParts(Wanted(SetUTCMonth, args, t)));
      && Year(after) == Year(t)
      && MonthFromTime(after) == Given(args, 0, 0)
      && DateFromTime(after) == Given(args, 1, DateFromTime(t))
      && HourFromTime(after) == HourFromTime(t)
      && MinFromTime(after) == MinFromTime(t)
      && SecFromTime(after) == SecFromTime(t)
      && MsFromTime(after) == MsFromTime(t)
  {
    hide *;
    NamedWindows(args, t);
    PartsReadBack(Wanted(SetUTCMonth, args, t));
  }

  lemma SetUTCDateReads(args: seq<Arg>, t: int)
    requires InRange(Wanted(SetUTCDate, args, t))
    ensures var after := TimeClip(FromParts(Wanted(SetUTCDate, args, t)));
      && Year(after) == Year(t)
      && MonthFromTime(after) == MonthFromTime(t)
      && DateFromTime(after) == Given(args, 0, 0)
      && HourFromTime(after) == HourFromTime(t)
      && MinFromTime(after) == MinFromTime(t)
      && SecFromTime(after) == SecFromTime(t)
      && MsFromTime(after) == MsFromTime(t)
  {
    hide *;
    NamedWindows(args, t);
    PartsReadBack(Wanted(SetUTCDate, args, t));
  }

  lemma SetUTCHoursReads(args: seq<Arg>, t: int)
    requires InRange(Wanted(SetUTCHours, args, t))
    ensures var after := TimeClip(FromParts(Wanted(SetUTCHours, args, t)));
      && Year(after) == Year(t)
      && MonthFromTime(after) == MonthFromTime(t)
      && DateFromTime(after) == DateFromTime(t)
      && HourFromTime(after) == Given(args, 0, 0)
      && MinFromTime(after) == Given(args, 1, MinFromTime(t))
      && SecFromTime(after) == Given(args, 2, SecFromTime(t))
      && MsFromTime(after) == Given(args, 3, MsFromTime(t))
  {
    hide *;
    NamedWindows(args, t);
    PartsReadBack(Wanted(SetUTCHours, args, t));
  }

  lemma SetUTCMinutesReads(args: seq<Arg>, t: int)
    requires InRange(Wanted(SetUTCMinutes, args, t))
    ensures var after := TimeClip(FromParts(Wanted(SetUTCMinutes, args, t)));
      && Year(after) == Year(t)
      && MonthFromTime(after) == MonthFromTime(t)
      && DateFromTime(after) == DateFromTime(t)
      && HourFromTime(after) == HourFromTime(t)
      && MinFromTime(after) == Given(args, 0, 0)
      && SecFromTime(after) == Given(args, 1, SecFromTime(t))
      && MsFromTime(after) == Given(args, 2, MsFromTime(t))
  {
    hide *;
    NamedWindows(args, t);
    PartsReadBack(Wanted(SetUTCMinutes, args, t));
  }

  lemma SetUTCSecondsReads(args: seq<Arg>, t: int)
    requires InRange(Wanted(SetUTCSeconds, args, t))
    ensures var after := TimeClip(FromParts(Wanted(SetUTCSeconds, args, t)));
      && Year(after) == Year(t)
      && MonthFromTime(after) == MonthFromTime(t)
      && DateFromTime(after) == DateFromTime(t)
      && HourFromTime(after) == HourFromTime(t)
      && MinFromTime(after) == MinFromTime(t)
      && SecFromTime(after) == Given(args, 0, 0)
      && MsFromTime(after) == Given(args, 1, MsFromTime(t))
  {
    hide *;
    NamedWindows(args, t);
    PartsReadBack(Wanted(SetUTCSeconds, args, t));
  }

  lemma SetUTCMillisecondsReads(args: seq<Arg>, t: int)
    requires InRange(Wanted(SetUTCMilliseconds, args, t))
    ensures var after := TimeClip(FromParts(Wanted(SetUTCMilliseconds, args, t)));
      && Year(after) == Year(t)
      && MonthFromTime(after) == MonthFromTime(t)
      && DateFromTime(after) == DateFromTime(t)
      && HourFromTime(after) == HourFromTime(t)
      && MinFromTime(after) == MinFromTime(t)
      && SecFromTime(after) == SecFromTime(t)
      && MsFromTime(after) == Given(args, 0, 0)
  {
    hide *;
    NamedWindows(args, t);
    PartsReadBack(Wanted(SetUTCMilliseconds, args, t));
  }

  /** setUTCMinutes(30) and setUTCSeconds(30) on the epoch. */
  lemma ThirtyOnEpoch()
    ensures TimeClip(FromParts(Wanted(SetUTCMinutes, [Number(30)], 0))) == 1800000
    ensures TimeClip(FromParts(Wanted(SetUTCSeconds, [Number(30)], 0))) == 30000
  {
    hide Year, MonthFromTime, DateFromTime, HourFromTime, MinFromTime, SecFromTime, MsFromTime, FromParts, Wanted, MonthStart, LeapYear;
    NamedWindows([Number(30)], 0);
    EpochFields();
    MonthStarts(LeapYear(1970));
    FromCivilParts([1970, 0, 1, 0, 30, 0, 0]);
    FromCivilParts([1970, 0, 1, 0, 0, 30, 0]);
  }
}
