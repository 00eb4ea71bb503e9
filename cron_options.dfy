/**
 * The `cron` section of `mascot.dat`: `ms_cronjob`, one schedule entry made
 * of five fixed-size boolean tables (minutes, hours, days of the month,
 * months, days of the week) and a shell command, and `ms_cronoptions`, the
 * section's flags and its list of jobs.
 */
module Cron {
  import opened Ascii

  const MinuteCount: nat := 60
  const HourCount: nat := 24
  const DayOfMonthCount: nat := 32
  const MonthOfYearCount: nat := 13
  const DayOfWeekCount: nat := 7

  /** Valid arguments of the accessors: minutes 0..59, hours 0..23, days 1..31, months 1..12, weekdays 0..6. */
  predicate ValidMinute(m: int) { 0 <= m < 60 }
  predicate ValidHour(h: int) { 0 <= h < 24 }
  predicate ValidDayOfMonth(d: int) { 1 <= d <= 31 }
  predicate ValidMonthOfYear(m: int) { 1 <= m <= 12 }
  predicate ValidDayOfWeek(d: int) { 0 <= d <= 6 }

  /** Every valid argument indexes its table. */
  lemma ValidRangesFitTables(m: int)
    ensures ValidMinute(m) ==> 0 <= m < MinuteCount
    ensures ValidHour(m) ==> 0 <= m < HourCount
    ensures ValidDayOfMonth(m) ==> 0 <= m < DayOfMonthCount
    ensures ValidMonthOfYear(m) ==> 0 <= m < MonthOfYearCount
    ensures ValidDayOfWeek(m) ==> 0 <= m < DayOfWeekCount
  {
  }

  /** The state of a job, as a value: what `copyFrom` copies and what the job list holds. */
  datatype CronJobValue = CronJobValue(
    minutes: seq<bool>, hours: seq<bool>, daysOfMonth: seq<bool>, monthsOfYear: seq<bool>,
    daysOfWeek: seq<bool>, command: string)

  /**
   * The state taken for construction and `defaultValues()`: nothing scheduled
   * and no command. The header does not document it and the bodies are not
   * part of this model, so it is inferred.
   */
  predicate IsDefaultJob(v: CronJobValue) {
    |v.minutes| == MinuteCount && |v.hours| == HourCount && |v.daysOfMonth| == DayOfMonthCount
    && |v.monthsOfYear| == MonthOfYearCount && |v.daysOfWeek| == DayOfWeekCount
    && (forall i :: 0 <= i < |v.minutes| ==> !v.minutes[i])
    && (forall i :: 0 <= i < |v.hours| ==> !v.hours[i])
    && (forall i :: 0 <= i < |v.daysOfMonth| ==> !v.daysOfMonth[i])
    && (forall i :: 0 <= i < |v.monthsOfYear| ==> !v.monthsOfYear[i])
    && (forall i :: 0 <= i < |v.daysOfWeek| ==> !v.daysOfWeek[i])
    && v.command == ""
  }

  /** Sets every entry of a table to false. */
  method ClearTable(a: array<bool>)
    modifies a
    ensures forall i :: 0 <= i < a.Length ==> !a[i]
  {
    var i := 0;
    while i < a.Length
      invariant 0 <= i <= a.Length
      invariant forall j :: 0 <= j < i ==> !a[j]
    {
      a[i] := false;
      i := i + 1;
    }
  }

  /** Copies a table entry by entry; `dst` and `src` may be the same table. */
  method CopyTable(dst: array<bool>, src: array<bool>)
    requires dst.Length == src.Length
    modifies dst
    ensures dst[..] == old(src[..])
  {
    var i := 0;
    while i < dst.Length
      invariant 0 <= i <= dst.Length
      invariant forall j :: 0 <= j < i ==> dst[j] == old(src[j])
      invariant forall j :: i <= j < src.Length ==> src[j] == old(src[j])
    {
      dst[i] := src[i];
      i := i + 1;
    }
  }

  /** `ms_cronjob`: one entry of the `cron` section. */
  class CronJob {
    var minute: array<bool>
    var hour: array<bool>
    var dayOfMonth: array<bool>
    var monthOfYear: array<bool>
    var dayOfWeek: array<bool>
    var command: string

    /** The tables have their declared sizes (which also keeps them apart). */
    ghost predicate Valid()
      reads this
    {
      minute.Length == MinuteCount && hour.Length == HourCount && dayOfMonth.Length == DayOfMonthCount
      && monthOfYear.Length == MonthOfYearCount && dayOfWeek.Length == DayOfWeekCount
    }

    function Value(): CronJobValue
      reads this, minute, hour, dayOfMonth, monthOfYear, dayOfWeek
    {
      CronJobValue(minute[..], hour[..], dayOfMonth[..], monthOfYear[..], dayOfWeek[..], command)
    }

    /** The default constructor: nothing scheduled and an empty command. */
    constructor ()
      ensures Valid() && IsDefaultJob(Value())
      ensures fresh(minute) && fresh(hour) && fresh(dayOfMonth) && fresh(monthOfYear) && fresh(dayOfWeek)
    {
      minute := new bool[MinuteCount](_ => false);
      hour := new bool[HourCount](_ => false);
      dayOfMonth := new bool[DayOfMonthCount](_ => false);
      monthOfYear := new bool[MonthOfYearCount](_ => false);
      dayOfWeek := new bool[DayOfWeekCount](_ => false);
      command := "";
    }

    /** `defaultValues()`: clears all five tables and the command. */
    method DefaultValues()
      requires Valid()
      modifies this, minute, hour, dayOfMonth, monthOfYear, dayOfWeek
      ensures Valid() && IsDefaultJob(Value())
      ensures minute == old(minute) && hour == old(hour) && dayOfMonth == old(dayOfMonth)
      ensures monthOfYear == old(monthOfYear) && dayOfWeek == old(dayOfWeek)
    {
      ClearTable(minute);
      ClearTable(hour);
      ClearTable(dayOfMonth);
      ClearTable(monthOfYear);
      ClearTable(dayOfWeek);
      command := "";
    }

    /** `copyFrom(right)` (and the copying constructor and assignment): this job takes `right`'s state. */
    method CopyFrom(right: CronJob)
      requires Valid() && right.Valid()
      modifies this, minute, hour, dayOfMonth, monthOfYear, dayOfWeek
      ensures Valid() && Value() == old(right.Value())
      ensures minute == old(minute) && hour == old(hour) && dayOfMonth == old(dayOfMonth)
      ensures monthOfYear == old(monthOfYear) && dayOfWeek == old(dayOfWeek)
    {
      CopyTable(minute, right.minute);
      CopyTable(hour, right.hour);
      CopyTable(dayOfMonth, right.dayOfMonth);
      CopyTable(monthOfYear, right.monthOfYear);
      CopyTable(dayOfWeek, right.dayOfWeek);
      command := right.command;
    }

    predicate IsMinute(m: int)
      requires Valid() && ValidMinute(m)
      reads this, minute
    {
      minute[m]
    }

    /** `setMinute(m, value)`: changes the one entry and nothing else. */
    method SetMinute(m: int, value: bool)
      requires Valid() && ValidMinute(m)
      modifies minute
      ensures Valid() && minute[..] == old(minute[..])[m := value]
      ensures IsMinute(m) == value
    {
      minute[m] := value;
    }

    predicate IsHour(h: int)
      requires Valid() && ValidHour(h)
      reads this, hour
    {
      hour[h]
    }

    method SetHour(h: int, value: bool)
      requires Valid() && ValidHour(h)
      modifies hour
      ensures Valid() && hour[..] == old(hour[..])[h := value]
      ensures IsHour(h) == value
    {
      hour[h] := value;
    }

    predicate IsDayOfMonth(d: int)
      requires Valid() && ValidDayOfMonth(d)
      reads this, dayOfMonth
    {
      dayOfMonth[d]
    }

    method SetDayOfMonth(d: int, value: bool)
      requires Valid() && ValidDayOfMonth(d)
      modifies dayOfMonth
      ensures Valid() && dayOfMonth[..] == old(dayOfMonth[..])[d := value]
      ensures IsDayOfMonth(d) == value
    {
      dayOfMonth[d] := value;
    }

    predicate IsMonthOfYear(m: int)
      requires Valid() && ValidMonthOfYear(m)
      reads this, monthOfYear
    {
      monthOfYear[m]
    }

    method SetMonthOfYear(m: int, value: bool)
      requires Valid() && ValidMonthOfYear(m)
      modifies monthOfYear
      ensures Valid() && monthOfYear[..] == old(monthOfYear[..])[m := value]
      ensures IsMonthOfYear(m) == value
    {
      monthOfYear[m] := value;
    }

    predicate IsDayOfWeek(d: int)
      requires Valid() && ValidDayOfWeek(d)
      reads this, dayOfWeek
    {
      dayOfWeek[d]
    }

    method SetDayOfWeek(d: int, value: bool)
      requires Valid() && ValidDayOfWeek(d)
      modifies dayOfWeek
      ensures Valid() && dayOfWeek[..] == old(dayOfWeek[..])[d := value]
      ensures IsDayOfWeek(d) == value
    {
      dayOfWeek[d] := value;
    }

    function GetCommandStr(): string
      reads this
    {
      command
    }

    /** `setCommandStr(str)`: stores the C string `str` as the command and changes nothing else. */
    method SetCommandStr(str: CString)
      modifies this
      ensures command == str && GetCommandStr() == str
      ensures minute == old(minute) && hour == old(hour) && dayOfMonth == old(dayOfMonth)
      ensures monthOfYear == old(monthOfYear) && dayOfWeek == old(dayOfWeek)
    {
      command := str;
    }
  }

  /** After construction or `defaultValues()`, every valid argument of every table reads false. */
  lemma DefaultJobSchedulesNothing(v: CronJobValue, k: int)
    requires IsDefaultJob(v)
    ensures ValidMinute(k) ==> !v.minutes[k]
    ensures ValidHour(k) ==> !v.hours[k]
    ensures ValidDayOfMonth(k) ==> !v.daysOfMonth[k]
    ensures ValidMonthOfYear(k) ==> !v.monthsOfYear[k]
    ensures ValidDayOfWeek(k) ==> !v.daysOfWeek[k]
  {
  }

  /** `ms_cronoptions`: the `cron` section's two flags and its jobs. */
  class CronOptions {
    var sectionAvailable: bool
    var cronEnabled: bool
    var jobs: seq<CronJobValue>

    /** The default constructor: not read from a file, cron disabled, no jobs. */
    constructor ()
      ensures !sectionAvailable && !cronEnabled && jobs == []
    {
      sectionAvailable := false;
      cronEnabled := false;
      jobs := [];
    }

    /** `defaultValues()`: back to the state after construction. */
    method DefaultValues()
      modifies this
      ensures !sectionAvailable && !cronEnabled && jobs == []
    {
      sectionAvailable := false;
      cronEnabled := false;
      jobs := [];
    }

    /** `copyFrom(right)`: this section takes `right`'s flags and a copy of its jobs. */
    method CopyFrom(right: CronOptions)
      modifies this
      ensures sectionAvailable == old(right.sectionAvailable) && cronEnabled == old(right.cronEnabled)
      ensures jobs == old(right.jobs)
    {
      sectionAvailable := right.sectionAvailable;
      cronEnabled := right.cronEnabled;
      jobs := right.jobs;
    }

    function IsSectionAvailable(): bool
      reads this
    {
      sectionAvailable
    }

    method SetSectionAvailable(value: bool)
      modifies this
      ensures sectionAvailable == value && cronEnabled == old(cronEnabled) && jobs == old(jobs)
    {
      sectionAvailable := value;
    }

    function IsCronEnabled(): bool
      reads this
    {
      cronEnabled
    }

    method SetCronEnabled(value: bool)
      modifies this
      ensures cronEnabled == value && sectionAvailable == old(sectionAvailable) && jobs == old(jobs)
    {
      cronEnabled := value;
    }

    function GetNumberOfCronJobs(): nat
      reads this
    {
      |jobs|
    }

    /** `getCronJob(idx)`: defined for `0 <= idx < getNumberOfCronJobs()`. */
    function GetCronJob(idx: int): CronJobValue
      requires 0 <= idx < GetNumberOfCronJobs()
      reads this
    {
      jobs[idx]
    }

    /** `clearCronJobs()`: no job is left; the flags keep their values. */
    method ClearCronJobs()
      modifies this
      ensures GetNumberOfCronJobs() == 0
      ensures sectionAvailable == old(sectionAvailable) && cronEnabled == old(cronEnabled)
    {
      jobs := [];
    }

    /**
     * `appendCronJob(job)`: a copy of `job` becomes the new last job; earlier
     * jobs stay as they were. That a copy is stored, not the pointer, is
     * assumed: the body is not part of this model.
     */
    method AppendCronJob(job: CronJob)
      requires job.Valid()
      modifies this
      ensures jobs == old(jobs) + [job.Value()]
      ensures GetNumberOfCronJobs() == old(GetNumberOfCronJobs()) + 1
      ensures GetCronJob(GetNumberOfCronJobs() - 1) == job.Value()
      ensures forall i :: 0 <= i < old(GetNumberOfCronJobs()) ==> GetCronJob(i) == old(GetCronJob(i))
      ensures sectionAvailable == old(sectionAvailable) && cronEnabled == old(cronEnabled)
    {
      jobs := jobs + [job.Value()];
    }
  }
}
