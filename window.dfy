/** Window resolution: the interval option chosen in the UI becomes the first
    and last day of the requested history and the provider's sampling code. */
module Window {
  import opened Calendar

  const MinuteOption: string := "1분"
  const OneYearOption: string := "1년"
  const FiveYearOption: string := "5년"
  const TenYearOption: string := "10년"
  const TwentyYearOption: string := "20년"

  /** Sampling codes understood by the quote provider. */
  const MinuteCode: string := "1m"
  const DayCode: string := "1d"

  /** 1985-01-01, the fixed start of every option not matched above. */
  const HistoryFloorDay: int := 5479

  /** How many business days the minute chart reaches back. */
  const MinuteLookbackBusinessDays: nat := 3

  /** `fromDay` and `toDay` are the days behind `period1` and `period2`. */
  datatype Window = Window(fromDay: int, toDay: int, interval: string)

  predicate IsYearOption(option: string)
  {
    option in {OneYearOption, FiveYearOption, TenYearOption, TwentyYearOption}
  }

  /** The calendar-day lookback of the four year options: 365 days a year. */
  function YearLookbackDays(option: string): (days: nat)
    requires IsYearOption(option)
    ensures days == 365 * (days / 365) && days / 365 in {1, 5, 10, 20}
    ensures option == OneYearOption ==> days == 365
    ensures option == FiveYearOption ==> days == 5 * 365
    ensures option == TenYearOption ==> days == 10 * 365
    ensures option == TwentyYearOption ==> days == 20 * 365
  {
    if option == OneYearOption then 365
    else if option == FiveYearOption then 1825
    else if option == TenYearOption then 3650
    else 7300
  }

  /** `fetch_yahoo_history`'s window selection, with today's date as input. */
  function Resolve(option: string, today: int): (w: Window)
    ensures w.toDay == RollForward(today)
    ensures w.interval == MinuteCode || w.interval == DayCode
  {
    var recent := RollForward(today);
    if option == MinuteOption then
      Window(SubtractBusinessDays(recent, MinuteLookbackBusinessDays), recent, MinuteCode)
    else if option == OneYearOption then
      Window(recent - 365, recent, DayCode)
    else if option == FiveYearOption then
      Window(recent - 1825, recent, DayCode)
    else if option == TenYearOption then
      Window(recent - 3650, recent, DayCode)
    else if option == TwentyYearOption then
      Window(recent - 7300, recent, DayCode)
    else
      Window(HistoryFloorDay, recent, DayCode)
  }

  /** Minute sampling is requested for the minute option and for nothing else;
      every other option, unrecognised strings included, samples daily. */
  lemma ResolveInterval(option: string, today: int)
    ensures Resolve(option, today).interval == MinuteCode <==> option == MinuteOption
    ensures Resolve(option, today).interval == DayCode <==> option != MinuteOption
  {
  }

  /** The window ends on the recent business day, whatever the option: today
      itself on a weekday, the following Monday on a weekend. */
  lemma ResolveEnd(option: string, today: int)
    ensures var w := Resolve(option, today);
      IsBusinessDay(w.toDay) && today <= w.toDay < today + 3 &&
      (IsBusinessDay(today) ==> w.toDay == today)
  {
  }

  /** The year options start exactly 365, 1825, 3650 or 7300 calendar days
      before the recent business day. */
  lemma ResolveYearStart(option: string, today: int)
    requires IsYearOption(option)
    ensures Resolve(option, today).fromDay == RollForward(today) - YearLookbackDays(option)
  {
  }

  /** The minute option starts on a business day, and exactly three business
      days lie in [fromDay, toDay). */
  lemma ResolveMinuteStart(today: int)
    ensures var w := Resolve(MinuteOption, today);
      IsBusinessDay(w.fromDay) && CountBusinessDays(w.fromDay, w.toDay) == 3
  {
    SubtractBusinessDaysCount(RollForward(today), MinuteLookbackBusinessDays);
  }

  /** Every option not matched by an earlier branch starts at 1985-01-01,
      which is day 5479 and a Tuesday. */
  lemma ResolveFloorStart(option: string, today: int)
    requires option != MinuteOption && !IsYearOption(option)
    ensures Resolve(option, today).fromDay == HistoryFloorDay == DaysFromCivil(1985, 1, 1)
    ensures DaysFromCivil(1970, 1, 1) == 0 && Weekday(HistoryFloorDay) == 1
  {
  }

  /** The window is non-empty for the five named options; for any other option
      it is non-empty exactly when the recent business day is after 1985-01-01. */
  lemma ResolveStartBeforeEnd(option: string, today: int)
    ensures var w := Resolve(option, today);
      (option == MinuteOption || IsYearOption(option) ==> w.fromDay < w.toDay) &&
      (option != MinuteOption && !IsYearOption(option) ==>
        (w.fromDay < w.toDay <==> RollForward(today) > HistoryFloorDay))
  {
  }
}
