/** `dateToString(format, date)`: a strftime-style directive interpreter.
    The pure parts (the name tables, the 12-hour conversion and the directive
    switch) are functions; the scanner itself is the method `DateToString`,
    proved equal to the reference semantics `Render`. */
module DateTimeFormatter {
  import opened JsText

  /** A value, or the string that `_getWeekdayLong`, `_getWeekdayShort`,
      `_getMonthLong` or `_getMonthShort` throws. */
  datatype Result<T> = Ok(value: T) | Failure(thrown: string)

  /** The fields of a JavaScript `Date` that the formatter reads. The three
      locale renderings come from the host platform and are opaque here. */
  datatype Date = Date(
    year: int,                // getFullYear()
    month: int,               // getMonth(): 0 is January
    day: int,                 // getDate(): day of the month
    weekday: int,             // getDay(): 0 is Sunday
    hours: int,               // getHours()
    minutes: int,             // getMinutes()
    seconds: int,             // getSeconds()
    time: int,                // getTime(): milliseconds since the epoch
    localeString: string,     // toLocaleString()
    localeDateString: string, // toLocaleDateString()
    localeTimeString: string  // toLocaleTimeString()
  )

  const DayError: string := "Illegal value for dayAsInt."
  const MonthError: string := "Illegal value for monthAsInt."

  // ---------------------------------------------------------------------------
  // Name tables

  function WeekdayLong(dayAsInt: int): (r: Result<string>)
    ensures r.Ok? <==> 0 <= dayAsInt <= 6
    ensures r.Failure? ==> r.thrown == DayError
  {
    match dayAsInt
    case 0 => Ok("Sunday")
    case 1 => Ok("Monday")
    case 2 => Ok("Tuesday")
    case 3 => Ok("Wednesday")
    case 4 => Ok("Thursday")
    case 5 => Ok("Friday")
    case 6 => Ok("Saturday")
    case _ => Failure(DayError)
  }

  function WeekdayShort(dayAsInt: int): (r: Result<string>)
    ensures r.Ok? <==> 0 <= dayAsInt <= 6
    ensures r.Failure? ==> r.thrown == DayError
  {
    match dayAsInt
    case 0 => Ok("Sun")
    case 1 => Ok("Mon")
    case 2 => Ok("Tue")
    case 3 => Ok("Wed")
    case 4 => Ok("Thu")
    case 5 => Ok("Fri")
    case 6 => Ok("Sat")
    case _ => Failure(DayError)
  }

  function MonthLong(monthAsInt: int): (r: Result<string>)
    ensures r.Ok? <==> 0 <= monthAsInt <= 11
    ensures r.Failure? ==> r.thrown == MonthError
  {
    match monthAsInt
    case 0 => Ok("January")
    case 1 => Ok("February")
    case 2 => Ok("March")
    case 3 => Ok("April")
    case 4 => Ok("May")
    case 5 => Ok("June")
    case 6 => Ok("July")
    case 7 => Ok("August")
    case 8 => Ok("September")
    case 9 => Ok("October")
    case 10 => Ok("November")
    case 11 => Ok("December")
    case _ => Failure(MonthError)
  }

  function MonthShort(monthAsInt: int): (r: Result<string>)
    ensures r.Ok? <==> 0 <= monthAsInt <= 11
    ensures r.Failure? ==> r.thrown == MonthError
  {
    match monthAsInt
    case 0 => Ok("Jan")
    case 1 => Ok("Feb")
    case 2 => Ok("Mar")
    case 3 => Ok("Apr")
    case 4 => Ok("May")
    case 5 => Ok("Jun")
    case 6 => Ok("Jul")
    case 7 => Ok("Aug")
    case 8 => Ok("Sep")
    case 9 => Ok("Oct")
    case 10 => Ok("Nov")
    case 11 => Ok("Dec")
    case _ => Failure(MonthError)
  }

  // ---------------------------------------------------------------------------
  // 12-hour clock

  /** The hour on a 12-hour clock face: 0 becomes 12, hours after noon drop
      by 12, everything else is returned as it is. */
  function Get12Hour(hourAsInt: int): (r: int)
    ensures r % 12 == hourAsInt % 12
    ensures 0 <= hourAsInt <= 23 ==> 1 <= r <= 12
    ensures 1 <= hourAsInt <= 12 ==> r == hourAsInt
    ensures hourAsInt > 12 ==> r == hourAsInt - 12
  {
    if hourAsInt > 12 then hourAsInt - 12
    else if hourAsInt == 0 then 12
    else hourAsInt
  }

  /** The 24-hour reading of a 12-hour clock time and its meridiem. */
  function To24Hour(hour12: int, afternoon: bool): int {
    hour12 % 12 + if afternoon then 12 else 0
  }

  /** The marker of `%p` and `%r`. */
  function Meridiem(hours: int): string {
    if hours < 12 then "AM" else "PM"
  }

  /** The marker of `%P`. */
  function LowerMeridiem(hours: int): string {
    if hours < 12 then "am" else "pm"
  }

  // ---------------------------------------------------------------------------
  // The composite substitutions of the switch

  /** `%D`: padded 0-based month, padded day, two-digit year. */
  function SlashDate(date: Date): string {
    Pad2(date.month) + "/" + Pad2(date.day) + "/" + ShortYear(date)
  }

  /** `%F`: full year, padded 0-based month, padded day. */
  function DashDate(date: Date): string {
    IntToString(date.year) + "-" + Pad2(date.month) + "-" + Pad2(date.day)
  }

  /** `%R`. */
  function HourMinute(date: Date): string {
    Pad2(date.hours) + ":" + Pad2(date.minutes)
  }

  /** `%T`. */
  function ClockTime(date: Date): string {
    Pad2(date.hours) + ":" + Pad2(date.minutes) + ":" + Pad2(date.seconds)
  }

  /** `%r`: padded 12-hour hour, minutes, seconds and the AM/PM marker. */
  function TwelveHourTime(date: Date): string {
    Pad2(Get12Hour(date.hours)) + ":" + Pad2(date.minutes) + ":" + Pad2(date.seconds) + " " + Meridiem(date.hours)
  }

  /** `%y` and the year of `%D`: `getFullYear().toString().slice(-2)`. */
  function ShortYear(date: Date): string {
    SliceLastTwo(IntToString(date.year))
  }

  // ---------------------------------------------------------------------------
  // The directive switch

  /** What one case of the switch does to the output: every case appends,
      except `%P` and `%p`, whose `=+` assigns. */
  datatype Edit = Append(text: string) | Assign(text: string)

  /** The directive characters that have a `case`. */
  const KnownDirectives: set<char> :=
    {'A', 'B', 'D', 'F', 'H', 'I', 'M', 'P', 'R', 'S', 'T', 'X', 'Y', 'a', 'b', 'c', 'd', 'e', 'k', 'l', 'm', 'p', 'r', 's', 'w', 'x', 'y'}

  function AppendOf(r: Result<string>): Result<Edit> {
    match r
    case Ok(s) => Ok(Append(s))
    case Failure(e) => Failure(e)
  }

  /** The substitution for `%` followed by `code`. */
  function Dispatch(code: char, date: Date): (r: Result<Edit>)
    ensures r.Ok? && r.value.Assign? <==> code == 'P' || code == 'p'
    ensures r.Failure? <==>
      ((code == 'A' || code == 'a') && !(0 <= date.weekday <= 6)) ||
      ((code == 'B' || code == 'b') && !(0 <= date.month <= 11))
  {
    match code
    case 'A' => AppendOf(WeekdayLong(date.weekday))
    case 'B' => AppendOf(MonthLong(date.month))
    case 'D' => Ok(Append(SlashDate(date)))
    case 'F' => Ok(Append(DashDate(date)))
    case 'H' => Ok(Append(Pad2(date.hours)))
    case 'I' => Ok(Append(Pad2(Get12Hour(date.hours))))
    case 'M' => Ok(Append(Pad2(date.minutes)))
    case 'P' => Ok(Assign(LowerMeridiem(date.hours)))
    case 'R' => Ok(Append(HourMinute(date)))
    case 'S' => Ok(Append(Pad2(date.seconds)))
    case 'T' => Ok(Append(ClockTime(date)))
    case 'X' => Ok(Append(date.localeTimeString))
    case 'Y' => Ok(Append(IntToString(date.year)))
    case 'a' => AppendOf(WeekdayShort(date.weekday))
    case 'b' => AppendOf(MonthShort(date.month))
    case 'c' => Ok(Append(date.localeString))
    case 'd' => Ok(Append(Pad2(date.day)))
    case 'e' => Ok(Append(IntToString(date.day)))
    case 'k' => Ok(Append(IntToString(date.hours)))
    case 'l' => Ok(Append(IntToString(Get12Hour(date.hours))))
    case 'm' => Ok(Append(Pad2(date.month)))
    case 'p' => Ok(Assign(Meridiem(date.hours)))
    case 'r' => Ok(Append(TwelveHourTime(date)))
    case 's' => Ok(Append(IntToString(date.time)))
    case 'w' => Ok(Append(IntToString(date.weekday)))
    case 'x' => Ok(Append(date.localeDateString))
    case 'y' => Ok(Append(ShortYear(date)))
    case _ => Ok(Append(['%', code]))
  }

  /** A character without a `case` comes back as `%` and itself. */
  lemma DispatchUnknown(code: char, date: Date)
    requires code !in KnownDirectives
    ensures Dispatch(code, date) == Ok(Append(['%', code]))
  {
  }

  // ---------------------------------------------------------------------------
  // Reference semantics: the format as a sequence of tokens

  /** A literal character, or `%` together with the character after it. */
  datatype Token = Literal(ch: char) | Directive(code: char)

  function TokenText(t: Token): string {
    match t
    case Literal(c) => [c]
    case Directive(c) => ['%', c]
  }

  function Untokenize(ts: seq<Token>): string {
    if ts == [] then "" else TokenText(ts[0]) + Untokenize(ts[1..])
  }

  /** A literal `%` can only be the last token: anywhere else it would have
      begun a directive. */
  predicate WellFormed(ts: seq<Token>) {
    forall k :: 0 <= k < |ts| - 1 ==> ts[k] != Literal('%')
  }

  /** The scanner's reading of a format: a `%` with a character after it is a
      directive, anything else (a trailing `%` included) is a literal. */
  function Tokens(format: string): seq<Token> {
    if format == [] then []
    else if format[0] == '%' && |format| >= 2 then [Directive(format[1])] + Tokens(format[2..])
    else [Literal(format[0])] + Tokens(format[1..])
  }

  /** True when `format` does not end in an unpaired `%`, so that whatever
      follows it is scanned on its own. */
  predicate EndsOnTokenBoundary(format: string) {
    if format == [] then true
    else if format[0] == '%' then |format| >= 2 && EndsOnTokenBoundary(format[2..])
    else EndsOnTokenBoundary(format[1..])
  }

  function Effect(t: Token, date: Date): Result<Edit> {
    match t
    case Literal(c) => Ok(Append([c]))
    case Directive(c) => Dispatch(c, date)
  }

  /** The output after applying the tokens `ts` in order to `output`; the
      first throwing lookup ends the run. */
  function Perform(ts: seq<Token>, output: string, date: Date): Result<string> {
    if ts == [] then Ok(output)
    else
      match Effect(ts[0], date)
      case Failure(e) => Failure(e)
      case Ok(Append(s)) => Perform(ts[1..], output + s, date)
      case Ok(Assign(s)) => Perform(ts[1..], s, date)
  }

  /** What `dateToString(format, date)` returns or throws. */
  function Render(format: string, date: Date): Result<string> {
    Perform(Tokens(format), "", date)
  }

  /** The unscanned rest of the format; the index runs one past the end
      after a trailing `%`. */
  function Rest(format: string, i: nat): string {
    if i <= |format| then format[i..] else ""
  }

  /** One step of the scanner at position `i`. */
  lemma TokensAt(format: string, i: nat)
    requires i < |format|
    ensures Tokens(format[i..]) ==
      if format[i] == '%' && i + 1 < |format| then [Directive(format[i + 1])] + Tokens(format[i + 2..])
      else [Literal(format[i])] + Tokens(format[i + 1..])
  {
    var f := format[i..];
    assert f[0] == format[i];
    if format[i] == '%' && i + 1 < |format| {
      assert f[1] == format[i + 1] && f[2..] == format[i + 2..];
    } else {
      assert f[1..] == format[i + 1..];
    }
  }

  // ---------------------------------------------------------------------------
  // The scanner

  /** The loop of `dateToString`: copy characters, and replace `%` plus the
      next character by its substitution. The `new Date()` default of
      `dateToString`'s `date` parameter is not modelled; the date is always
      passed in. */
  method DateToString(format: string, date: Date) returns (r: Result<string>)
    ensures r == Render(format, date)
  {
    var length := |format|;
    var i := 0;
    var output := "";
    while i < length
      invariant 0 <= i <= length + 1
      invariant Perform(Tokens(Rest(format, i)), output, date) == Render(format, date)
      decreases length + 1 - i
    {
      TokensAt(format, i);
      var ch := format[i];
      var isDirective := false;
      if ch == '%' {
        i := i + 1;
        isDirective := i < length;
      }
      if isDirective {
        match Dispatch(format[i], date)
        case Failure(e) =>
          return Failure(e);
        case Ok(Append(s)) =>
          output := output + s;
        case Ok(Assign(s)) =>
          output := s;
      } else {
        output := output + [ch];
      }
      i := i + 1;
    }
    return Ok(output);
  }
}
