/** What the scanner and the directive switch of `dateToString` promise, proved
    about the reference semantics `Render` (which `DateToString` computes). */
module FormatterProperties {
  import opened JsText
  import opened DateTimeFormatter

  /** Runs the tokens `ts` on the output of an earlier run, unless that run threw. */
  function Continue(r: Result<string>, ts: seq<Token>, date: Date): Result<string> {
    match r
    case Ok(o) => Perform(ts, o, date)
    case Failure(e) => Failure(e)
  }

  /** `r` with `suffix` appended to its output, unless it threw. */
  function Then(r: Result<string>, suffix: string): Result<string> {
    match r
    case Ok(o) => Ok(o + suffix)
    case Failure(e) => Failure(e)
  }

  /** The token `t` throws for `date`: a weekday name with a weekday outside
      0..6 or a month name with a month outside 0..11. */
  predicate Throws(t: Token, date: Date) {
    t.Directive? &&
    (((t.code == 'A' || t.code == 'a') && !(0 <= date.weekday <= 6)) ||
     ((t.code == 'B' || t.code == 'b') && !(0 <= date.month <= 11)))
  }

  // ---------------------------------------------------------------------------
  // The scanner

  /** Writing the tokens back out gives the format, and a literal `%` is
      only ever the last token. */
  lemma {:induction false} UntokenizeOfTokens(format: string)
    ensures Untokenize(Tokens(format)) == format
    ensures WellFormed(Tokens(format))
  {
    if format != [] {
      if format[0] == '%' && |format| >= 2 {
        UntokenizeOfTokens(format[2..]);
        assert format == ['%', format[1]] + format[2..];
      } else {
        UntokenizeOfTokens(format[1..]);
        assert format == [format[0]] + format[1..];
        var ts := Tokens(format);
        forall k | 0 <= k < |ts| - 1 ensures ts[k] != Literal('%') {
          if k == 0 {
            assert format[0] == '%' ==> |format| == 1;
          } else {
            assert ts[k] == Tokens(format[1..])[k - 1];
          }
        }
      }
    }
  }

  /** Scanning is the inverse of writing the tokens back out. */
  lemma {:induction false} TokensOfUntokenize(ts: seq<Token>)
    requires WellFormed(ts)
    ensures Tokens(Untokenize(ts)) == ts
  {
    if ts != [] {
      var rest := Untokenize(ts[1..]);
      assert WellFormed(ts[1..]) by {
        forall k | 0 <= k < |ts[1..]| - 1 ensures ts[1..][k] != Literal('%') {
          assert ts[1..][k] == ts[k + 1];
        }
      }
      TokensOfUntokenize(ts[1..]);
      match ts[0]
      case Literal(c) =>
        var f := [c] + rest;
        assert Untokenize(ts) == f;
        assert f[1..] == rest;
        if c == '%' {
          assert |ts| == 1;
          assert rest == "";
        }
      case Directive(c) =>
        var f := ['%', c] + rest;
        assert Untokenize(ts) == f;
        assert f[2..] == rest;
    }
  }

  /** A format ends on a token boundary exactly when its last token is not a
      literal `%`. */
  lemma {:induction false} BoundaryIsLastToken(format: string)
    ensures EndsOnTokenBoundary(format) <==>
      (Tokens(format) == [] || Tokens(format)[|Tokens(format)| - 1] != Literal('%'))
  {
    if format != [] {
      var rest := if format[0] == '%' && |format| >= 2 then format[2..] else format[1..];
      BoundaryIsLastToken(rest);
    }
  }

  /** Text that ends on a token boundary is scanned independently of what follows. */
  lemma {:induction false} TokensConcat(f1: string, f2: string)
    requires EndsOnTokenBoundary(f1)
    ensures Tokens(f1 + f2) == Tokens(f1) + Tokens(f2)
  {
    var g := f1 + f2;
    if f1 == [] {
      assert g == f2;
    } else if f1[0] == '%' {
      assert g[0] == '%' && g[1] == f1[1] && g[2..] == f1[2..] + f2;
      TokensConcat(f1[2..], f2);
    } else {
      assert g[0] == f1[0] && g[1..] == f1[1..] + f2;
      TokensConcat(f1[1..], f2);
    }
  }

  /** Running two token sequences one after the other. */
  lemma {:induction false} PerformConcat(ts1: seq<Token>, ts2: seq<Token>, output: string, date: Date)
    ensures Perform(ts1 + ts2, output, date) == Continue(Perform(ts1, output, date), ts2, date)
  {
    if ts1 == [] {
      assert ts1 + ts2 == ts2;
    } else {
      assert (ts1 + ts2)[0] == ts1[0] && (ts1 + ts2)[1..] == ts1[1..] + ts2;
      match Effect(ts1[0], date)
      case Failure(e) =>
      case Ok(Append(s)) => PerformConcat(ts1[1..], ts2, output + s, date);
      case Ok(Assign(s)) => PerformConcat(ts1[1..], ts2, s, date);
    }
  }

  /** Rendering a format split at a token boundary: the second part continues
      from the output of the first, and a throw in the first part ends it. */
  lemma RenderSplit(f1: string, f2: string, date: Date)
    requires EndsOnTokenBoundary(f1)
    ensures Render(f1 + f2, date) == Continue(Render(f1, date), Tokens(f2), date)
  {
    TokensConcat(f1, f2);
    PerformConcat(Tokens(f1), Tokens(f2), "", date);
  }

  // ---------------------------------------------------------------------------
  // Literal text

  /** Characters other than `%` are copied to the output one by one. */
  lemma {:induction false} PerformPlain(text: string, output: string, date: Date)
    requires '%' !in text
    ensures Perform(Tokens(text), output, date) == Ok(output + text)
  {
    if text == [] {
      assert output + text == output;
    } else {
      assert text == [text[0]] + text[1..];
      assert '%' !in text[1..];
      PerformPlain(text[1..], output + [text[0]], date);
      assert output + [text[0]] + text[1..] == output + text;
    }
  }

  lemma {:induction false} PlainEndsOnTokenBoundary(text: string)
    requires '%' !in text
    ensures EndsOnTokenBoundary(text)
    ensures forall t :: t in Tokens(text) ==> t.Literal? && t.ch != '%'
  {
    if text != [] {
      assert '%' !in text[1..];
      PlainEndsOnTokenBoundary(text[1..]);
    }
  }

  /** A format without `%` is returned unchanged, whatever the date. */
  lemma PlainTextIdentity(format: string, date: Date)
    requires '%' !in format
    ensures Render(format, date) == Ok(format)
  {
    PerformPlain(format, "", date);
    assert "" + format == format;
  }

  /** Inserting text without `%` at a token boundary puts that text in the
      output at that point and changes nothing about the rest of the format. */
  lemma LiteralInsertion(f1: string, text: string, f2: string, date: Date)
    requires EndsOnTokenBoundary(f1) && '%' !in text
    ensures Render(f1 + text + f2, date) == Continue(Then(Render(f1, date), text), Tokens(f2), date)
  {
    assert f1 + text + f2 == f1 + (text + f2);
    RenderSplit(f1, text + f2, date);
    PlainEndsOnTokenBoundary(text);
    TokensConcat(text, f2);
    match Render(f1, date)
    case Ok(o) =>
      PerformConcat(Tokens(text), Tokens(f2), o, date);
      PerformPlain(text, o, date);
    case Failure(e) =>
  }

  // ---------------------------------------------------------------------------
  // Concatenation

  /** No token of `ts` assigns the output or throws. */
  predicate AppendsOnly(ts: seq<Token>, date: Date) {
    forall t :: t in ts ==> t != Directive('P') && t != Directive('p') && !Throws(t, date)
  }

  /** Tokens that only append add their output after whatever was there. */
  lemma {:induction false} PerformAppends(ts: seq<Token>, output: string, date: Date)
    requires AppendsOnly(ts, date)
    ensures Perform(ts, output, date).Ok? && Perform(ts, "", date).Ok?
    ensures Perform(ts, output, date).value == output + Perform(ts, "", date).value
  {
    if ts == [] {
      assert output + "" == output;
    } else {
      var t := ts[0];
      assert t in ts;
      var rest := ts[1..];
      assert AppendsOnly(rest, date) by {
        forall u | u in rest ensures u in ts {
        }
      }
      assert Effect(t, date).Ok? && Effect(t, date).value.Append?;
      var s := Effect(t, date).value.text;
      PerformAppends(rest, output + s, date);
      PerformAppends(rest, s, date);
      assert "" + s == s;
      var x := Perform(rest, "", date).value;
      assert output + s + x == output + (s + x);
    }
  }

  /** When the second part neither assigns nor throws, the rendering of a
      concatenation is the concatenation of the renderings. */
  lemma RenderConcat(f1: string, f2: string, date: Date)
    requires EndsOnTokenBoundary(f1) && AppendsOnly(Tokens(f2), date)
    ensures Render(f2, date).Ok?
    ensures Render(f1 + f2, date) == Then(Render(f1, date), Render(f2, date).value)
  {
    RenderSplit(f1, f2, date);
    match Render(f1, date)
    case Ok(o) =>
      PerformAppends(Tokens(f2), o, date);
    case Failure(e) =>
      PerformAppends(Tokens(f2), "", date);
  }

  // ---------------------------------------------------------------------------
  // Directives and the trailing `%`

  /** A format that is one directive renders as that directive's substitution. */
  lemma SingleDirective(code: char, date: Date)
    ensures Render(['%', code], date) ==
      if Dispatch(code, date).Ok? then Ok(Dispatch(code, date).value.text) else Failure(Dispatch(code, date).thrown)
  {
    var f := ['%', code];
    assert f[2..] == [];
    var ts := [Directive(code)];
    assert Tokens(f) == ts;
    assert ts[1..] == [];
    assert Effect(ts[0], date) == Dispatch(code, date);
    match Dispatch(code, date)
    case Ok(edit) =>
      assert "" + edit.text == edit.text;
      assert Perform(ts, "", date) == Perform([], edit.text, date);
    case Failure(e) =>
  }

  /** A character with no `case` after `%` gives back `%` and that character. */
  lemma UnknownDirectivePassesThrough(code: char, date: Date)
    requires code !in KnownDirectives
    ensures Render(['%', code], date) == Ok(['%', code])
  {
    SingleDirective(code, date);
    DispatchUnknown(code, date);
  }

  /** `%f`, `%z` and `%q` have no `case`. */
  lemma UnimplementedDirectives(date: Date)
    ensures Render("%f", date) == Ok("%f")
    ensures Render("%z", date) == Ok("%z")
    ensures Render("%q", date) == Ok("%q")
  {
    UnknownDirectivePassesThrough('f', date);
    UnknownDirectivePassesThrough('z', date);
    UnknownDirectivePassesThrough('q', date);
  }

  /** A `%` at the very end is copied to the output like any other literal. */
  lemma TrailingPercentKept(format: string, date: Date)
    requires EndsOnTokenBoundary(format)
    ensures Render(format + "%", date) == Then(Render(format, date), "%")
  {
    RenderSplit(format, "%", date);
    assert "%"[1..] == [];
    var ts := [Literal('%')];
    assert Tokens("%") == ts;
    assert ts[1..] == [];
    match Render(format, date)
    case Ok(o) =>
      assert Perform(ts, o, date) == Perform([], o + "%", date);
    case Failure(e) =>
  }

  /** `abc%` renders as itself. */
  lemma TrailingPercentExample(date: Date)
    ensures Render("abc%", date) == Ok("abc%")
  {
    PlainEndsOnTokenBoundary("abc");
    TrailingPercentKept("abc", date);
    PlainTextIdentity("abc", date);
    assert "abc" + "%" == "abc%";
  }

  /** `%P` and `%p` replace the whole output so far. */
  lemma MeridiemDirectives(date: Date)
    ensures Render("%P", date) == Ok(if date.hours < 12 then "am" else "pm")
    ensures Render("%p", date) == Ok(if date.hours < 12 then "AM" else "PM")
  {
    SingleDirective('P', date);
    SingleDirective('p', date);
  }

  /** Whatever a format rendered before `%P` or `%p` is lost: only a throw in
      that earlier part survives. */
  lemma AssignDiscardsEarlierOutput(f1: string, code: char, f2: string, date: Date)
    requires EndsOnTokenBoundary(f1) && (code == 'P' || code == 'p')
    ensures Render(f1 + ['%', code] + f2, date) ==
      if Render(f1, date).Failure? then Render(f1, date) else Render(['%', code] + f2, date)
  {
    var g := ['%', code] + f2;
    assert f1 + ['%', code] + f2 == f1 + g;
    RenderSplit(f1, g, date);
    assert g[0] == '%' && g[1] == code && g[2..] == f2;
    assert Tokens(g) == [Directive(code)] + Tokens(f2);
  }

  // ---------------------------------------------------------------------------
  // Throwing

  /** The message a throwing name directive throws: the weekday tables'
      for `%A` and `%a`, the month tables' for `%B` and `%b`. */
  function Message(t: Token): string {
    if t.Directive? && (t.code == 'A' || t.code == 'a') then DayError else MonthError
  }

  /** `ts[k]` is the first token of `ts` that throws. */
  predicate FirstThrow(ts: seq<Token>, k: int, date: Date) {
    0 <= k < |ts| && Throws(ts[k], date) && forall j :: 0 <= j < k ==> !Throws(ts[j], date)
  }

  /** A run throws exactly when one of its tokens throws, and then it throws
      the message of the first such token. */
  lemma {:induction false} PerformThrowsIff(ts: seq<Token>, output: string, date: Date)
    ensures Perform(ts, output, date).Failure? <==> exists t :: t in ts && Throws(t, date)
    ensures Perform(ts, output, date).Failure? ==>
      exists k :: FirstThrow(ts, k, date) && Perform(ts, output, date).thrown == Message(ts[k])
  {
    if ts != [] {
      assert forall t :: t in ts <==> t == ts[0] || t in ts[1..];
      match Effect(ts[0], date)
      case Failure(e) =>
        assert FirstThrow(ts, 0, date);
      case Ok(Append(s)) =>
        PerformThrowsIff(ts[1..], output + s, date);
        FirstThrowOfTail(ts, output + s, date);
      case Ok(Assign(s)) =>
        PerformThrowsIff(ts[1..], s, date);
        FirstThrowOfTail(ts, s, date);
    }
  }

  /** When the first token does not throw, the first throwing token of the
      rest is the first throwing token of the whole, one place further on. */
  lemma FirstThrowOfTail(ts: seq<Token>, output: string, date: Date)
    requires ts != [] && !Throws(ts[0], date)
    requires Perform(ts[1..], output, date).Failure? ==>
      exists k :: FirstThrow(ts[1..], k, date) && Perform(ts[1..], output, date).thrown == Message(ts[1..][k])
    ensures Perform(ts[1..], output, date).Failure? ==>
      exists k :: FirstThrow(ts, k, date) && Perform(ts[1..], output, date).thrown == Message(ts[k])
  {
    if Perform(ts[1..], output, date).Failure? {
      var k :| FirstThrow(ts[1..], k, date) && Perform(ts[1..], output, date).thrown == Message(ts[1..][k]);
      assert ts[k + 1] == ts[1..][k];
      forall j | 0 <= j < k + 1 ensures !Throws(ts[j], date) {
        if j > 0 {
          assert ts[j] == ts[1..][j - 1];
        }
      }
      assert FirstThrow(ts, k + 1, date);
    }
  }

  /** The formatter throws exactly when the format holds a weekday-name
      directive and the weekday is out of range, or a month-name directive
      and the month is out of range. It throws the message of the first such
      directive: only the month message when the weekday is valid, only the
      weekday message when the month is valid. */
  lemma RenderThrowsIff(format: string, date: Date)
    ensures Render(format, date).Failure? <==> exists t :: t in Tokens(format) && Throws(t, date)
    ensures Render(format, date).Failure? ==>
      exists k :: FirstThrow(Tokens(format), k, date) && Render(format, date).thrown == Message(Tokens(format)[k])
    ensures Render(format, date).Failure? ==>
      Render(format, date).thrown == DayError || Render(format, date).thrown == MonthError
    ensures Render(format, date).Failure? && 0 <= date.weekday <= 6 ==> Render(format, date).thrown == MonthError
    ensures Render(format, date).Failure? && 0 <= date.month <= 11 ==> Render(format, date).thrown == DayError
  {
    PerformThrowsIff(Tokens(format), "", date);
  }

  /** With the weekday and month a real `Date` produces, nothing throws. */
  lemma ValidDateNeverThrows(format: string, date: Date)
    requires 0 <= date.weekday <= 6 && 0 <= date.month <= 11
    ensures Render(format, date).Ok?
  {
    RenderThrowsIff(format, date);
  }

  // ---------------------------------------------------------------------------
  // Name tables and the 12-hour clock

  /** Each short name is the first three letters of the long one. */
  lemma ShortNamesArePrefixes(i: int)
    ensures 0 <= i <= 6 ==>
      |WeekdayLong(i).value| >= 3 && WeekdayShort(i).value == WeekdayLong(i).value[..3]
    ensures 0 <= i <= 11 ==>
      |MonthLong(i).value| >= 3 && MonthShort(i).value == MonthLong(i).value[..3]
  {
  }

  /** Different indices have different names. */
  lemma NamesAreDistinct(i: int, j: int)
    requires i != j
    ensures 0 <= i <= 6 && 0 <= j <= 6 ==>
      WeekdayLong(i) != WeekdayLong(j) && WeekdayShort(i) != WeekdayShort(j)
    ensures 0 <= i <= 11 && 0 <= j <= 11 ==>
      MonthLong(i) != MonthLong(j) && MonthShort(i) != MonthShort(j)
  {
  }

  /** The 12-hour hour together with the meridiem recovers the 24-hour hour. */
  lemma TwelveHourRoundTrip(h: int)
    requires 0 <= h <= 23
    ensures To24Hour(Get12Hour(h), Meridiem(h) == "PM") == h
  {
  }

  // ---------------------------------------------------------------------------
  // Numeric fields

  /** A directive that appends `Pad2(v)` renders a value in 0..99 as its two digits. */
  lemma PaddedDirective(code: char, v: int, date: Date)
    requires 0 <= v < 100 && Dispatch(code, date) == Ok(Append(Pad2(v)))
    ensures Render(['%', code], date) == Ok([DigitChar(v / 10), DigitChar(v % 10)])
  {
    SingleDirective(code, date);
    TwoDigits(v);
  }

  /** `%H`, `%M`, `%S` and `%d` render a value in 0..99 as exactly its two digits. */
  lemma PaddedFields(date: Date)
    requires 0 <= date.hours < 100 && 0 <= date.minutes < 100
    requires 0 <= date.seconds < 100 && 0 <= date.day < 100
    ensures Render("%H", date) == Ok([DigitChar(date.hours / 10), DigitChar(date.hours % 10)])
    ensures Render("%M", date) == Ok([DigitChar(date.minutes / 10), DigitChar(date.minutes % 10)])
    ensures Render("%S", date) == Ok([DigitChar(date.seconds / 10), DigitChar(date.seconds % 10)])
    ensures Render("%d", date) == Ok([DigitChar(date.day / 10), DigitChar(date.day % 10)])
  {
    PaddedDirective('H', date.hours, date);
    PaddedDirective('M', date.minutes, date);
    PaddedDirective('S', date.seconds, date);
    PaddedDirective('d', date.day, date);
  }

  /** `r` is the JavaScript decimal text of the integer `n`: its digits,
      after a minus sign when `n` is negative. */
  predicate DecimalOf(r: string, n: int) {
    if n >= 0 then AllDigits(r) && |r| >= 1 && DecimalValue(r) == n
    else |r| >= 2 && r[0] == '-' && AllDigits(r[1..]) && DecimalValue(r[1..]) == -n
  }

  /** A directive that appends the unpadded decimal text of `v` renders as
      text that reads back as `v`. */
  lemma UnpaddedDirective(code: char, v: int, date: Date)
    requires Dispatch(code, date) == Ok(Append(IntToString(v)))
    ensures Render(['%', code], date).Ok? && DecimalOf(Render(['%', code], date).value, v)
  {
    SingleDirective(code, date);
    IntToStringValue(v);
    if v < 0 {
      NatToStringValue(-v);
    }
  }

  /** `%Y` prints the full year in plain decimal, for every date. */
  lemma YearDirective(date: Date)
    ensures Render("%Y", date).Ok? && DecimalOf(Render("%Y", date).value, date.year)
  {
    UnpaddedDirective('Y', date.year, date);
    assert "%Y" == ['%', 'Y'];
  }

  /** `%e` prints the day of the month in plain decimal, without padding. */
  lemma DayOfMonthDirective(date: Date)
    ensures Render("%e", date).Ok? && DecimalOf(Render("%e", date).value, date.day)
  {
    UnpaddedDirective('e', date.day, date);
    assert "%e" == ['%', 'e'];
  }

  /** `%w` prints the weekday number in plain decimal. */
  lemma WeekdayNumberDirective(date: Date)
    ensures Render("%w", date).Ok? && DecimalOf(Render("%w", date).value, date.weekday)
  {
    UnpaddedDirective('w', date.weekday, date);
    assert "%w" == ['%', 'w'];
  }

  /** `%k` prints the hour in plain decimal, without padding. */
  lemma HourDirective(date: Date)
    ensures Render("%k", date).Ok? && DecimalOf(Render("%k", date).value, date.hours)
  {
    UnpaddedDirective('k', date.hours, date);
    assert "%k" == ['%', 'k'];
  }

  /** `%l` prints the 12-hour hour in plain decimal, without padding. */
  lemma TwelveHourDirective(date: Date)
    ensures Render("%l", date).Ok? && DecimalOf(Render("%l", date).value, Get12Hour(date.hours))
  {
    UnpaddedDirective('l', Get12Hour(date.hours), date);
    assert "%l" == ['%', 'l'];
  }

  /** `%s` prints the milliseconds since the epoch in plain decimal. */
  lemma EpochDirective(date: Date)
    ensures Render("%s", date).Ok? && DecimalOf(Render("%s", date).value, date.time)
  {
    UnpaddedDirective('s', date.time, date);
    assert "%s" == ['%', 's'];
  }

  /** `%m` is the 0-based month, padded: January is "00". */
  lemma MonthIsZeroBased(date: Date)
    requires 0 <= date.month <= 11
    ensures Render("%m", date).Ok?
    ensures var r := Render("%m", date).value; |r| == 2 && AllDigits(r) && DecimalValue(r) == date.month
    ensures date.month == 0 ==> Render("%m", date) == Ok("00")
  {
    SingleDirective('m', date);
    TwoDigits(date.month);
  }

  /** `HH:MM`: five characters, the colon at index 2. */
  lemma HourMinuteShape(date: Date)
    requires 0 <= date.hours < 100 && 0 <= date.minutes < 100
    ensures var r := HourMinute(date);
      |r| == 5 && r[2] == ':' &&
      AllDigits(r[..2]) && DecimalValue(r[..2]) == date.hours &&
      AllDigits(r[3..]) && DecimalValue(r[3..]) == date.minutes
  {
    TwoDigits(date.hours);
    TwoDigits(date.minutes);
    var r := HourMinute(date);
    assert r[..2] == Pad2(date.hours) && r[3..] == Pad2(date.minutes);
  }

  /** `%R` is `HH:MM`. */
  lemma HourMinuteLayout(date: Date)
    requires 0 <= date.hours < 100 && 0 <= date.minutes < 100
    ensures Render("%R", date).Ok?
    ensures var r := Render("%R", date).value;
      |r| == 5 && r[2] == ':' &&
      AllDigits(r[..2]) && DecimalValue(r[..2]) == date.hours &&
      AllDigits(r[3..]) && DecimalValue(r[3..]) == date.minutes
  {
    assert Render("%R", date) == Ok(HourMinute(date)) by {
      SingleDirective('R', date);
    }
    HourMinuteShape(date);
  }

  /** `HH:MM:SS`: eight characters, colons at indices 2 and 5. */
  lemma ClockTimeShape(date: Date)
    requires 0 <= date.hours < 100 && 0 <= date.minutes < 100 && 0 <= date.seconds < 100
    ensures var r := ClockTime(date);
      |r| == 8 && r[2] == ':' && r[5] == ':' &&
      AllDigits(r[..2]) && DecimalValue(r[..2]) == date.hours &&
      AllDigits(r[3..5]) && DecimalValue(r[3..5]) == date.minutes &&
      AllDigits(r[6..]) && DecimalValue(r[6..]) == date.seconds
  {
    TwoDigits(date.hours);
    TwoDigits(date.minutes);
    TwoDigits(date.seconds);
    ClockFieldsAt(Pad2(date.hours), Pad2(date.minutes), Pad2(date.seconds));
  }

  /** Where the three two-character parts of `HH:MM:SS` sit in the joined text. */
  lemma ClockFieldsAt(a: string, b: string, c: string)
    requires |a| == 2 && |b| == 2 && |c| == 2
    ensures var r := a + ":" + b + ":" + c;
      |r| == 8 && r[2] == ':' && r[5] == ':' &&
      r[..2] == a && r[3..5] == b && r[6..] == c
  {
    var r := a + ":" + b + ":" + c;
    assert r[..2] == a;
    assert r[3..5] == b;
    assert r[6..] == c;
  }

  /** `%T` is `HH:MM:SS`. */
  lemma ClockLayout(date: Date)
    requires 0 <= date.hours < 100 && 0 <= date.minutes < 100 && 0 <= date.seconds < 100
    ensures Render("%T", date).Ok?
    ensures var r := Render("%T", date).value;
      |r| == 8 && r[2] == ':' && r[5] == ':' &&
      AllDigits(r[..2]) && DecimalValue(r[..2]) == date.hours &&
      AllDigits(r[3..5]) && DecimalValue(r[3..5]) == date.minutes &&
      AllDigits(r[6..]) && DecimalValue(r[6..]) == date.seconds
  {
    assert Render("%T", date) == Ok(ClockTime(date)) by {
      SingleDirective('T', date);
    }
    ClockTimeShape(date);
  }

  /** `hh:mm:ss AM` or `hh:mm:ss PM`, where the 12-hour hour and the marker
      give back the hour of the day. */
  lemma TwelveHourTimeShape(date: Date)
    requires 0 <= date.hours <= 23 && 0 <= date.minutes < 100 && 0 <= date.seconds < 100
    ensures var r := TwelveHourTime(date);
      |r| == 11 && r[2] == ':' && r[5] == ':' && r[8] == ' ' &&
      (r[9..] == "AM" || r[9..] == "PM") &&
      AllDigits(r[..2]) && 1 <= DecimalValue(r[..2]) <= 12 &&
      To24Hour(DecimalValue(r[..2]), r[9..] == "PM") == date.hours &&
      AllDigits(r[3..5]) && DecimalValue(r[3..5]) == date.minutes &&
      AllDigits(r[6..8]) && DecimalValue(r[6..8]) == date.seconds &&
      r[..2] == Pad2(Get12Hour(date.hours))
  {
    var h12 := Get12Hour(date.hours);
    TwoDigits(h12);
    TwoDigits(date.minutes);
    TwoDigits(date.seconds);
    TwelveHourRoundTrip(date.hours);
    TimeFieldsAt(Pad2(h12), Pad2(date.minutes), Pad2(date.seconds), Meridiem(date.hours));
  }

  /** Where the four parts of `hh:mm:ss XM` sit when each is two characters long. */
  lemma TimeFieldsAt(a: string, b: string, c: string, m: string)
    requires |a| == 2 && |b| == 2 && |c| == 2 && |m| == 2
    ensures var r := a + ":" + b + ":" + c + " " + m;
      |r| == 11 && r[2] == ':' && r[5] == ':' && r[8] == ' ' &&
      r[..2] == a && r[3..5] == b && r[6..8] == c && r[9..] == m
  {
    var r := a + ":" + b + ":" + c + " " + m;
    assert r[..2] == a;
    assert r[3..5] == b;
    assert r[6..8] == c;
    assert r[9..] == m;
  }

  /** `%r` is `hh:mm:ss AM` or `hh:mm:ss PM`. */
  lemma TwelveHourClockLayout(date: Date)
    requires 0 <= date.hours <= 23 && 0 <= date.minutes < 100 && 0 <= date.seconds < 100
    ensures Render("%r", date).Ok?
    ensures var r := Render("%r", date).value;
      |r| == 11 && r[2] == ':' && r[5] == ':' && r[8] == ' ' &&
      (r[9..] == "AM" || r[9..] == "PM") &&
      AllDigits(r[..2]) && 1 <= DecimalValue(r[..2]) <= 12 &&
      To24Hour(DecimalValue(r[..2]), r[9..] == "PM") == date.hours &&
      AllDigits(r[3..5]) && DecimalValue(r[3..5]) == date.minutes &&
      AllDigits(r[6..8]) && DecimalValue(r[6..8]) == date.seconds &&
      Render("%I", date) == Ok(r[..2])
  {
    assert Render("%r", date) == Ok(TwelveHourTime(date)) by {
      SingleDirective('r', date);
    }
    assert Render("%I", date) == Ok(Pad2(Get12Hour(date.hours))) by {
      SingleDirective('I', date);
    }
    TwelveHourTimeShape(date);
  }

  /** `%y` is the last two characters of the decimal year, or all of it when
      it is shorter: a cut of the text, not the year modulo 100. */
  lemma TwoDigitYear(date: Date)
    ensures Render("%y", date).Ok?
    ensures var s := IntToString(date.year); var r := Render("%y", date).value;
      |r| == (if |s| < 2 then |s| else 2) && s == s[..|s| - |r|] + r
  {
    assert Render("%y", date) == Ok(ShortYear(date)) by {
      SingleDirective('y', date);
    }
    SliceLastTwoShape(IntToString(date.year));
  }

  /** Where the three parts of `MM/DD/YY` sit when the first two are two
      characters long. */
  lemma DateFieldsAt(a: string, b: string, y: string)
    requires |a| == 2 && |b| == 2
    ensures var r := a + "/" + b + "/" + y;
      |r| == 6 + |y| && r[2] == '/' && r[5] == '/' &&
      r[..2] == a && r[3..5] == b && r[6..] == y
  {
    var r := a + "/" + b + "/" + y;
    assert r[..2] == a;
    assert r[3..5] == b;
    assert r[6..] == y;
  }

  /** `MM/DD/` followed by the two-digit year. */
  lemma SlashDateShape(date: Date)
    requires 0 <= date.month < 100 && 0 <= date.day < 100
    ensures var r := SlashDate(date);
      |r| >= 7 && r[2] == '/' && r[5] == '/' &&
      AllDigits(r[..2]) && DecimalValue(r[..2]) == date.month &&
      AllDigits(r[3..5]) && DecimalValue(r[3..5]) == date.day &&
      r[6..] == ShortYear(date)
  {
    TwoDigits(date.month);
    TwoDigits(date.day);
    assert |ShortYear(date)| >= 1 by {
      IntToStringValue(date.year);
      SliceLastTwoShape(IntToString(date.year));
    }
    DateFieldsAt(Pad2(date.month), Pad2(date.day), ShortYear(date));
  }

  /** `%D` is the 0-based month, the day and the `%y` year, separated by slashes. */
  lemma SlashDateLayout(date: Date)
    requires 0 <= date.month < 100 && 0 <= date.day < 100
    ensures Render("%D", date).Ok?
    ensures var r := Render("%D", date).value;
      |r| >= 7 && r[2] == '/' && r[5] == '/' &&
      AllDigits(r[..2]) && DecimalValue(r[..2]) == date.month &&
      AllDigits(r[3..5]) && DecimalValue(r[3..5]) == date.day &&
      Render("%y", date) == Ok(r[6..])
  {
    assert Render("%D", date) == Ok(SlashDate(date)) by {
      SingleDirective('D', date);
    }
    assert Render("%y", date) == Ok(ShortYear(date)) by {
      SingleDirective('y', date);
    }
    SlashDateShape(date);
  }

  /** `%c`, `%x` and `%X` splice in the platform's locale renderings unchanged. */
  lemma LocaleDirectives(date: Date)
    ensures Render("%c", date) == Ok(date.localeString)
    ensures Render("%x", date) == Ok(date.localeDateString)
    ensures Render("%X", date) == Ok(date.localeTimeString)
  {
    SingleDirective('c', date);
    SingleDirective('x', date);
    SingleDirective('X', date);
  }

  // ---------------------------------------------------------------------------
  // Composite directives as sequences of simple ones

  /** Joins the renderings of `f1` and `f2` when `f1` ends on a token
      boundary and `f2` neither assigns nor throws. */
  lemma JoinRendered(f1: string, o1: string, f2: string, o2: string, date: Date)
    requires EndsOnTokenBoundary(f1) && EndsOnTokenBoundary(f2) && AppendsOnly(Tokens(f2), date)
    requires Render(f1, date) == Ok(o1) && Render(f2, date) == Ok(o2)
    ensures Render(f1 + f2, date) == Ok(o1 + o2)
    ensures EndsOnTokenBoundary(f1 + f2)
    ensures AppendsOnly(Tokens(f1), date) ==> AppendsOnly(Tokens(f1 + f2), date)
  {
    RenderConcat(f1, f2, date);
    TokensConcat(f1, f2);
    BoundaryConcat(f1, f2);
    var ts1, ts2 := Tokens(f1), Tokens(f2);
    forall t | t in ts1 + ts2 ensures t in ts1 || t in ts2 {
    }
  }

  lemma {:induction false} BoundaryConcat(f1: string, f2: string)
    requires EndsOnTokenBoundary(f1)
    ensures EndsOnTokenBoundary(f1 + f2) == EndsOnTokenBoundary(f2)
  {
    var g := f1 + f2;
    if f1 == [] {
      assert g == f2;
    } else if f1[0] == '%' {
      assert g[0] == '%' && g[2..] == f1[2..] + f2;
      BoundaryConcat(f1[2..], f2);
    } else {
      assert g[0] == f1[0] && g[1..] == f1[1..] + f2;
      BoundaryConcat(f1[1..], f2);
    }
  }

  /** A piece of format text with its rendering: literal text without `%`. */
  lemma PlainPiece(text: string, date: Date)
    requires '%' !in text
    ensures Render(text, date) == Ok(text)
    ensures EndsOnTokenBoundary(text) && AppendsOnly(Tokens(text), date)
  {
    PlainTextIdentity(text, date);
    PlainEndsOnTokenBoundary(text);
  }

  /** A piece of format text with its rendering: one directive that appends. */
  lemma DirectivePiece(code: char, date: Date)
    requires Dispatch(code, date).Ok? && Dispatch(code, date).value.Append?
    ensures Render(['%', code], date) == Ok(Dispatch(code, date).value.text)
    ensures EndsOnTokenBoundary(['%', code]) && AppendsOnly(Tokens(['%', code]), date)
  {
    SingleDirective(code, date);
    var f := ['%', code];
    assert f[2..] == [];
    assert Tokens(f) == [Directive(code)];
  }

  /** An appending directive and a separator in front of a format that
      neither assigns nor throws. */
  lemma FieldThen(code: char, t: string, sep: char, f: string, o: string, date: Date)
    requires sep != '%' && Dispatch(code, date) == Ok(Append(t))
    requires EndsOnTokenBoundary(f) && AppendsOnly(Tokens(f), date) && Render(f, date) == Ok(o)
    ensures Render(['%', code, sep] + f, date) == Ok(t + [sep] + o)
    ensures EndsOnTokenBoundary(['%', code, sep] + f) && AppendsOnly(Tokens(['%', code, sep] + f), date)
  {
    DirectivePiece(code, date);
    PlainPiece([sep], date);
    JoinRendered([sep], [sep], f, o, date);
    JoinRendered(['%', code], t, [sep] + f, [sep] + o, date);
    assert ['%', code] + ([sep] + f) == ['%', code, sep] + f;
    assert t + ([sep] + o) == t + [sep] + o;
  }

  /** Two appending directives around a separator render as their texts
      around that separator. */
  lemma TwoFields(c1: char, t1: string, sep: char, c2: char, t2: string, date: Date)
    requires sep != '%'
    requires Dispatch(c1, date) == Ok(Append(t1)) && Dispatch(c2, date) == Ok(Append(t2))
    ensures Render(['%', c1, sep, '%', c2], date) == Ok(t1 + [sep] + t2)
    ensures EndsOnTokenBoundary(['%', c1, sep, '%', c2])
    ensures AppendsOnly(Tokens(['%', c1, sep, '%', c2]), date)
  {
    DirectivePiece(c2, date);
    FieldThen(c1, t1, sep, ['%', c2], t2, date);
    assert ['%', c1, sep] + ['%', c2] == ['%', c1, sep, '%', c2];
  }

  /** Three appending directives with separators between them. */
  lemma ThreeFields(c1: char, t1: string, sep1: char, c2: char, t2: string, sep2: char,
                    c3: char, t3: string, date: Date)
    requires sep1 != '%' && sep2 != '%'
    requires Dispatch(c1, date) == Ok(Append(t1)) && Dispatch(c2, date) == Ok(Append(t2))
    requires Dispatch(c3, date) == Ok(Append(t3))
    ensures Render(['%', c1, sep1, '%', c2, sep2, '%', c3], date) == Ok(t1 + [sep1] + t2 + [sep2] + t3)
  {
    TwoFields(c2, t2, sep2, c3, t3, date);
    FieldThen(c1, t1, sep1, ['%', c2, sep2, '%', c3], t2 + [sep2] + t3, date);
    assert ['%', c1, sep1] + ['%', c2, sep2, '%', c3] == ['%', c1, sep1, '%', c2, sep2, '%', c3];
    assert t1 + [sep1] + (t2 + [sep2] + t3) == t1 + [sep1] + t2 + [sep2] + t3;
  }

  /** `%Y-%m-%d` renders as the directive text of `%F`. */
  lemma DashDateFields(date: Date)
    ensures Render(['%', 'Y', '-', '%', 'm', '-', '%', 'd'], date) == Ok(DashDate(date))
  {
    ThreeFields('Y', IntToString(date.year), '-', 'm', Pad2(date.month), '-', 'd', Pad2(date.day), date);
  }

  /** `%F` is shorthand for `%Y-%m-%d`. */
  lemma DashDateIsShorthand(date: Date)
    ensures Render("%F", date) == Render("%Y-%m-%d", date)
  {
    assert Render("%F", date) == Ok(DashDate(date)) by {
      SingleDirective('F', date);
    }
    DashDateFields(date);
    assert "%Y-%m-%d" == ['%', 'Y', '-', '%', 'm', '-', '%', 'd'];
  }

  /** `%m/%d/%y` renders as the directive text of `%D`. */
  lemma SlashDateFields(date: Date)
    ensures Render(['%', 'm', '/', '%', 'd', '/', '%', 'y'], date) == Ok(SlashDate(date))
  {
    ThreeFields('m', Pad2(date.month), '/', 'd', Pad2(date.day), '/', 'y', ShortYear(date), date);
  }

  /** `%D` is shorthand for `%m/%d/%y`. */
  lemma SlashDateIsShorthand(date: Date)
    ensures Render("%D", date) == Render("%m/%d/%y", date)
  {
    assert Render("%D", date) == Ok(SlashDate(date)) by {
      SingleDirective('D', date);
    }
    SlashDateFields(date);
    assert "%m/%d/%y" == ['%', 'm', '/', '%', 'd', '/', '%', 'y'];
  }

  /** `%H:%M:%S` renders as the directive text of `%T`. */
  lemma ClockTimeFields(date: Date)
    ensures Render(['%', 'H', ':', '%', 'M', ':', '%', 'S'], date) == Ok(ClockTime(date))
  {
    ThreeFields('H', Pad2(date.hours), ':', 'M', Pad2(date.minutes), ':', 'S', Pad2(date.seconds), date);
  }

  /** `%T` is shorthand for `%H:%M:%S`. */
  lemma ClockTimeIsShorthand(date: Date)
    ensures Render("%T", date) == Render("%H:%M:%S", date)
  {
    assert Render("%T", date) == Ok(ClockTime(date)) by {
      SingleDirective('T', date);
    }
    ClockTimeFields(date);
    assert "%H:%M:%S" == ['%', 'H', ':', '%', 'M', ':', '%', 'S'];
  }

  /** `%H:%M` renders as the directive text of `%R`. */
  lemma HourMinuteFields(date: Date)
    ensures Render(['%', 'H', ':', '%', 'M'], date) == Ok(HourMinute(date))
  {
    TwoFields('H', Pad2(date.hours), ':', 'M', Pad2(date.minutes), date);
  }

  /** `%R` is shorthand for `%H:%M`. */
  lemma HourMinuteIsShorthand(date: Date)
    ensures Render("%R", date) == Render("%H:%M", date)
  {
    assert Render("%R", date) == Ok(HourMinute(date)) by {
      SingleDirective('R', date);
    }
    HourMinuteFields(date);
    assert "%H:%M" == ['%', 'H', ':', '%', 'M'];
  }

  // ---------------------------------------------------------------------------
  // Worked examples

  /** The decimal rendering of 2024, digit by digit. */
  lemma Year2024()
    ensures IntToString(2024) == "2024"
  {
    assert DigitChar(2) == '2' && DigitChar(0) == '0' && DigitChar(4) == '4';
    assert NatToString(2) == "2";
    assert NatToString(20) == "2" + "0";
    assert NatToString(202) == "20" + "2";
    assert NatToString(2024) == "202" + "4";
  }

  /** `%Y-%m-%d` on 5 January 2024 shows the 0-based month. */
  lemma DashDateExample(date: Date)
    requires date.year == 2024 && date.month == 0 && date.day == 5
    ensures Render("%Y-%m-%d", date) == Ok("2024-00-05")
  {
    DashDateFields(date);
    Year2024();
    TwoDigits(0);
    TwoDigits(5);
    assert "%Y-%m-%d" == ['%', 'Y', '-', '%', 'm', '-', '%', 'd'];
    assert Pad2(0) == "00" && Pad2(5) == "05";
    assert DashDate(date) == "2024" + "-" + "00" + "-" + "05" == "2024-00-05";
  }

  /** `%H:%M:%S` at 00:05:09. */
  lemma ClockExample(date: Date)
    requires date.hours == 0 && date.minutes == 5 && date.seconds == 9
    ensures Render("%H:%M:%S", date) == Ok("00:05:09")
  {
    ClockTimeFields(date);
    TwoDigits(0);
    TwoDigits(5);
    TwoDigits(9);
    assert "%H:%M:%S" == ['%', 'H', ':', '%', 'M', ':', '%', 'S'];
    assert Pad2(0) == "00" && Pad2(5) == "05" && Pad2(9) == "09";
    assert ClockTime(date) == "00" + ":" + "05" + ":" + "09" == "00:05:09";
  }

  /** Midnight is 12 AM on the 12-hour clock. */
  lemma MidnightExample(date: Date)
    requires date.hours == 0
    ensures Render("%I", date) == Ok("12") && Render("%l", date) == Ok("12")
    ensures Render("%p", date) == Ok("AM")
  {
    SingleDirective('I', date);
    SingleDirective('l', date);
    SingleDirective('p', date);
    TwoDigits(12);
    assert NatToString(12) == NatToString(1) + [DigitChar(2)];
  }

  /** 13:00 is 1 PM: padded by `%I`, unpadded by `%l`. */
  lemma AfternoonExample(date: Date)
    requires date.hours == 13
    ensures Render("%I", date) == Ok("01") && Render("%l", date) == Ok("1")
    ensures Render("%P", date) == Ok("pm")
  {
    SingleDirective('I', date);
    SingleDirective('l', date);
    SingleDirective('P', date);
    TwoDigits(1);
  }

  /** Weekday 0 is Sunday; month 11 is December. */
  lemma NameExample(date: Date)
    requires date.weekday == 0 && date.month == 11
    ensures Render("%A", date) == Ok("Sunday") && Render("%a", date) == Ok("Sun")
    ensures Render("%B", date) == Ok("December") && Render("%b", date) == Ok("Dec")
  {
    SingleDirective('A', date);
    SingleDirective('a', date);
    SingleDirective('B', date);
    SingleDirective('b', date);
  }

  /** `%e` is the day without padding, `%d` the day padded to two digits. */
  lemma DayExample(date: Date)
    requires date.day == 5
    ensures Render("%e", date) == Ok("5") && Render("%d", date) == Ok("05")
  {
    SingleDirective('e', date);
    SingleDirective('d', date);
    TwoDigits(5);
  }

  /** With both the weekday and the month out of range, the directive that
      comes first decides the message. */
  lemma ThrowOrderExample(date: Date)
    requires !(0 <= date.weekday <= 6) && !(0 <= date.month <= 11)
    ensures Render("%B%A", date) == Failure(MonthError)
    ensures Render("%A%B", date) == Failure(DayError)
  {
    var ba, ab := "%B%A", "%A%B";
    assert ba[2..] == "%A" && ba[2..][2..] == [];
    assert ab[2..] == "%B" && ab[2..][2..] == [];
    assert Tokens(ba) == [Directive('B'), Directive('A')];
    assert Tokens(ab) == [Directive('A'), Directive('B')];
    RenderThrowsIff(ba, date);
    RenderThrowsIff(ab, date);
    assert Directive('B') in Tokens(ba) && Directive('A') in Tokens(ab);
  }
}
