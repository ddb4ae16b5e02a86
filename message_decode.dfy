/**
 * Turning the captures of a header line into a message
 * (parser.worker.js:21-43): the date is split into day, month and year
 * with two-digit years moved into the 2000s, the hour is converted from the
 * 12-hour clock when a marker says so, the body is trimmed and the media
 * placeholder renamed, and the time text keeps the marker. The point in
 * time is kept as its calendar fields; building a JavaScript `Date` from
 * them is not part of this model.
 */
module MessageDecode {
  import opened Wrappers
  import opened Text
  import opened HeaderLine

  /** The fields handed to `new Date(year, month - 1, day, hour, minute)`. */
  datatype Stamp = Stamp(year: nat, month: nat, day: nat, hour: nat, minute: nat)

  /** A parsed message: `{date, time, author, text, timestamp}`. */
  datatype Message = Message(date: string, time: string, author: string, text: string, stamp: Stamp)

  // ---------------------------------------------------------------- date

  function SlashFor(c: char): char
  {
    if c == '.' || c == '-' then '/' else c
  }

  /** `date.replace(/[\.-]/g, '/')` */
  function Slashed(date: string): (r: string)
    ensures |r| == |date|
  {
    if date == [] then [] else [SlashFor(date[0])] + Slashed(date[1..])
  }

  lemma {:induction false} SlashedConcat(a: string, b: string)
    ensures Slashed(a + b) == Slashed(a) + Slashed(b)
  {
    if a != [] {
      assert (a + b)[1..] == a[1..] + b;
      SlashedConcat(a[1..], b);
    } else {
      assert a + b == b;
    }
  }

  lemma {:induction false} SlashedDigits(s: string)
    requires AllDigits(s)
    ensures Slashed(s) == s
  {
    if s != [] {
      SlashedDigits(s[1..]);
    }
  }

  /** `date.replace(/[\.-]/g, '/').split('/')` */
  function DateParts(date: string): seq<string>
  {
    Split(Slashed(date), '/')
  }

  /** A two-digit year is read as `20` followed by its digits; longer years are kept. */
  function FullYear(year: string): (r: string)
    ensures AllDigits(year) ==> AllDigits(r)
  {
    if |year| == 2 then "20" + year else year
  }

  /** Day, month and (expanded) year, still as the text that was written. */
  datatype CalendarDate = CalendarDate(day: string, month: string, year: string)

  /** `const [day, month, year] = ...; const fullYear = ...` (the destructuring needs three parts). */
  function DecodeDate(date: string): CalendarDate
    requires |DateParts(date)| >= 3
  {
    var p := DateParts(date);
    CalendarDate(p[0], p[1], FullYear(p[2]))
  }

  lemma {:induction false} SlashedPart(digits: string, sep: char, rest: string)
    requires AllDigits(digits) && IsDateSep(sep)
    ensures Slashed(digits + ([sep] + rest)) == digits + (['/'] + Slashed(rest))
  {
    SlashedConcat(digits, [sep] + rest);
    SlashedConcat([sep], rest);
    SlashedDigits(digits);
    assert Slashed([sep]) == ['/'];
  }

  lemma {:induction false} SlashedDateText(d: DateToken)
    requires DateOk(d)
    ensures Slashed(DateText(d)) == Join([d.day, d.month, d.year], ['/'])
  {
    var tail := d.month + ([d.sep2] + d.year);
    var joined := d.month + (['/'] + d.year);
    assert Slashed(tail) == joined by {
      SlashedPart(d.month, d.sep2, d.year);
      SlashedDigits(d.year);
    }
    assert Slashed(DateText(d)) == d.day + (['/'] + joined) by {
      SlashedPart(d.day, d.sep1, tail);
    }
    assert Join([d.month, d.year], ['/']) == joined by {
      assert [d.month, d.year][1..] == [d.year];
      ConcatAssoc(d.month, ['/'], d.year);
    }
    assert [d.day, d.month, d.year][1..] == [d.month, d.year];
    ConcatAssoc(d.day, ['/'], joined);
  }

  /** A matched date splits into exactly its three numbers, taken as day, month, year. */
  lemma {:induction false} DecodeDateToken(d: DateToken)
    requires DateOk(d)
    ensures DateParts(DateText(d)) == [d.day, d.month, d.year]
    ensures DecodeDate(DateText(d)) == CalendarDate(d.day, d.month, FullYear(d.year))
  {
    SlashedDateText(d);
    assert '/' !in d.day && '/' !in d.month && '/' !in d.year by {
      assert !IsDigit('/');
    }
    SplitJoin([d.day, d.month, d.year], '/');
  }

  /** The numeric year: 2000 plus a two-digit year, any other year as written. */
  lemma {:induction false} FullYearValue(year: string)
    requires DigitsBetween(year, 2, 4)
    ensures AllDigits(FullYear(year))
    ensures Value(FullYear(year)) == if |year| == 2 then 2000 + Value(year) else Value(year)
  {
    if |year| == 2 {
      ValueConcat("20", year);
      assert "20"[..1] == "2";
      assert Value("20") == 20;
      assert Pow10(2) == 100;
    }
  }

  // ---------------------------------------------------------------- time

  /** `timeStr.split(':')` yields two numbers. */
  predicate ClockDecodable(time: string)
  {
    var p := Split(time, ':');
    |p| >= 2 && AllDigits(p[0]) && AllDigits(p[1])
  }

  /** `timeStr.split(':').map(Number)`, as `(hours, minutes)`. */
  function DecodeClock(time: string): (nat, nat)
    requires ClockDecodable(time)
  {
    var p := Split(time, ':');
    (Value(p[0]), Value(p[1]))
  }

  lemma {:induction false} DecodeClockToken(hour: string, minute: string)
    requires DigitsBetween(hour, 1, 2) && DigitsBetween(minute, 2, 2)
    ensures Split(hour + [':'] + minute, ':') == [hour, minute]
    ensures ClockDecodable(hour + [':'] + minute)
    ensures DecodeClock(hour + [':'] + minute) == (Value(hour), Value(minute))
  {
    assert ':' !in hour && ':' !in minute by {
      assert !IsDigit(':');
    }
    assert Join([hour, minute], [':']) == hour + [':'] + minute;
    SplitJoin([hour, minute], ':');
  }

  /**
   * The 12-hour conversion: `p.m.` before noon adds twelve hours, `a.m.` at
   * twelve is midnight. The marker is tested with `includes` on its
   * lower-cased text.
   */
  function DecodeHour(hours: nat, ampm: Option<string>): (r: nat)
    ensures ampm.None? ==> r == hours
    ensures r != hours ==> (hours < 12 && r == hours + 12) || (hours == 12 && r == 0)
  {
    if ampm.Some? then
      var lower := ToLower(ampm.value);
      if Contains(lower, "p.m.") && hours < 12 then hours + 12
      else if Contains(lower, "a.m.") && hours == 12 then 0
      else hours
    else
      hours
  }

  /** Past the first character a marker holds only dots, `m`/`M` and blanks. */
  lemma {:induction false} MarkerTail(k: Marker, i: int)
    requires MarkerOk(k) && 1 <= i < |MarkerText(k)|
    ensures var c := LowerChar(MarkerText(k)[i]); c != 'a' && c != 'p'
    ensures i == 2 ==> (LowerChar(MarkerText(k)[i]) == 'm' <==> k.inner == [])
  {
    var t := MarkerText(k);
    var rest := k.inner + ([k.m, '.'] + k.trailing);
    assert t == [k.letter, '.'] + rest;
    if i >= 2 {
      var j := i - 2;
      assert t[i] == rest[j];
      if j < |k.inner| {
        assert rest[j] == k.inner[j];
      } else {
        var tl := [k.m, '.'] + k.trailing;
        assert rest[j] == tl[j - |k.inner|];
        if j - |k.inner| >= 2 {
          assert tl[j - |k.inner|] == k.trailing[j - |k.inner| - 2];
        }
      }
    }
  }

  /**
   * The lower-cased marker contains `p.m.` (`a.m.`) exactly when its letter
   * is `p` (`a`) and no blank separates the dot from the `m`.
   */
  lemma {:induction false} MarkerConversion(k: Marker)
    requires MarkerOk(k)
    ensures Contains(ToLower(MarkerText(k)), "p.m.") <==> LowerChar(k.letter) == 'p' && k.inner == []
    ensures Contains(ToLower(MarkerText(k)), "a.m.") <==> LowerChar(k.letter) == 'a' && k.inner == []
  {
    var s := ToLower(MarkerText(k));
    MarkerLowerFront(k);
    forall i | 1 <= i < |s| ensures s[i] != 'p' && s[i] != 'a' {
      MarkerTail(k, i);
    }
    ContainsOnlyAtFront(s, "p.m.");
    ContainsOnlyAtFront(s, "a.m.");
  }

  /** The first four characters of a lower-cased marker. */
  lemma {:induction false} MarkerLowerFront(k: Marker)
    requires MarkerOk(k)
    ensures var s := ToLower(MarkerText(k));
      && |s| >= 4 && s[0] == LowerChar(k.letter) && s[1] == '.'
      && (s[2] == 'm' <==> k.inner == [])
      && (k.inner == [] ==> s[3] == '.')
  {
    var t := MarkerText(k);
    MarkerTail(k, 2);
    if k.inner == [] {
      assert t == [k.letter, '.', k.m, '.'] + k.trailing;
    }
  }

  /** The conversion as it depends on the marker's spelling. */
  lemma {:induction false} DecodeHourWithMarker(hours: nat, k: Marker)
    requires MarkerOk(k)
    ensures DecodeHour(hours, Some(MarkerText(k))) ==
      if k.inner == [] && LowerChar(k.letter) == 'p' && hours < 12 then hours + 12
      else if k.inner == [] && LowerChar(k.letter) == 'a' && hours == 12 then 0
      else hours
  {
    MarkerConversion(k);
  }

  /** A marker written with a blank inside (`p. m.`) leaves the hour as written. */
  lemma {:induction false} SpacedMarkerKeepsHour(hours: nat, k: Marker)
    requires MarkerOk(k) && k.inner != []
    ensures DecodeHour(hours, Some(MarkerText(k))) == hours
  {
    DecodeHourWithMarker(hours, k);
  }

  /** A 12-hour reading `1..12` with `a.m.`/`p.m.` becomes the morning/afternoon hour of the same clock position. */
  lemma {:induction false} TwelveHourClock(hours: nat, k: Marker)
    requires MarkerOk(k) && k.inner == [] && 1 <= hours <= 12
    ensures var h := DecodeHour(hours, Some(MarkerText(k)));
      && h % 12 == hours % 12
      && (LowerChar(k.letter) == 'p' ==> 12 <= h <= 23)
      && (LowerChar(k.letter) == 'a' ==> 0 <= h <= 11)
  {
    DecodeHourWithMarker(hours, k);
    assert LowerChar(k.letter) == 'a' || LowerChar(k.letter) == 'p';
  }

  /** Whatever the marker text, an hour from a 12-hour clock stays within the day. */
  lemma {:induction false} DecodeHourInDay(hours: nat, ampm: Option<string>)
    requires 1 <= hours <= 12
    ensures 0 <= DecodeHour(hours, ampm) <= 23
  {
  }

  // ---------------------------------------------------------------- body and time text

  const MediaPlaceholder: string := "<multimedia omitido>"

  const MediaLabel: string := "Multimedia omitido"

  /** The stored message text: the trimmed body, or `Multimedia omitido` for the media placeholder. */
  function NormalizeBody(body: string): (r: string)
    ensures r == [] || (!IsSpace(r[0]) && !IsSpace(r[|r| - 1]))
  {
    var t := Trim(body);
    if ToLower(t) == MediaPlaceholder then
      assert !IsSpace(MediaLabel[0]) && !IsSpace(MediaLabel[|MediaLabel| - 1]);
      MediaLabel
    else t
  }

  /** The placeholder is recognised in any letter case and with any blank padding. */
  lemma {:induction false} PlaceholderAnyCase(pre: string, x: string, post: string)
    requires AllSpaces(pre) && AllSpaces(post)
    requires ToLower(x) == MediaPlaceholder
    ensures NormalizeBody(pre + x + post) == MediaLabel
  {
    assert LowerChar(x[0]) == '<' && LowerChar(x[|x| - 1]) == '>';
    TrimPadded(pre, x, post);
  }

  /** Any other body is stored as written, with only its blank padding removed. */
  lemma {:induction false} OrdinaryBodyTrimmed(pre: string, x: string, post: string)
    requires AllSpaces(pre) && AllSpaces(post)
    requires x == [] || (!IsSpace(x[0]) && !IsSpace(x[|x| - 1]))
    requires x == [] ==> post == []
    requires ToLower(x) != MediaPlaceholder
    ensures NormalizeBody(pre + x + post) == x
  {
    TrimPadded(pre, x, post);
  }

  /** The label that replaces the placeholder is itself stored unchanged. */
  lemma LabelStable()
    ensures NormalizeBody(MediaLabel) == MediaLabel
  {
    assert Trim(MediaLabel) == MediaLabel by {
      assert MediaLabel == [] + MediaLabel + [];
      TrimPadded([], MediaLabel, []);
    }
    assert |ToLower(MediaLabel)| != |MediaPlaceholder|;
  }

  /** Normalising a stored text again changes nothing. */
  lemma {:induction false} NormalizeBodyIdempotent(body: string)
    ensures NormalizeBody(NormalizeBody(body)) == NormalizeBody(body)
  {
    if ToLower(Trim(body)) == MediaPlaceholder {
      LabelStable();
    } else {
      TrimIdempotent(body);
    }
  }

  /** `timeStr + (ampmStr ? ' ' + ampmStr.trim() : '')` */
  function TimeField(time: string, ampm: Option<string>): string
  {
    time + (if ampm.Some? then " " + Trim(ampm.value) else "")
  }

  /** The time text keeps the marker as written, less its trailing blanks. */
  lemma {:induction false} TimeFieldOfMarker(time: string, k: Marker)
    requires MarkerOk(k)
    ensures TimeField(time, Some(MarkerText(k))) == time + " " + ([k.letter, '.'] + k.inner + [k.m, '.'])
  {
    var core := [k.letter, '.'] + k.inner + [k.m, '.'];
    assert MarkerText(k) == [] + core + k.trailing;
    TrimPadded([], core, k.trailing);
  }

  // ---------------------------------------------------------------- the whole header

  predicate Decodable(c: Captures)
  {
    var p := DateParts(c.date);
    && |p| >= 3 && AllDigits(p[0]) && AllDigits(p[1]) && AllDigits(p[2])
    && ClockDecodable(c.time)
  }

  /** The message a header line opens (parser.worker.js:21-43). */
  function OpenMessage(c: Captures): Message
    requires Decodable(c)
  {
    var cal := DecodeDate(c.date);
    var clock := DecodeClock(c.time);
    Message(
      c.date,
      TimeField(c.time, c.ampm),
      Trim(c.author),
      NormalizeBody(c.body),
      Stamp(Value(cal.year), Value(cal.month), Value(cal.day), DecodeHour(clock.0, c.ampm), clock.1))
  }

  /** What a well-formed header line decodes to, field by field. */
  lemma {:induction false} DecodeLayout(l: Layout)
    requires LayoutOk(l)
    ensures Decodable(CapturesOf(l))
    ensures var m := OpenMessage(CapturesOf(l));
      && m.date == DateText(l.date)
      && m.time == TimeField(l.clock.hour + [':'] + l.clock.minute, CapturesOf(l).ampm)
      && m.author == Trim(l.speaker.name)
      && m.text == NormalizeBody(l.tail.body)
      && m.stamp.year == (if |l.date.year| == 2 then 2000 + Value(l.date.year) else Value(l.date.year))
      && m.stamp.month == Value(l.date.month)
      && m.stamp.day == Value(l.date.day)
      && m.stamp.hour == DecodeHour(Value(l.clock.hour), CapturesOf(l).ampm)
      && m.stamp.minute == Value(l.clock.minute)
  {
    DecodeDateToken(l.date);
    DecodeClockToken(l.clock.hour, l.clock.minute);
    FullYearValue(l.date.year);
  }

  /** Every line the pattern accepts can be decoded. */
  lemma {:induction false} MatchedDecodable(line: string)
    requires MatchHeader(line).Some?
    ensures Decodable(MatchHeader(line).value)
  {
    DecodeLayout(ParseLayout(line).value);
  }
}
