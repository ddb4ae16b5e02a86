/**
 * The message-header pattern of the transcript parser (parser.worker.js:12):
 *
 *   date `,` time [a.m./p.m. marker] `-` author `:` body
 *
 * anchored at the start of the line only and matched case-insensitively.
 * The recogniser reads the line left to right, one regular-expression
 * element at a time, and returns the whole layout of the line it accepted
 * (the five capture groups plus the blanks between them and the unread
 * tail). Rendering a layout and reading it back are proved inverse, so the
 * recogniser accepts exactly the lines `Render` can produce from a
 * well-formed layout.
 */
module HeaderLine {
  import opened Wrappers
  import opened Text

  predicate IsDateSep(c: char) { c == '/' || c == '.' || c == '-' }

  /** `[ap]` under the case-insensitive flag. */
  predicate IsMarkerLetter(c: char) { c == 'a' || c == 'A' || c == 'p' || c == 'P' }

  /** `m` under the case-insensitive flag. */
  predicate IsMarkerM(c: char) { c == 'm' || c == 'M' }

  /** `[^:]` */
  predicate NotColon(c: char) { c != ':' }

  /** `.` */
  predicate NotTerminator(c: char) { !IsLineTerminator(c) }

  predicate DigitsBetween(s: string, lo: nat, hi: nat) { AllDigits(s) && lo <= |s| <= hi }

  // ---------------------------------------------------------------- date

  /** `\d{1,2}[\/\.-]\d{1,2}[\/\.-]\d{2,4}` */
  datatype DateToken = DateToken(day: string, sep1: char, month: string, sep2: char, year: string)

  function DateText(d: DateToken): string
  {
    d.day + ([d.sep1] + (d.month + ([d.sep2] + d.year)))
  }

  predicate DateOk(d: DateToken)
  {
    && DigitsBetween(d.day, 1, 2) && IsDateSep(d.sep1)
    && DigitsBetween(d.month, 1, 2) && IsDateSep(d.sep2)
    && DigitsBetween(d.year, 2, 4)
  }

  /** One or two digits followed by a date separator: `\d{1,2}[\/\.-]`. */
  function ParseDatePart(s: string): (r: Option<(string, char, string)>)
    ensures r.Some? ==> DigitsBetween(r.value.0, 1, 2) && IsDateSep(r.value.1)
    ensures r.Some? ==> r.value.0 + ([r.value.1] + r.value.2) == s
  {
    var digits := Span(s, IsDigit).0;
    var r1 := Span(s, IsDigit).1;
    if 1 <= |digits| <= 2 && r1 != [] && IsDateSep(r1[0]) then
      assert [r1[0]] + r1[1..] == r1;
      Some((digits, r1[0], r1[1..]))
    else
      None
  }

  lemma {:induction false} ParseDatePartText(digits: string, sep: char, rest: string)
    requires DigitsBetween(digits, 1, 2) && IsDateSep(sep)
    ensures ParseDatePart(digits + ([sep] + rest)) == Some((digits, sep, rest))
  {
    SpanOf(digits, [sep] + rest, IsDigit);
    assert ([sep] + rest)[1..] == rest;
  }

  function ParseDate(s: string): (r: Option<(DateToken, string)>)
    ensures r.Some? ==> DateOk(r.value.0) && DateText(r.value.0) + r.value.1 == s
    ensures r.Some? ==> r.value.1 == [] || !IsDigit(r.value.1[0])
  {
    var first := ParseDatePart(s);
    if first.None? then None
    else
      var second := ParseDatePart(first.value.2);
      if second.None? then None
      else
        var year := Span(second.value.2, IsDigit).0;
        var rest := Span(second.value.2, IsDigit).1;
        if !(2 <= |year| <= 4) then None
        else
          var d := DateToken(first.value.0, first.value.1, second.value.0, second.value.1, year);
          assert DateText(d) + rest == first.value.0 + ([first.value.1] + (second.value.0 + ([second.value.1] + (year + rest))));
          Some((d, rest))
  }

  lemma {:induction false} ParseDateText(d: DateToken, rest: string)
    requires DateOk(d)
    requires rest == [] || !IsDigit(rest[0])
    ensures ParseDate(DateText(d) + rest) == Some((d, rest))
  {
    var yr := d.year + rest;
    var mo := d.month + ([d.sep2] + yr);
    assert DateText(d) + rest == d.day + ([d.sep1] + mo);
    ParseDatePartText(d.day, d.sep1, mo);
    ParseDatePartText(d.month, d.sep2, yr);
    SpanOf(d.year, rest, IsDigit);
  }

  // ---------------------------------------------------------------- time

  /** `\s*(\d{1,2}:\d{2})`: the blanks after the comma, then hour and minute. */
  datatype Clock = Clock(gap: string, hour: string, minute: string)

  function ClockText(c: Clock): string
  {
    c.gap + (c.hour + ([':'] + c.minute))
  }

  predicate ClockOk(c: Clock)
  {
    AllSpaces(c.gap) && DigitsBetween(c.hour, 1, 2) && DigitsBetween(c.minute, 2, 2)
  }

  /** `\d{1,2}:\d{2}` */
  function ParseHourMinute(s: string): (r: Option<(string, string, string)>)
    ensures r.Some? ==> DigitsBetween(r.value.0, 1, 2) && DigitsBetween(r.value.1, 2, 2)
    ensures r.Some? ==> r.value.0 + ([':'] + r.value.1) + r.value.2 == s
  {
    var hour := Span(s, IsDigit).0;
    var r1 := Span(s, IsDigit).1;
    if 1 <= |hour| <= 2 && |r1| >= 3 && r1[0] == ':' && IsDigit(r1[1]) && IsDigit(r1[2]) then
      assert [':'] + r1[1..3] + r1[3..] == r1;
      Some((hour, r1[1..3], r1[3..]))
    else
      None
  }

  lemma {:induction false} ParseHourMinuteText(hour: string, minute: string, rest: string)
    requires DigitsBetween(hour, 1, 2) && DigitsBetween(minute, 2, 2)
    ensures ParseHourMinute(hour + ([':'] + (minute + rest))) == Some((hour, minute, rest))
  {
    var r1 := [':'] + (minute + rest);
    assert r1[1..3] == minute && r1[3..] == rest by {
      assert r1[1..] == minute + rest;
    }
    assert Span(hour + r1, IsDigit) == (hour, r1) by {
      SpanOf(hour, r1, IsDigit);
    }
    HourMinuteAfter(hour + r1, hour, r1);
  }

  lemma HourMinuteAfter(s: string, hour: string, r1: string)
    requires Span(s, IsDigit) == (hour, r1)
    requires 1 <= |hour| <= 2 && |r1| >= 3 && r1[0] == ':' && IsDigit(r1[1]) && IsDigit(r1[2])
    ensures ParseHourMinute(s) == Some((hour, r1[1..3], r1[3..]))
  {
  }

  function ParseClock(s: string): (r: Option<(Clock, string)>)
    ensures r.Some? ==> ClockOk(r.value.0) && ClockText(r.value.0) + r.value.1 == s
  {
    var gap := Span(s, IsSpace).0;
    var hm := ParseHourMinute(Span(s, IsSpace).1);
    if hm.None? then None
    else
      var c := Clock(gap, hm.value.0, hm.value.1);
      assert ClockText(c) + hm.value.2 == gap + (hm.value.0 + ([':'] + hm.value.1) + hm.value.2);
      Some((c, hm.value.2))
  }

  lemma {:induction false} ParseClockText(c: Clock, rest: string)
    requires ClockOk(c)
    ensures ParseClock(ClockText(c) + rest) == Some((c, rest))
  {
    var hr := c.hour + ([':'] + (c.minute + rest));
    assert ClockText(c) + rest == c.gap + hr;
    SpanOf(c.gap, hr, IsSpace);
    ParseHourMinuteText(c.hour, c.minute, rest);
  }

  // ---------------------------------------------------------------- marker and dash

  /** `[ap]\.\s*m\.\s*`: letter, dot, inner blanks, `m`, dot, trailing blanks. */
  datatype Marker = Marker(letter: char, inner: string, m: char, trailing: string)

  function MarkerText(k: Marker): string
  {
    [k.letter, '.'] + (k.inner + ([k.m, '.'] + k.trailing))
  }

  predicate MarkerOk(k: Marker)
  {
    IsMarkerLetter(k.letter) && AllSpaces(k.inner) && IsMarkerM(k.m) && AllSpaces(k.trailing)
  }

  function ParseMarker(s: string): (r: Option<(Marker, string)>)
    ensures r.Some? ==> MarkerOk(r.value.0) && MarkerText(r.value.0) + r.value.1 == s
    ensures r.Some? ==> r.value.1 == [] || !IsSpace(r.value.1[0])
  {
    if !(|s| >= 2 && IsMarkerLetter(s[0]) && s[1] == '.') then None
    else
      var inner := Span(s[2..], IsSpace).0;
      var r1 := Span(s[2..], IsSpace).1;
      if !(|r1| >= 2 && IsMarkerM(r1[0]) && r1[1] == '.') then None
      else
        var trailing := Span(r1[2..], IsSpace).0;
        var r2 := Span(r1[2..], IsSpace).1;
        MarkerPieces(s, inner, r1, trailing, r2);
        Some((Marker(s[0], inner, r1[0], trailing), r2))
  }

  lemma MarkerPieces(s: string, inner: string, r1: string, trailing: string, r2: string)
    requires |s| >= 2 && s[1] == '.' && inner + r1 == s[2..]
    requires |r1| >= 2 && r1[1] == '.' && trailing + r2 == r1[2..]
    ensures MarkerText(Marker(s[0], inner, r1[0], trailing)) + r2 == s
  {
    assert [r1[0], '.'] + r1[2..] == r1;
    assert [s[0], '.'] + s[2..] == s;
    ConcatAssoc([s[0], '.'], inner + ([r1[0], '.'] + trailing), r2);
    ConcatAssoc(inner, [r1[0], '.'] + trailing, r2);
    ConcatAssoc([r1[0], '.'], trailing, r2);
  }

  lemma {:induction false} ParseMarkerText(k: Marker, rest: string)
    requires MarkerOk(k)
    requires rest == [] || !IsSpace(rest[0])
    ensures ParseMarker(MarkerText(k) + rest) == Some((k, rest))
  {
    var tl := [k.m, '.'] + (k.trailing + rest);
    var s := [k.letter, '.'] + (k.inner + tl);
    assert MarkerText(k) + rest == s by {
      ConcatAssoc([k.letter, '.'], k.inner + ([k.m, '.'] + k.trailing), rest);
      ConcatAssoc(k.inner, [k.m, '.'] + k.trailing, rest);
      ConcatAssoc([k.m, '.'], k.trailing, rest);
    }
    assert s[2..] == k.inner + tl;
    assert Span(k.inner + tl, IsSpace) == (k.inner, tl) by { SpanOf(k.inner, tl, IsSpace); }
    assert tl[2..] == k.trailing + rest;
    assert Span(k.trailing + rest, IsSpace) == (k.trailing, rest) by { SpanOf(k.trailing, rest, IsSpace); }
    MarkerAfter(s, k.inner, tl, k.trailing, rest);
  }

  lemma MarkerAfter(s: string, inner: string, r1: string, trailing: string, r2: string)
    requires |s| >= 2 && IsMarkerLetter(s[0]) && s[1] == '.'
    requires Span(s[2..], IsSpace) == (inner, r1)
    requires |r1| >= 2 && IsMarkerM(r1[0]) && r1[1] == '.'
    requires Span(r1[2..], IsSpace) == (trailing, r2)
    ensures ParseMarker(s) == Some((Marker(s[0], inner, r1[0], trailing), r2))
  {
  }

  function MarkerPart(k: Option<Marker>): string
  {
    if k.Some? then MarkerText(k.value) else []
  }

  /** `\s*([ap]\.\s*m\.\s*)?\s*-`: the blanks after the time, the optional marker, the dash. */
  datatype Dash = Dash(gap: string, marker: Option<Marker>)

  function DashText(d: Dash): string
  {
    d.gap + (MarkerPart(d.marker) + ['-'])
  }

  predicate DashOk(d: Dash)
  {
    AllSpaces(d.gap) && (d.marker.Some? ==> MarkerOk(d.marker.value))
  }

  /**
   * The optional group is tried first; when the dash does not follow it,
   * the pattern backtracks and looks for the dash without the group.
   */
  function ParseDash(s: string): (r: Option<(Dash, string)>)
    ensures r.Some? ==> DashOk(r.value.0) && DashText(r.value.0) + r.value.1 == s
  {
    var gap := Span(s, IsSpace).0;
    var r1 := Span(s, IsSpace).1;
    var withMarker := ParseMarker(r1);
    if withMarker.Some? && withMarker.value.1 != [] && withMarker.value.1[0] == '-' then
      var (k, r2) := withMarker.value;
      assert DashText(Dash(gap, Some(k))) + r2[1..] == s by {
        assert ['-'] + r2[1..] == r2;
        ConcatAssoc(gap, MarkerText(k) + ['-'], r2[1..]);
        ConcatAssoc(MarkerText(k), ['-'], r2[1..]);
      }
      Some((Dash(gap, Some(k)), r2[1..]))
    else if r1 != [] && r1[0] == '-' then
      assert DashText(Dash(gap, None)) + r1[1..] == s by {
        assert ['-'] + r1[1..] == r1;
        assert MarkerPart(None) + ['-'] == ['-'];
        ConcatAssoc(gap, ['-'], r1[1..]);
      }
      Some((Dash(gap, None), r1[1..]))
    else
      None
  }

  lemma {:induction false} ParseDashText(d: Dash, rest: string)
    requires DashOk(d)
    ensures ParseDash(DashText(d) + rest) == Some((d, rest))
  {
    var r1 := MarkerPart(d.marker) + (['-'] + rest);
    assert DashText(d) + rest == d.gap + r1;
    assert Span(d.gap + r1, IsSpace) == (d.gap, r1) by { SpanOf(d.gap, r1, IsSpace); }
    if d.marker.Some? {
      ParseMarkerText(d.marker.value, ['-'] + rest);
    } else {
      assert r1 == ['-'] + rest;
    }
  }

  // ---------------------------------------------------------------- author

  /** `\s*([^:]+):`: the blanks after the dash, the author capture, the colon. */
  datatype Speaker = Speaker(gap: string, name: string)

  function SpeakerText(a: Speaker): string
  {
    a.gap + (a.name + [':'])
  }

  /**
   * A name that starts with a blank is one blank long: the pattern's `\s*`
   * takes every blank it can, and hands the last one back to `[^:]+` only
   * when a colon comes right after the blanks.
   */
  predicate SpeakerOk(a: Speaker)
  {
    && AllSpaces(a.gap)
    && a.name != [] && ':' !in a.name
    && (IsSpace(a.name[0]) ==> |a.name| == 1)
  }

  function ParseSpeaker(s: string): (r: Option<(Speaker, string)>)
    ensures r.Some? ==> SpeakerOk(r.value.0) && SpeakerText(r.value.0) + r.value.1 == s
  {
    var gap := Span(s, IsSpace).0;
    var r1 := Span(s, IsSpace).1;
    var name := Span(r1, NotColon).0;
    var r2 := Span(r1, NotColon).1;
    if r2 == [] then None
    else if name != [] then
      assert ':' !in name by {
        assert forall i :: 0 <= i < |name| ==> name[i] != ':';
      }
      assert SpeakerText(Speaker(gap, name)) + r2[1..] == s by {
        assert [':'] + r2[1..] == r2;
        ConcatAssoc(gap, name + [':'], r2[1..]);
        ConcatAssoc(name, [':'], r2[1..]);
      }
      Some((Speaker(gap, name), r2[1..]))
    else if gap != [] then
      var g := gap[..|gap| - 1];
      var n := [gap[|gap| - 1]];
      assert SpeakerText(Speaker(g, n)) + r2[1..] == s by {
        assert g + n == gap;
        assert r1 == r2;
        assert [':'] + r2[1..] == r2;
        ConcatAssoc(g, n + [':'], r2[1..]);
        ConcatAssoc(n, [':'], r2[1..]);
        ConcatAssoc(g, n, r2);
      }
      Some((Speaker(g, n), r2[1..]))
    else
      None
  }

  lemma {:induction false} ParseSpeakerText(a: Speaker, rest: string)
    requires SpeakerOk(a)
    ensures ParseSpeaker(SpeakerText(a) + rest) == Some((a, rest))
  {
    var r2 := [':'] + rest;
    assert SpeakerText(a) + rest == a.gap + (a.name + r2);
    if IsSpace(a.name[0]) {
      var blanks := a.gap + a.name;
      assert a.gap + (a.name + r2) == blanks + r2;
      assert AllSpaces(blanks);
      assert Span(blanks + r2, IsSpace) == (blanks, r2) by { SpanOf(blanks, r2, IsSpace); }
      assert Span(r2, NotColon) == ([], r2) by { SpanOf([], r2, NotColon); assert [] + r2 == r2; }
      assert blanks[..|blanks| - 1] == a.gap;
      assert [blanks[|blanks| - 1]] == a.name;
      SpeakerAfterBlanks(blanks + r2, blanks, r2);
    } else {
      assert Span(a.gap + (a.name + r2), IsSpace) == (a.gap, a.name + r2) by { SpanOf(a.gap, a.name + r2, IsSpace); }
      assert Span(a.name + r2, NotColon) == (a.name, r2) by { SpanOf(a.name, r2, NotColon); }
      SpeakerAfterName(a.gap + (a.name + r2), a.gap, a.name + r2, a.name, r2);
    }
  }

  lemma SpeakerAfterName(s: string, gap: string, r1: string, name: string, r2: string)
    requires Span(s, IsSpace) == (gap, r1) && Span(r1, NotColon) == (name, r2)
    requires r2 != [] && name != []
    ensures ParseSpeaker(s) == Some((Speaker(gap, name), r2[1..]))
  {
  }

  lemma SpeakerAfterBlanks(s: string, gap: string, r2: string)
    requires Span(s, IsSpace) == (gap, r2) && Span(r2, NotColon) == ([], r2)
    requires r2 != [] && gap != []
    ensures ParseSpeaker(s) == Some((Speaker(gap[..|gap| - 1], [gap[|gap| - 1]]), r2[1..]))
  {
  }

  // ---------------------------------------------------------------- body

  /** `\s*(.*)` and whatever follows it on the line. */
  datatype Tail = Tail(gap: string, body: string, rest: string)

  function TailText(t: Tail): string
  {
    t.gap + (t.body + t.rest)
  }

  predicate TailOk(t: Tail)
  {
    && AllSpaces(t.gap)
    && (forall i :: 0 <= i < |t.body| ==> !IsLineTerminator(t.body[i]))
    && (t.body != [] ==> !IsSpace(t.body[0]))
    && (t.body == [] ==> t.rest == [])
    && (t.rest == [] || IsLineTerminator(t.rest[0]))
  }

  function ParseTail(s: string): (r: Tail)
    ensures TailOk(r) && TailText(r) == s
  {
    var gap := Span(s, IsSpace).0;
    var r1 := Span(s, IsSpace).1;
    var body := Span(r1, NotTerminator).0;
    var r2 := Span(r1, NotTerminator).1;
    assert body == [] ==> r2 == [] by {
      if r1 != [] && !IsSpace(r1[0]) && IsLineTerminator(r1[0]) { TerminatorIsSpace(r1[0]); }
    }
    Tail(gap, body, r2)
  }

  lemma {:induction false} ParseTailText(t: Tail)
    requires TailOk(t)
    ensures ParseTail(TailText(t)) == t
  {
    if t.body == [] {
      assert t.body + t.rest == [];
      SpanOf(t.gap, [], IsSpace);
      SpanOf([], [], NotTerminator);
    } else {
      SpanOf(t.gap, t.body + t.rest, IsSpace);
      SpanOf(t.body, t.rest, NotTerminator);
    }
  }

  // ---------------------------------------------------------------- the whole line

  datatype Layout = Layout(date: DateToken, clock: Clock, dash: Dash, speaker: Speaker, tail: Tail)

  predicate LayoutOk(l: Layout)
  {
    DateOk(l.date) && ClockOk(l.clock) && DashOk(l.dash) && SpeakerOk(l.speaker) && TailOk(l.tail)
  }

  function Render(l: Layout): string
  {
    DateText(l.date) + ([','] + (ClockText(l.clock) + (DashText(l.dash) + (SpeakerText(l.speaker) + TailText(l.tail)))))
  }

  /** Reads a header line; `None` when the pattern does not match. */
  function ParseLayout(line: string): (r: Option<Layout>)
    ensures r.Some? ==> LayoutOk(r.value) && Render(r.value) == line
  {
    var date := ParseDate(line);
    if date.None? then None
    else
      var (d, r1) := date.value;
      if r1 == [] || r1[0] != ',' then None
      else
        assert [r1[0]] + r1[1..] == r1;
        var clock := ParseClock(r1[1..]);
        if clock.None? then None
        else
          var (c, r2) := clock.value;
          var dash := ParseDash(r2);
          if dash.None? then None
          else
            var (k, r3) := dash.value;
            var speaker := ParseSpeaker(r3);
            if speaker.None? then None
            else
              var (a, r4) := speaker.value;
              Some(Layout(d, c, k, a, ParseTail(r4)))
  }

  /** Every well-formed layout is read back exactly. */
  lemma {:induction false} ParseRender(l: Layout)
    requires LayoutOk(l)
    ensures ParseLayout(Render(l)) == Some(l)
  {
    var r4 := TailText(l.tail);
    var r3 := SpeakerText(l.speaker) + r4;
    var r2 := DashText(l.dash) + r3;
    var r1 := [','] + (ClockText(l.clock) + r2);
    ParseDateText(l.date, r1);
    assert r1[1..] == ClockText(l.clock) + r2;
    ParseClockText(l.clock, r2);
    ParseDashText(l.dash, r3);
    ParseSpeakerText(l.speaker, r4);
    ParseTailText(l.tail);
  }

  /** The five capture groups of the pattern. */
  datatype Captures = Captures(date: string, time: string, ampm: Option<string>, author: string, body: string)

  function CapturesOf(l: Layout): Captures
  {
    Captures(
      DateText(l.date),
      l.clock.hour + [':'] + l.clock.minute,
      if l.dash.marker.Some? then Some(MarkerText(l.dash.marker.value)) else None,
      l.speaker.name,
      l.tail.body)
  }

  /** `line.match(regex)` */
  function MatchHeader(line: string): (r: Option<Captures>)
    ensures r.Some? ==> r.value.author != [] && ':' !in r.value.author
    ensures r.Some? ==> forall i :: 0 <= i < |r.value.body| ==> !IsLineTerminator(r.value.body[i])
  {
    var l := ParseLayout(line);
    if l.Some? then Some(CapturesOf(l.value)) else None
  }

  /** The shortest header, `1/1/11,1:11-a:`, has fourteen characters. */
  lemma {:induction false} HeaderMinLength(line: string)
    requires MatchHeader(line).Some?
    ensures |line| >= 14
  {
    var l := ParseLayout(line).value;
    assert |DateText(l.date)| >= 6;
    assert |ClockText(l.clock)| >= 4;
    assert |DashText(l.dash)| >= 1;
    assert |SpeakerText(l.speaker)| >= 2;
  }
}
