/**
 * The display helpers of app.js: the response-time text `formatTime`
 * (app.js:235-242), the percent and emoji of the sentiment meter
 * (app.js:245-253) and the PDF file name `getSmartFilename`
 * (app.js:652-660).
 */
module ReportFormat {
  import opened Wrappers
  import opened Text

  // ---------------------------------------------------------------- formatTime

  /**
   * `formatTime(seconds)`: `'N/A'` for a missing or zero value, then
   * seconds, whole minutes, or hours and minutes. `None` stands for the
   * `undefined` or `null` the caller may pass; the seconds are whole.
   */
  function FormatTime(seconds: Option<int>): (r: string)
    ensures r != []
  {
    if seconds.None? || seconds.value == 0 then "N/A"
    else
      var s := seconds.value;
      if s < 60 then IntToString(s) + "s"
      else
        var min := s / 60;
        if min < 60 then NatToString(min) + " min"
        else NatToString(min / 60) + "h " + NatToString(min % 60) + "m"
  }

  /** The text is `N/A` exactly when the value is missing or zero. */
  lemma {:induction false} FormatTimeMissing(seconds: Option<int>)
    ensures FormatTime(seconds) == "N/A" <==> seconds.None? || seconds.value == 0
  {
    var r := FormatTime(seconds);
    if seconds.Some? && seconds.value != 0 {
      assert r[|r| - 1] != 'A';
    }
  }

  /** Under a minute, the seconds themselves, negative values included. */
  lemma {:induction false} FormatTimeSeconds(s: int)
    requires s != 0 && s < 60
    ensures FormatTime(Some(s)) == IntToString(s) + "s"
  {
  }

  /** From one minute up to an hour: the whole minutes, the leftover seconds dropped. */
  lemma {:induction false} FormatTimeMinutes(m: nat, sec: nat)
    requires 1 <= m < 60 && sec < 60
    ensures FormatTime(Some(m * 60 + sec)) == NatToString(m) + " min"
  {
    DivideBySixty(m, sec);
  }

  /** From an hour on: the hours and the minutes past the hour, the leftover seconds dropped. */
  lemma {:induction false} FormatTimeHours(h: nat, m: nat, sec: nat)
    requires 1 <= h && m < 60 && sec < 60
    ensures FormatTime(Some(h * 3600 + m * 60 + sec)) == NatToString(h) + "h " + NatToString(m) + "m"
  {
    assert h * 3600 + m * 60 + sec == (h * 60 + m) * 60 + sec;
    DivideBySixty(h * 60 + m, sec);
    DivideBySixty(h, m);
  }

  lemma {:induction false} DivideBySixty(q: nat, rest: nat)
    requires rest < 60
    ensures (q * 60 + rest) / 60 == q && (q * 60 + rest) % 60 == rest
  {
  }

  // ---------------------------------------------------------------- sentiment meter

  /** `50 + score * 2`, brought into the track `[0, 100]`. */
  function MeterPercent(score: int): (p: int)
    ensures 0 <= p <= 100
    ensures p == 50 + 2 * score || (p == 0 && 50 + 2 * score < 0) || (p == 100 && 50 + 2 * score > 100)
  {
    if 50 + 2 * score < 0 then 0 else if 50 + 2 * score > 100 then 100 else 50 + 2 * score
  }

  /** A higher score never moves the meter down. */
  lemma {:induction false} MeterPercentMonotone(a: int, b: int)
    requires a <= b
    ensures MeterPercent(a) <= MeterPercent(b)
  {
  }

  /** The five faces of the meter, from the lowest band to the highest. */
  datatype Mood = Furious | Annoyed | Neutral | Pleased | Delighted
  {
    function Emoji(): string
    {
      match this
      case Furious => "\U{1F621}"
      case Annoyed => "\U{1F612}"
      case Neutral => "\U{1F610}"
      case Pleased => "\U{1F642}"
      case Delighted => "\U{1F60D}"
    }

    function Level(): nat
    {
      match this
      case Furious => 0
      case Annoyed => 1
      case Neutral => 2
      case Pleased => 3
      case Delighted => 4
    }
  }

  /** The band a percent falls in; the lowest bands take precedence, as the later checks of the meter do. */
  function MoodOf(percent: int): (m: Mood)
    ensures m == Furious <==> percent < 20
    ensures m == Annoyed <==> 20 <= percent < 40
    ensures m == Neutral <==> 40 <= percent <= 60
    ensures m == Pleased <==> 60 < percent <= 80
    ensures m == Delighted <==> 80 < percent
  {
    if percent < 20 then Furious
    else if percent < 40 then Annoyed
    else if percent > 80 then Delighted
    else if percent > 60 then Pleased
    else Neutral
  }

  /** A higher percent never shows a lower face. */
  lemma {:induction false} MoodMonotone(a: int, b: int)
    requires a <= b
    ensures MoodOf(a).Level() <= MoodOf(b).Level()
  {
  }

  /** Each face is shown for one band only, so the face tells the band. */
  lemma {:induction false} EmojiDistinct(m: Mood, n: Mood)
    requires m.Emoji() == n.Emoji()
    ensures m == n
  {
    assert m.Emoji()[0] == n.Emoji()[0];
  }

  /**
   * The meter's percent and face: the percent is clamped step by step, then
   * each check may override the face chosen by the previous ones.
   */
  method MeterReading(score: int) returns (percent: int, emoji: string)
    ensures percent == MeterPercent(score)
    ensures emoji == MoodOf(percent).Emoji()
  {
    percent := 50 + score * 2;
    if percent < 0 {
      percent := 0;
    }
    if percent > 100 {
      percent := 100;
    }
    emoji := "\U{1F610}";
    if percent > 60 {
      emoji := "\U{1F642}";
    }
    if percent > 80 {
      emoji := "\U{1F60D}";
    }
    if percent < 40 {
      emoji := "\U{1F612}";
    }
    if percent < 20 {
      emoji := "\U{1F621}";
    }
  }

  // ---------------------------------------------------------------- report file name

  const DefaultReportName: string := "Reporte.pdf"

  /** `name.split(' ')[0]`: the name up to its first space. */
  function FirstWord(name: string): (r: string)
    ensures ' ' !in r
  {
    Split(name, ' ')[0]
  }

  /** `.replace(/[^a-z0-9]/gi, '')`: only the ASCII letters and digits, in order. */
  function KeepAlnum(s: string): (r: string)
    ensures forall i :: 0 <= i < |r| ==> IsAsciiAlnum(r[i])
    ensures |r| <= |s|
  {
    if s == [] then []
    else if IsAsciiAlnum(s[0]) then [s[0]] + KeepAlnum(s[1..])
    else KeepAlnum(s[1..])
  }

  /** A text of letters and digits only is kept whole. */
  lemma {:induction false} KeepAlnumWhole(s: string)
    requires forall i :: 0 <= i < |s| ==> IsAsciiAlnum(s[i])
    ensures KeepAlnum(s) == s
  {
    if s != [] {
      KeepAlnumWhole(s[1..]);
      assert [s[0]] + s[1..] == s;
    }
  }

  /** A text with no ASCII letter or digit is dropped entirely. */
  lemma {:induction false} KeepAlnumDrops(s: string)
    requires forall i :: 0 <= i < |s| ==> !IsAsciiAlnum(s[i])
    ensures KeepAlnum(s) == []
  {
    if s != [] {
      KeepAlnumDrops(s[1..]);
    }
  }

  /** Filtering works piece by piece. */
  lemma {:induction false} KeepAlnumConcat(a: string, b: string)
    ensures KeepAlnum(a + b) == KeepAlnum(a) + KeepAlnum(b)
  {
    if a == [] {
      assert a + b == b;
    } else {
      assert (a + b)[1..] == a[1..] + b;
      KeepAlnumConcat(a[1..], b);
    }
  }

  /** What a participant contributes to the file name. */
  function Slug(name: string): (r: string)
    ensures '_' !in r && '.' !in r
  {
    var r := KeepAlnum(FirstWord(name));
    assert forall i :: 0 <= i < |r| ==> r[i] != '_' && r[i] != '.';
    r
  }

  /** A name whose first word is plain letters and digits gives that word. */
  lemma {:induction false} SlugOfPlainName(word: string, rest: string)
    requires forall i :: 0 <= i < |word| ==> IsAsciiAlnum(word[i])
    ensures Slug(word + " " + rest) == word
  {
    assert ' ' !in word by {
      forall i | 0 <= i < |word| ensures word[i] != ' ' {
        assert IsAsciiAlnum(word[i]);
      }
    }
    assert word + " " + rest == word + ([' '] + rest);
    SplitFreePrefix(word, [' '] + rest, ' ');
    assert Split([' '] + rest, ' ')[0] == [] by {
      assert ([' '] + rest)[1..] == rest;
    }
    assert word + [] == word;
    KeepAlnumWhole(word);
  }

  /**
   * `getSmartFilename()`: `"Reporte.pdf"` unless there are two participants;
   * then the first two participants' slugs, read back as the pieces of the
   * name between its underscores; the two kinds of name are told apart by
   * their number of pieces.
   */
  method SmartFilename(participants: seq<string>) returns (filename: string)
    ensures |participants| < 2 ==> filename == DefaultReportName
    ensures |participants| >= 2 ==>
      Split(filename, '_') == [Slug(participants[0]), "y", Slug(participants[1]) + ".pdf"]
    ensures |Split(filename, '_')| == 3 <==> |participants| >= 2
  {
    filename := DefaultReportName;
    if |participants| < 2 {
      DefaultNameDistinct();
    } else {
      var n1 := Slug(participants[0]);
      var n2 := Slug(participants[1]);
      filename := n1 + "_y_" + n2 + ".pdf";
      ghost var parts := [n1, "y", n2 + ".pdf"];
      assert '_' !in n2 + ".pdf" by {
        forall i | 0 <= i < |n2 + ".pdf"| ensures (n2 + ".pdf")[i] != '_' {
          if i < |n2| {
            assert (n2 + ".pdf")[i] == n2[i];
          }
        }
      }
      assert Join(parts, ['_']) == filename by {
        assert Join(parts[2..], ['_']) == n2 + ".pdf";
        assert Join(parts[1..], ['_']) == "y" + ['_'] + (n2 + ".pdf");
      }
      SplitJoin(parts, '_');
    }
  }

  /** The default name has no underscore, so it is never taken for a name built from participants. */
  lemma {:induction false} DefaultNameDistinct()
    ensures |Split(DefaultReportName, '_')| == 1
  {
    assert '_' !in DefaultReportName;
    SplitJoin([DefaultReportName], '_');
  }
}
