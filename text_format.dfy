/** Text helpers of the browser scripts: `escapeHtml` (identical in notifications.js and
    script.js), the relative `formatTime` of notifications.js and the clock-time `formatTime`
    of script.js. */
module TextFormat {
  import opened Js

  // ------------------------------------------------------------ escapeHtml

  /** The replacement for one character: the five HTML-special characters become entities. */
  function EscapeChar(c: char): (r: string)
    ensures |r| >= 1
    ensures c !in "&<>\"'" ==> r == [c]
  {
    match c
    case '&' => "&amp;"
    case '<' => "&lt;"
    case '>' => "&gt;"
    case '"' => "&quot;"
    case '\'' => "&#039;"
    case _ => [c]
  }

  /** Every occurrence of `& < > " '` replaced by its entity; everything else kept. */
  function EscapeHtml(s: string): (r: string)
    ensures |r| >= |s|
    ensures forall i :: 0 <= i < |r| ==> r[i] !in "<>\"'"
  {
    if s == [] then [] else EscapeChar(s[0]) + EscapeHtml(s[1..])
  }

  /** The browser's decoding of the five entities, left to right. */
  function Unescape(s: string): string
    decreases |s|
  {
    if s == [] then []
    else if s[0] != '&' then [s[0]] + Unescape(s[1..])
    else if StartsWith(s, "&amp;") then "&" + Unescape(s[5..])
    else if StartsWith(s, "&lt;") then "<" + Unescape(s[4..])
    else if StartsWith(s, "&gt;") then ">" + Unescape(s[4..])
    else if StartsWith(s, "&quot;") then "\"" + Unescape(s[6..])
    else if StartsWith(s, "&#039;") then "'" + Unescape(s[6..])
    else [s[0]] + Unescape(s[1..])
  }

  lemma UnescapeAmp(rest: string)
    ensures Unescape("&amp;" + rest) == "&" + Unescape(rest)
  {
    var e := "&amp;" + rest;
    assert e[..5] == "&amp;" && e[5..] == rest;
  }

  lemma UnescapeLt(rest: string)
    ensures Unescape("&lt;" + rest) == "<" + Unescape(rest)
  {
    var e := "&lt;" + rest;
    assert e[..4] == "&lt;" && e[4..] == rest;
    assert !StartsWith(e, "&amp;") by { assert e[1] == 'l'; }
  }

  lemma UnescapeGt(rest: string)
    ensures Unescape("&gt;" + rest) == ">" + Unescape(rest)
  {
    var e := "&gt;" + rest;
    assert e[..4] == "&gt;" && e[4..] == rest;
    assert !StartsWith(e, "&amp;") && !StartsWith(e, "&lt;") by { assert e[1] == 'g'; }
  }

  lemma UnescapeQuot(rest: string)
    ensures Unescape("&quot;" + rest) == "\"" + Unescape(rest)
  {
    var e := "&quot;" + rest;
    assert e[..6] == "&quot;" && e[6..] == rest;
    assert !StartsWith(e, "&amp;") && !StartsWith(e, "&lt;") && !StartsWith(e, "&gt;") by { assert e[1] == 'q'; }
  }

  lemma UnescapeApos(rest: string)
    ensures Unescape("&#039;" + rest) == "'" + Unescape(rest)
  {
    var e := "&#039;" + rest;
    assert e[..6] == "&#039;" && e[6..] == rest;
    assert !StartsWith(e, "&amp;") && !StartsWith(e, "&lt;") && !StartsWith(e, "&gt;") && !StartsWith(e, "&quot;") by {
      assert e[1] == '#';
    }
  }

  lemma UnescapeCons(c: char, rest: string)
    ensures Unescape(EscapeChar(c) + rest) == [c] + Unescape(rest)
  {
    match c
    case '&' => UnescapeAmp(rest);
    case '<' => UnescapeLt(rest);
    case '>' => UnescapeGt(rest);
    case '"' => UnescapeQuot(rest);
    case '\'' => UnescapeApos(rest);
    case _ =>
      var e := EscapeChar(c) + rest;
      assert e[0] == c && e[1..] == rest;
  }

  /** The rendered text reads exactly as the original string. */
  lemma {:induction false} UnescapeEscape(s: string)
    ensures Unescape(EscapeHtml(s)) == s
  {
    if s != [] {
      UnescapeEscape(s[1..]);
      UnescapeCons(s[0], EscapeHtml(s[1..]));
      assert [s[0]] + s[1..] == s;
    }
  }

  /** Text without special characters is left as it is. */
  lemma {:induction false} EscapePlain(s: string)
    requires forall i :: 0 <= i < |s| ==> s[i] !in "&<>\"'"
    ensures EscapeHtml(s) == s
  {
    if s != [] {
      EscapePlain(s[1..]);
      assert [s[0]] + s[1..] == s;
    }
  }

  // ------------------------------------------------------------ relative time (notifications.js)

  /** The buckets of the relative time display. */
  datatype Relative = JustNow | MinutesAgo(m: int) | HoursAgo(h: int) | DaysAgo(d: int) | OnDate

  const MinuteMs: int := 60000
  const HourMs: int := 3600000
  const DayMs: int := 86400000

  /** The bucket for an age of `diff` milliseconds (`now - date`), with JavaScript's
      `Math.floor` divisions; a date in the future counts as "just now". */
  function RelativeAge(diff: int): (r: Relative)
    ensures r.JustNow? <==> diff < MinuteMs
    ensures r.MinutesAgo? <==> MinuteMs <= diff < HourMs
    ensures r.HoursAgo? <==> HourMs <= diff < DayMs
    ensures r.DaysAgo? <==> DayMs <= diff < 7 * DayMs
    ensures r.OnDate? <==> 7 * DayMs <= diff
    ensures r.MinutesAgo? ==> 1 <= r.m < 60 && r.m * MinuteMs <= diff < (r.m + 1) * MinuteMs
    ensures r.HoursAgo? ==> 1 <= r.h < 24 && r.h * HourMs <= diff < (r.h + 1) * HourMs
    ensures r.DaysAgo? ==> 1 <= r.d < 7 && r.d * DayMs <= diff < (r.d + 1) * DayMs
  {
    var minutes := diff / MinuteMs;
    var hours := diff / HourMs;
    var days := diff / DayMs;
    if minutes < 1 then JustNow
    else if minutes < 60 then MinutesAgo(minutes)
    else if hours < 24 then HoursAgo(hours)
    else if days < 7 then DaysAgo(days)
    else OnDate
  }

  /** The order of the buckets, from the most recent. */
  function Rank(r: Relative): nat {
    match r
    case JustNow => 0
    case MinutesAgo(_) => 1
    case HoursAgo(_) => 2
    case DaysAgo(_) => 3
    case OnDate => 4
  }

  /** An older notification never falls in a more recent bucket, and within a bucket it never
      shows a smaller number. */
  lemma RelativeAgeMonotone(d1: int, d2: int)
    requires d1 <= d2
    ensures Rank(RelativeAge(d1)) <= Rank(RelativeAge(d2))
    ensures RelativeAge(d1).MinutesAgo? && RelativeAge(d2).MinutesAgo? ==> RelativeAge(d1).m <= RelativeAge(d2).m
    ensures RelativeAge(d1).HoursAgo? && RelativeAge(d2).HoursAgo? ==> RelativeAge(d1).h <= RelativeAge(d2).h
    ensures RelativeAge(d1).DaysAgo? && RelativeAge(d2).DaysAgo? ==> RelativeAge(d1).d <= RelativeAge(d2).d
  {
    var r1, r2 := RelativeAge(d1), RelativeAge(d2);
    if r1.MinutesAgo? && r2.MinutesAgo? {
      assert r1.m * MinuteMs <= d2 < (r2.m + 1) * MinuteMs;
    }
    if r1.HoursAgo? && r2.HoursAgo? {
      assert r1.h * HourMs <= d2 < (r2.h + 1) * HourMs;
    }
    if r1.DaysAgo? && r2.DaysAgo? {
      assert r1.d * DayMs <= d2 < (r2.d + 1) * DayMs;
    }
  }

  /** The text shown; `localeDate` is the browser's `toLocaleDateString` of the date. */
  function RelativeText(diff: int, localeDate: string): (t: string)
    ensures RelativeAge(diff).OnDate? ==> t == localeDate
    ensures RelativeAge(diff).JustNow? ==> t == "Just now"
    ensures RelativeAge(diff).MinutesAgo? ==>
              t == NatToString(RelativeAge(diff).m) + "m ago"
    ensures RelativeAge(diff).HoursAgo? ==> t == NatToString(RelativeAge(diff).h) + "h ago"
    ensures RelativeAge(diff).DaysAgo? ==> t == NatToString(RelativeAge(diff).d) + "d ago"
    // Read back in terms of the age itself: the number shown is the age in whole units.
    ensures diff < MinuteMs ==> t == "Just now"
    ensures MinuteMs <= diff < HourMs ==> CountsUnits(t, "m ago", MinuteMs, 60, diff)
    ensures HourMs <= diff < DayMs ==> CountsUnits(t, "h ago", HourMs, 24, diff)
    ensures DayMs <= diff < 7 * DayMs ==> CountsUnits(t, "d ago", DayMs, 7, diff)
    ensures 7 * DayMs <= diff ==> t == localeDate
  {
    match RelativeAge(diff)
    case JustNow => "Just now"
    case MinutesAgo(m) => CountTextParts(m, "m ago"); NatToString(m) + "m ago"
    case HoursAgo(h) => CountTextParts(h, "h ago"); NatToString(h) + "h ago"
    case DaysAgo(d) => CountTextParts(d, "d ago"); NatToString(d) + "d ago"
    case OnDate => localeDate
  }

  /** `t` is a decimal count followed by `suffix`, where the count n, between 1 and
      `limit - 1`, is the number of whole `unit`s in `diff`. */
  predicate CountsUnits(t: string, suffix: string, unit: int, limit: int, diff: int) {
    |t| > |suffix| && t[|t| - |suffix|..] == suffix && AllDigits(t[..|t| - |suffix|])
    && var n := DigitsValue(t[..|t| - |suffix|]);
       1 <= n < limit && n * unit <= diff < (n + 1) * unit
  }

  /** A count followed by a suffix splits back into the two. */
  lemma CountTextParts(n: nat, suffix: string)
    ensures var t := NatToString(n) + suffix;
            |t| > |suffix| && t[|t| - |suffix|..] == suffix && t[..|t| - |suffix|] == NatToString(n)
            && AllDigits(t[..|t| - |suffix|]) && DigitsValue(t[..|t| - |suffix|]) == n
  {
    var t := NatToString(n) + suffix;
    assert t[..|t| - |suffix|] == NatToString(n);
    DigitsValueOfNatToString(n);
  }

  // ------------------------------------------------------------ clock time (script.js)

  /** `n.toString().padStart(2, '0')` for a clock field. */
  function Pad2(n: nat): (r: string)
    requires n < 100
    ensures |r| == 2
    ensures forall i :: 0 <= i < 2 ==> IsDigit(r[i])
    ensures DigitsValue(r) == n
  {
    DigitsValueOfNatToString(n);
    if n < 10 then
      assert DigitsValue(['0']) == 0;
      assert ['0', DigitChar(n)][..1] == ['0'];
      "0" + NatToString(n)
    else
      NatSmallLength(n);
      NatToString(n)
  }

  lemma NatSmallLength(n: nat)
    requires 10 <= n < 100
    ensures |NatToString(n)| == 2
  {
    assert NatToString(n) == NatToString(n / 10) + [DigitChar(n % 10)];
  }

  /** The local hour of a local time in milliseconds since the epoch (`getHours`). */
  function LocalHour(localMs: int): (h: nat)
    ensures h < 24
  {
    (localMs / HourMs) % 24
  }

  /** The local minute (`getMinutes`). */
  function LocalMinute(localMs: int): (m: nat)
    ensures m < 60
  {
    (localMs / MinuteMs) % 60
  }

  /** script.js's formatTime: "HH:MM" of the local clock. */
  function ClockText(localMs: int): (t: string)
    ensures |t| == 5 && t[2] == ':'
    ensures forall i :: 0 <= i < 5 && i != 2 ==> IsDigit(t[i])
    ensures DigitsValue(t[..2]) == LocalHour(localMs)
    ensures DigitsValue(t[3..]) == LocalMinute(localMs)
  {
    var hh := Pad2(LocalHour(localMs));
    var mm := Pad2(LocalMinute(localMs));
    var t := hh + ":" + mm;
    assert t[..2] == hh;
    assert t[3..] == mm;
    t
  }

  /** The clock text repeats every day. */
  lemma ClockTextDaily(localMs: int)
    ensures ClockText(localMs + DayMs) == ClockText(localMs)
  {
    HourDaily(localMs);
    MinuteDaily(localMs);
  }

  lemma HourDaily(localMs: int)
    ensures LocalHour(localMs + DayMs) == LocalHour(localMs)
  {
    var h := localMs / HourMs;
    assert (localMs + DayMs) / HourMs == h + 24 by {
      assert localMs + DayMs == (h + 24) * HourMs + (localMs - h * HourMs);
    }
  }

  lemma MinuteDaily(localMs: int)
    ensures LocalMinute(localMs + DayMs) == LocalMinute(localMs)
  {
    var m := localMs / MinuteMs;
    assert (localMs + DayMs) / MinuteMs == m + 1440 by {
      assert localMs + DayMs == (m + 1440) * MinuteMs + (localMs - m * MinuteMs);
    }
  }
}
