/** The pure helpers of `src/util.rs` (`app.rs` carries an identical copy):
    the `[h:]m:ss` duration formatter and two small predicates. */
module Util {
  import opened Wrappers
  import opened Text
  import Library

  const Second: nat := 1000
  const Minute: nat := 60 * Second
  const Hour: nat := 60 * Minute

  // ---------------------------------------------------------------------
  // ms_to_string
  // ---------------------------------------------------------------------

  /** `ms_to_string`: whole hours and a colon when there is at least one hour;
      then the minutes (two digits after hours, unpadded otherwise, `0` under
      a minute) and a colon; then the seconds in two digits. */
  function MsToString(ms: nat): string {
    (if ms >= Hour then NatToString(ms / Hour) + ":" else "")
    + (if ms >= Minute then
         (if ms >= Hour then ZeroPad2((ms % Hour) / Minute) else NatToString((ms % Hour) / Minute)) + ":"
       else "0:")
    + ZeroPad2((ms % Minute) / Second)
  }

  /** A reader for `m:ss` and `h:mm:ss` clock strings, independent of the
      formatter: the total number of seconds they denote. */
  function ParseClock(s: string): Option<nat> {
    var f := Split(s, ':');
    if |f| == 2 && IsNumber(f[0]) && IsTwoDigits(f[1]) then
      Some(DigitsValue(f[0]) * 60 + DigitsValue(f[1]))
    else if |f| == 3 && IsNumber(f[0]) && IsTwoDigits(f[1]) && IsTwoDigits(f[2]) then
      Some(DigitsValue(f[0]) * 3600 + DigitsValue(f[1]) * 60 + DigitsValue(f[2]))
    else None
  }

  predicate IsNumber(s: string) {
    |s| >= 1 && AllDigits(s)
  }

  predicate IsTwoDigits(s: string) {
    |s| == 2 && AllDigits(s)
  }

  // ---------------------------------------------------------------------
  // Arithmetic on the clock components
  // ---------------------------------------------------------------------

  /** Quotient and remainder are the only pair that recombines `a`. */
  lemma DivModUnique(a: int, d: int, q: int, r: int)
    requires d > 0 && 0 <= r < d && a == q * d + r
    ensures a / d == q && a % d == r
  {
    var q', r' := a / d, a % d;
    assert a == q' * d + r';
    if q' < q {
      assert (q' + 1) * d == q' * d + d;
      MulLe(q' + 1, q, d);
    } else if q' > q {
      assert (q + 1) * d == q * d + d;
      MulLe(q + 1, q', d);
    }
  }

  lemma MulLe(x: int, y: int, d: int)
    requires x <= y && d >= 0
    ensures x * d <= y * d
  {
    assert y * d - x * d == (y - x) * d;
  }

  lemma HoursOfSeconds(ms: nat)
    ensures ms / Hour == (ms / Second) / 3600
  {
    var q, r := ms / 1000, ms % 1000;
    var h, r2 := q / 3600, q % 3600;
    DivModUnique(ms, 3600000, h, 1000 * r2 + r);
  }

  lemma MinutesOfSeconds(ms: nat)
    ensures (ms % Hour) / Minute == ((ms / Second) / 60) % 60
  {
    var q, r := ms / 1000, ms % 1000;
    var m, s := q / 60, q % 60;
    var h, m2 := m / 60, m % 60;
    DivModUnique(ms, 3600000, h, 60000 * m2 + (1000 * s + r));
    DivModUnique(60000 * m2 + (1000 * s + r), 60000, m2, 1000 * s + r);
  }

  lemma SecondsOfSeconds(ms: nat)
    ensures (ms % Minute) / Second == (ms / Second) % 60
  {
    var q, r := ms / 1000, ms % 1000;
    var m, s := q / 60, q % 60;
    DivModUnique(ms, 60000, m, 1000 * s + r);
    DivModUnique(1000 * s + r, 1000, s, r);
  }

  /** The components `ms_to_string` prints, in terms of whole seconds. */
  lemma Components(ms: nat)
    ensures ms / Hour == (ms / Second) / 3600
    ensures (ms % Hour) / Minute == ((ms / Second) / 60) % 60
    ensures (ms % Minute) / Second == (ms / Second) % 60
    ensures ms >= Hour <==> ms / Second >= 3600
    ensures ms >= Minute <==> ms / Second >= 60
  {
    HoursOfSeconds(ms);
    MinutesOfSeconds(ms);
    SecondsOfSeconds(ms);
  }

  /** Whole seconds split into clock components add up again. */
  lemma ClockArithmetic(s: nat)
    ensures (s / 3600) * 3600 + ((s / 60) % 60) * 60 + s % 60 == s
    ensures s < 3600 ==> ((s / 60) % 60) * 60 + s % 60 == s
  {
  }

  // ---------------------------------------------------------------------
  // Properties of ms_to_string
  // ---------------------------------------------------------------------

  lemma FieldsWithHours(ms: nat)
    requires ms >= Hour
    ensures var s := ms / Second;
            Split(MsToString(ms), ':') == [NatToString(s / 3600), ZeroPad2((s / 60) % 60), ZeroPad2(s % 60)]
  {
    var s := ms / Second;
    var hours, mins, sec := NatToString(s / 3600), ZeroPad2((s / 60) % 60), ZeroPad2(s % 60);
    Components(ms);
    assert ms >= Minute;
    assert NatToString(ms / Hour) == hours;
    assert ZeroPad2((ms % Hour) / Minute) == mins;
    assert ZeroPad2((ms % Minute) / Second) == sec;
    assert MsToString(ms) == hours + ":" + (mins + ":") + sec;
    Join3(hours, mins, sec, ':');
    assert MsToString(ms) == Join([hours, mins, sec], ':');
    NonDigitAbsent(hours, ':');
    NonDigitAbsent(mins, ':');
    NonDigitAbsent(sec, ':');
    SplitJoin([hours, mins, sec], ':');
  }

  lemma FieldsWithoutHours(ms: nat)
    requires ms < Hour
    ensures var s := ms / Second;
            Split(MsToString(ms), ':') == [NatToString(s / 60), ZeroPad2(s % 60)]
  {
    var s := ms / Second;
    var mins, sec := NatToString(s / 60), ZeroPad2(s % 60);
    assert MsToString(ms) == mins + ":" + sec by {
      Components(ms);
      if ms < Minute {
        assert s / 60 == 0;
        assert mins == "0";
      } else {
        assert (s / 60) % 60 == s / 60;
      }
    }
    Join2(mins, sec, ':');
    assert MsToString(ms) == Join([mins, sec], ':');
    NonDigitAbsent(mins, ':');
    NonDigitAbsent(sec, ':');
    SplitJoin([mins, sec], ':');
  }

  /** The formatter's output is its clock fields joined by colons: hours,
      two-digit minutes and seconds from one hour on; unpadded minutes and
      two-digit seconds below. */
  lemma MsToStringFields(ms: nat)
    ensures var s := ms / Second;
            var f := Split(MsToString(ms), ':');
            && (ms >= Hour ==>
                  f == [NatToString(s / 3600), ZeroPad2((s / 60) % 60), ZeroPad2(s % 60)])
            && (ms < Hour ==> f == [NatToString(s / 60), ZeroPad2(s % 60)])
  {
    if ms >= Hour {
      FieldsWithHours(ms);
    } else {
      FieldsWithoutHours(ms);
    }
  }

  lemma HoursRoundTrip(ms: nat)
    requires ms >= Hour
    ensures ParseClock(MsToString(ms)) == Some(ms / Second)
  {
    var s := ms / Second;
    MsToStringFields(ms);
    Components(ms);
    ClockArithmetic(s);
    var f := Split(MsToString(ms), ':');
    NatToStringRoundTrip(s / 3600);
    assert f == [NatToString(s / 3600), ZeroPad2((s / 60) % 60), ZeroPad2(s % 60)];
    assert DigitsValue(f[0]) == s / 3600;
    assert DigitsValue(f[1]) == (s / 60) % 60;
    assert DigitsValue(f[2]) == s % 60;
  }

  lemma MinutesRoundTrip(ms: nat)
    requires ms < Hour
    ensures ParseClock(MsToString(ms)) == Some(ms / Second)
  {
    var s := ms / Second;
    MsToStringFields(ms);
    Components(ms);
    ClockArithmetic(s);
    var f := Split(MsToString(ms), ':');
    NatToStringRoundTrip(s / 60);
    assert f == [NatToString(s / 60), ZeroPad2(s % 60)];
    assert DigitsValue(f[0]) == s / 60;
    assert DigitsValue(f[1]) == s % 60;
    assert s / 60 == (s / 60) % 60;
  }

  /** Reading the formatted duration back as `[h:]m:ss` gives its whole
      seconds: sub-second milliseconds are dropped, nothing else is lost. */
  lemma ParseClockRoundTrip(ms: nat)
    ensures ParseClock(MsToString(ms)) == Some(ms / Second)
  {
    if ms >= Hour {
      HoursRoundTrip(ms);
    } else {
      MinutesRoundTrip(ms);
    }
  }

  /** Under a minute the output is `0:` and the two-digit seconds. */
  lemma UnderAMinute(ms: nat)
    requires ms < Minute
    ensures var r := MsToString(ms);
            |r| == 4 && r[..2] == "0:" && IsTwoDigits(r[2..]) && DigitsValue(r[2..]) == ms / Second
  {
    var r := MsToString(ms);
    assert r == "0:" + ZeroPad2((ms % Minute) / Second);
    assert r[2..] == ZeroPad2((ms % Minute) / Second);
  }

  /** The output always ends in a colon and a two-digit seconds field whose
      value is the seconds within the minute. */
  lemma SecondsField(ms: nat)
    ensures var r := MsToString(ms);
            |r| >= 4 && r[|r| - 3] == ':' && IsTwoDigits(r[|r| - 2..])
            && DigitsValue(r[|r| - 2..]) == (ms % Minute) / Second
  {
    var r := MsToString(ms);
    var sec := ZeroPad2((ms % Minute) / Second);
    var head := r[..|r| - 2];
    assert r == head + sec;
    assert r[|r| - 2..] == sec;
  }

  /** An hours field and its colon appear exactly from one hour on; the
      minutes are then padded to two digits, and are unpadded below an hour. */
  lemma HoursIffAnHour(ms: nat)
    ensures var f := Split(MsToString(ms), ':');
            && (|f| == 3 <==> ms >= Hour)
            && (|f| == 2 <==> ms < Hour)
            && (ms >= Hour ==> |f[1]| == 2)
            && (ms < Hour ==> f[0] == NatToString((ms % Hour) / Minute))
  {
    MsToStringFields(ms);
    Components(ms);
    var s := ms / Second;
    if ms < Hour {
      assert s / 60 < 60;
    }
  }

  /** Sub-second milliseconds never show. */
  lemma IgnoresSubSecond(ms: nat)
    ensures MsToString(ms) == MsToString(ms - ms % Second)
  {
    var whole := ms - ms % Second;
    assert whole / Second == ms / Second;
    Components(ms);
    Components(whole);
  }

  // ---------------------------------------------------------------------
  // Small predicates
  // ---------------------------------------------------------------------

  /** A screen position; the source's `[f32; 2]`, with exact coordinates. */
  datatype Point = Point(x: real, y: real)

  /** `is_point_in_rect`: inside the rectangle, its edges included. */
  function IsPointInRect(p: Point, lo: Point, hi: Point): (r: bool)
    ensures r <==> lo.x <= p.x <= hi.x && lo.y <= p.y <= hi.y
  {
    if p.x < lo.x || p.y < lo.y then false
    else if p.x > hi.x || p.y > hi.y then false
    else true
  }

  /** `is_default_playlist`: the two playlists the program builds itself. */
  function IsDefaultPlaylist(name: string): (r: bool)
    ensures r <==> name == "All" || name == "All Unused"
  {
    name == Library.AllPlaylistName || name == Library.AllUnusedPlaylistName
  }
}
