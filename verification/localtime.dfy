/** `java.time.LocalTime` as far as the backend uses it: a time of day with
    nanosecond precision, `LocalTime.parse` (ISO_LOCAL_TIME),
    `format("HH:mm:ss")`, `plusSeconds` and the ordering. */
module LocalTime {
  import opened Wrappers
  import opened JavaText

  const NanosPerSecond: int := 1_000_000_000
  const SecondsPerDay: int := 86400
  const NanosPerDay: int := SecondsPerDay * NanosPerSecond

  /** A time of day as its nano-of-day. `isBefore` is `<` on this number. */
  type Time = t: int | 0 <= t < NanosPerDay

  function SecondOfDay(t: Time): (s: int)
    ensures 0 <= s < SecondsPerDay
  {
    t / NanosPerSecond
  }

  function Hour(t: Time): int { SecondOfDay(t) / 3600 }
  function Minute(t: Time): int { SecondOfDay(t) / 60 % 60 }
  function Second(t: Time): int { SecondOfDay(t) % 60 }
  function Nano(t: Time): int { t % NanosPerSecond }

  /** `LocalTime.of(hour, minute, second, nano)`. */
  function Of(h: int, m: int, s: int, n: int): (t: Time)
    requires 0 <= h < 24 && 0 <= m < 60 && 0 <= s < 60 && 0 <= n < NanosPerSecond
    ensures Hour(t) == h && Minute(t) == m && Second(t) == s && Nano(t) == n
  {
    OfBound(h, m, s, n);
    ((h * 3600 + m * 60 + s) * NanosPerSecond + n) as Time
  }

  lemma OfBound(h: int, m: int, s: int, n: int)
    requires 0 <= h < 24 && 0 <= m < 60 && 0 <= s < 60 && 0 <= n < NanosPerSecond
    ensures 0 <= (h * 3600 + m * 60 + s) * NanosPerSecond + n < NanosPerDay
  {
    var sd := h * 3600 + m * 60 + s;
    assert 0 <= sd <= SecondsPerDay - 1;
    assert sd * NanosPerSecond <= (SecondsPerDay - 1) * NanosPerSecond;
  }

  /** A time is determined by its four fields. */
  lemma OfFields(t: Time)
    ensures Of(Hour(t), Minute(t), Second(t), Nano(t)) == t
  {
  }

  /** The time with its fraction of a second dropped. */
  function WholeSeconds(t: Time): (r: Time)
    ensures Nano(r) == 0 && SecondOfDay(r) == SecondOfDay(t)
  {
    SecondOfDay(t) * NanosPerSecond
  }

  // ---------------------------------------------------------------------------
  // LocalTime.parse

  /** The two-digit number at `s[i..i+2]`, if both characters are digits. */
  function TwoDigits(s: string, i: nat): (r: Option<int>)
    requires i + 2 <= |s|
    ensures r.Some? ==> 0 <= r.value < 100
  {
    if IsDigit(s[i]) && IsDigit(s[i + 1]) then Some(10 * DigitValue(s[i]) + DigitValue(s[i + 1]))
    else None
  }

  /** The nanoseconds a fraction of up to nine digits denotes, right-padded. */
  function FractionNanos(d: string): (n: int)
    requires AllDigits(d) && |d| <= 9
    ensures 0 <= n < NanosPerSecond
  {
    FractionBound(d);
    DigitsValue(d) * Pow10(9 - |d|)
  }

  lemma FractionBound(d: string)
    requires AllDigits(d) && |d| <= 9
    ensures DigitsValue(d) * Pow10(9 - |d|) < NanosPerSecond
  {
    ScaledBelow(DigitsValue(d), |d|, 9 - |d|);
    Pow10Nine();
  }

  lemma Pow10Nine()
    ensures Pow10(9) == NanosPerSecond
  {
  }

  /** A number of `a` digits followed by `b` zeros has fewer than `a + b` digits. */
  lemma ScaledBelow(v: nat, a: nat, b: nat)
    requires v < Pow10(a)
    ensures v * Pow10(b) < Pow10(a + b)
  {
    PowAdd(a, b);
    var p := Pow10(b);
    MulLe(v, Pow10(a) - 1, p);
    assert (Pow10(a) - 1) * p == Pow10(a) * p - p;
  }

  lemma {:induction false} MulLe(a: nat, b: nat, c: nat)
    requires a <= b
    ensures a * c <= b * c
  {
    if c > 0 {
      MulLe(a, b, c - 1);
      assert a * c == a * (c - 1) + a;
      assert b * c == b * (c - 1) + b;
    }
  }

  lemma {:induction false} PowAdd(a: nat, b: nat)
    ensures Pow10(a) * Pow10(b) == Pow10(a + b)
  {
    if a > 0 {
      PowAdd(a - 1, b);
    }
  }

  /** `LocalTime.parse(s)`: `HH:mm`, optionally `:ss`, and after the seconds
      optionally a point with up to nine fraction digits (a point with no digit
      is read as zero). Hours above 23 and minutes or seconds above 59 are
      rejected, and so is anything else, including trailing text. */
  function ParseTime(s: string): (r: Option<Time>)
    ensures r.Some? ==> |s| >= 5 && s[2] == ':'
  {
    if |s| < 5 || s[2] != ':' then None
    else
      var h, m := TwoDigits(s, 0), TwoDigits(s, 3);
      if h.None? || m.None? || h.value > 23 || m.value > 59 then None
      else if |s| == 5 then Some(Of(h.value, m.value, 0, 0))
      else if |s| < 8 || s[5] != ':' then None
      else
        var sec := TwoDigits(s, 6);
        if sec.None? || sec.value > 59 then None
        else if |s| == 8 then Some(Of(h.value, m.value, sec.value, 0))
        else if s[8] != '.' then None
        else
          var d := s[9..];
          if !AllDigits(d) || |d| > 9 then None
          else Some(Of(h.value, m.value, sec.value, FractionNanos(d)))
  }

  // ---------------------------------------------------------------------------
  // format("HH:mm:ss")

  /** `time.format(DateTimeFormatter.ofPattern("HH:mm:ss"))`. */
  function FormatTime(t: Time): (r: string)
    ensures |r| == 8 && r[2] == ':' && r[5] == ':'
    ensures forall k :: 0 <= k < 8 && k != 2 && k != 5 ==> IsDigit(r[k])
  {
    PadDigits(Hour(t), 2) + ":" + PadDigits(Minute(t), 2) + ":" + PadDigits(Second(t), 2)
  }

  lemma TwoDigitsPad(s: string, i: nat, n: nat)
    requires 0 <= n < 100 && i + 2 <= |s| && s[i..i + 2] == PadDigits(n, 2)
    ensures TwoDigits(s, i) == Some(n)
  {
    var p := PadDigits(n, 2);
    DigitsValuePad(n, 2);
    assert s[i] == p[0] && s[i + 1] == p[1];
    assert p[..1][..0] == [];
    assert DigitsValue(p) == 10 * DigitsValue(p[..1]) + DigitValue(p[1]);
    assert DigitsValue(p[..1]) == DigitValue(p[0]);
  }

  /** Parsing the formatted text gives back the time without its fraction of a second. */
  lemma ParseFormat(t: Time)
    ensures ParseTime(FormatTime(t)) == Some(WholeSeconds(t))
  {
    var r := FormatTime(t);
    TwoDigitsPad(r, 0, Hour(t));
    TwoDigitsPad(r, 3, Minute(t));
    TwoDigitsPad(r, 6, Second(t));
    ParseHms(r, Hour(t), Minute(t), Second(t));
    WholeSecondsFields(t);
  }

  /** A `HH:mm:ss` text with valid fields parses to that time. */
  lemma ParseHms(s: string, h: int, m: int, sec: int)
    requires |s| == 8 && s[2] == ':' && s[5] == ':'
    requires 0 <= h < 24 && 0 <= m < 60 && 0 <= sec < 60
    requires TwoDigits(s, 0) == Some(h) && TwoDigits(s, 3) == Some(m) && TwoDigits(s, 6) == Some(sec)
    ensures ParseTime(s) == Some(Of(h, m, sec, 0))
  {
  }

  /** Dropping the fraction keeps the hour, minute and second. */
  lemma WholeSecondsFields(t: Time)
    ensures Of(Hour(t), Minute(t), Second(t), 0) == WholeSeconds(t)
  {
    var sd := SecondOfDay(t);
    var q := sd / 60;
    assert sd == q * 60 + sd % 60;
    assert sd / 3600 == q / 60;
    assert q == (q / 60) * 60 + q % 60;
    assert Hour(t) * 3600 + Minute(t) * 60 + Second(t) == sd;
  }

  /** Formatting a parsed `HH:mm:ss` text gives the text back. */
  lemma FormatParse(s: string)
    requires |s| == 8 && ParseTime(s).Some?
    ensures FormatTime(ParseTime(s).value) == s
  {
    var t := ParseTime(s).value;
    var h, m, sec := TwoDigits(s, 0).value, TwoDigits(s, 3).value, TwoDigits(s, 6).value;
    assert Hour(t) == h && Minute(t) == m && Second(t) == sec;
    PadTwoDigits(s, 0);
    PadTwoDigits(s, 3);
    PadTwoDigits(s, 6);
    var r := FormatTime(t);
    assert r[..2] == s[..2] && r[3..5] == s[3..5] && r[6..] == s[6..];
    assert forall k :: 0 <= k < 8 ==> r[k] == s[k] by {
      forall k | 0 <= k < 8
        ensures r[k] == s[k]
      {
        if k < 2 {
          assert r[k] == r[..2][k];
        } else if 3 <= k < 5 {
          assert r[k] == r[3..5][k - 3] && s[k] == s[3..5][k - 3];
        } else if 6 <= k {
          assert r[k] == r[6..][k - 6] && s[k] == s[6..][k - 6];
        }
      }
    }
  }

  lemma PadTwoDigits(s: string, i: nat)
    requires i + 2 <= |s| && TwoDigits(s, i).Some?
    ensures PadDigits(TwoDigits(s, i).value, 2) == s[i..i + 2]
  {
    var a, b := DigitValue(s[i]), DigitValue(s[i + 1]);
    var n := TwoDigits(s, i).value;
    assert n == 10 * a + b;
    TensUnits(a, b);
    assert PadDigits(n, 2) == PadDigits(a, 1) + [('0' as int + b) as char];
    assert PadDigits(a, 1) == PadDigits(a / 10, 0) + [('0' as int + a % 10) as char];
    assert PadDigits(a, 1) == [s[i]];
  }

  /** A two-digit number splits back into its tens and units. */
  lemma TensUnits(a: int, b: int)
    requires 0 <= a < 10 && 0 <= b < 10
    ensures (10 * a + b) / 10 == a && (10 * a + b) % 10 == b
  {
  }

  // ---------------------------------------------------------------------------
  // plusSeconds

  /** Java's `%` on `long`: the remainder takes the sign of the dividend. */
  function JavaRem(a: int, b: int): (r: int)
    requires b > 0
    ensures -b < r < b
    ensures a >= 0 ==> r >= 0
    ensures a <= 0 ==> r <= 0
  {
    if a >= 0 then a % b else -((-a) % b)
  }

  /** `LocalTime.plusSeconds(n)`: the second of day moves by `n` modulo a day,
      the fraction of a second is kept. */
  function PlusSeconds(t: Time, n: int): (r: Time)
    ensures Nano(r) == Nano(t)
  {
    if n == 0 then t
    else
      var sofd := SecondOfDay(t);
      var newSofd := (JavaRem(n, SecondsPerDay) + sofd + SecondsPerDay) % SecondsPerDay;
      newSofd * NanosPerSecond + Nano(t)
  }

  /** `plusSeconds` is addition of whole seconds modulo one day. */
  lemma PlusSecondsModular(t: Time, n: int)
    ensures PlusSeconds(t, n) == (t + n * NanosPerSecond) % NanosPerDay
  {
    if n != 0 {
      var sofd := SecondOfDay(t);
      var q := JavaRem(n, SecondsPerDay);
      var k := JavaRemSplit(n);
      var r := (q + sofd + SecondsPerDay) % SecondsPerDay;
      assert PlusSeconds(t, n) == r * NanosPerSecond + Nano(t);
      DayShift(q + sofd + SecondsPerDay, n + sofd, 1 - k);
      assert r == (n + sofd) % SecondsPerDay;
      ScaleMod(n + sofd, Nano(t));
      assert (n + sofd) * NanosPerSecond + Nano(t) == t + n * NanosPerSecond by {
        assert t == sofd * NanosPerSecond + Nano(t);
        assert (n + sofd) * NanosPerSecond == n * NanosPerSecond + sofd * NanosPerSecond;
      }
    }
  }

  /** Java's remainder by a day leaves a whole number of days. */
  lemma JavaRemSplit(n: int) returns (k: int)
    ensures n == JavaRem(n, SecondsPerDay) + k * SecondsPerDay
  {
    if n >= 0 {
      EuclidDay(n);
      k := n / SecondsPerDay;
    } else {
      EuclidDay(-n);
      k := -((-n) / SecondsPerDay);
    }
  }

  /** Division by a day, for a non-negative number of seconds. */
  lemma EuclidDay(m: int)
    requires m >= 0
    ensures m == (m / SecondsPerDay) * SecondsPerDay + m % SecondsPerDay
  {
  }

  /** Seconds that differ by whole days fall on the same second of day. */
  lemma DayShift(a: int, b: int, k: int)
    requires a == b + k * SecondsPerDay
    ensures a % SecondsPerDay == b % SecondsPerDay
  {
  }

  /** Nano-of-day values that differ by whole days are the same time. */
  lemma NanoDayShift(a: int, b: int, k: int)
    requires a == b + k * NanosPerDay
    ensures a % NanosPerDay == b % NanosPerDay
  {
  }

  /** Reducing the second of day and then scaling to nanoseconds is reducing
      the nanoseconds. */
  lemma ScaleMod(x: int, o: int)
    requires 0 <= o < NanosPerSecond
    ensures (x % SecondsPerDay) * NanosPerSecond + o == (x * NanosPerSecond + o) % NanosPerDay
  {
    var q := x / SecondsPerDay;
    assert x == q * SecondsPerDay + x % SecondsPerDay;
    assert x * NanosPerSecond + o == q * NanosPerDay + ((x % SecondsPerDay) * NanosPerSecond + o);
    NanoDayShift(x * NanosPerSecond + o, (x % SecondsPerDay) * NanosPerSecond + o, q);
  }

  /** Adding seconds twice is adding their sum. */
  lemma PlusSecondsAdd(t: Time, a: int, b: int)
    ensures PlusSeconds(PlusSeconds(t, a), b) == PlusSeconds(t, a + b)
  {
    var d := NanosPerDay;
    var t1 := PlusSeconds(t, a);
    PlusSecondsModular(t, a);
    PlusSecondsModular(t1, b);
    PlusSecondsModular(t, a + b);
    var x := t + a * NanosPerSecond;
    var q := x / d;
    assert x == q * d + t1;
    NanoDayShift(t + (a + b) * NanosPerSecond, t1 + b * NanosPerSecond, q);
  }

  /** A whole day of seconds brings the clock back to the same time. */
  lemma PlusSecondsDay(t: Time)
    ensures PlusSeconds(t, SecondsPerDay) == t
  {
    PlusSecondsModular(t, SecondsPerDay);
    NanoDayShift(t + SecondsPerDay * NanosPerSecond, t, 1);
  }

  /** Adding `n` seconds lands past the start of the day iff the sum stays
      below midnight; otherwise the clock wraps round to the early morning. */
  lemma PlusSecondsWraps(t: Time, n: nat)
    requires n < SecondsPerDay
    ensures t + n * NanosPerSecond < NanosPerDay ==> PlusSeconds(t, n) == t + n * NanosPerSecond
    ensures t + n * NanosPerSecond >= NanosPerDay ==> PlusSeconds(t, n) == t + n * NanosPerSecond - NanosPerDay
    ensures t + n * NanosPerSecond >= NanosPerDay ==> PlusSeconds(t, n) < t
  {
    PlusSecondsModular(t, n);
    var x := t + n * NanosPerSecond;
    if x >= NanosPerDay {
      NanoDayShift(x, x - NanosPerDay, 1);
    }
  }
}
