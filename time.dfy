/** The time helpers of src/utils/time.ts: shape checks for `HH:MM` and
    `YYYY-MM-DD`, the 00/30 minute rule, and `addMinutes`, which wraps past
    midnight. Times are strings; minutes since midnight are naturals. */
module Time {
  import opened Strings

  const MinutesPerDay: nat := 1440

  /** The value of two decimal digits. */
  function TwoDigitValue(hi: char, lo: char): (n: nat)
    requires IsDigit(hi) && IsDigit(lo)
    ensures n < 100
  {
    10 * DigitValue(hi) + DigitValue(lo)
  }

  /** `/^([01]\d|2[0-3]):([0-5]\d)$/` */
  predicate IsValidTime(s: string) {
    && |s| == 5
    && (('0' <= s[0] <= '1' && IsDigit(s[1])) || (s[0] == '2' && '0' <= s[1] <= '3'))
    && s[2] == ':'
    && '0' <= s[3] <= '5'
    && IsDigit(s[4])
  }

  /** `/^\d{4}-\d{2}-\d{2}$/`: the shape only, not the calendar. */
  predicate IsValidDate(s: string) {
    && |s| == 10
    && IsDigit(s[0]) && IsDigit(s[1]) && IsDigit(s[2]) && IsDigit(s[3])
    && s[4] == '-'
    && IsDigit(s[5]) && IsDigit(s[6])
    && s[7] == '-'
    && IsDigit(s[8]) && IsDigit(s[9])
  }

  /** `Number(t.split(':')[0])` of a valid time. */
  function Hour(t: string): nat
    requires IsValidTime(t)
  {
    TwoDigitValue(t[0], t[1])
  }

  /** `Number(t.split(':')[1])` of a valid time. */
  function Minute(t: string): nat
    requires IsValidTime(t)
  {
    TwoDigitValue(t[3], t[4])
  }

  /** `hour * 60 + minute`, as the source computes it after `split(':').map(Number)`. */
  function ToMinutes(t: string): (m: nat)
    requires IsValidTime(t)
    ensures m < MinutesPerDay
  {
    Hour(t) * 60 + Minute(t)
  }

  /** `isValidSlotMinute`: a valid time whose minute part is 0 or 30. */
  predicate IsValidSlotMinute(s: string) {
    IsValidTime(s) && (Minute(s) == 0 || Minute(s) == 30)
  }

  /** `String(n)`: the decimal digits of n, most significant first. */
  function DecimalString(n: nat): string
    decreases n
  {
    if n < 10 then [DigitChar(n)] else DecimalString(n / 10) + [DigitChar(n % 10)]
  }

  /** `s.padStart(width, c)`: s with copies of c put in front up to the width. */
  function PadStart(s: string, width: nat, c: char): string
    decreases width - |s|
  {
    if |s| >= width then s else PadStart([c] + s, width, c)
  }

  /** `String(n).padStart(2, '0')` */
  function PadTwo(n: nat): string {
    PadStart(DecimalString(n), 2, '0')
  }

  /** Below 100 the padded form is the tens digit followed by the units digit. */
  lemma PadTwoDigits(n: nat)
    requires n < 100
    ensures PadTwo(n) == [DigitChar(n / 10), DigitChar(n % 10)]
  {
    if n < 10 {
      assert DigitChar(0) == '0';
      assert PadStart([DigitChar(n)], 2, '0') == PadStart(['0', DigitChar(n)], 2, '0');
    } else {
      assert DecimalString(n / 10) == [DigitChar(n / 10)];
    }
  }

  /** slots.ts's `formatTime(m)`: `${pad(Math.floor(m / 60))}:${pad(m % 60)}`. */
  function FormatTime(m: nat): string
    requires m < MinutesPerDay
  {
    PadTwo(m / 60) + ":" + PadTwo(m % 60)
  }

  /** A formatted minute of the day is a valid time that reads back as the same minute. */
  lemma FormatTimeValid(m: nat)
    requires m < MinutesPerDay
    ensures IsValidTime(FormatTime(m)) && ToMinutes(FormatTime(m)) == m
  {
    PadTwoDigits(m / 60);
    PadTwoDigits(m % 60);
  }

  /** `addMinutes(time, minutesToAdd)`: the hour is taken modulo 24, so the
      result wraps past midnight. */
  function AddMinutes(time: string, minutesToAdd: nat): string
    requires IsValidTime(time)
  {
    var totalMinutes := Hour(time) * 60 + Minute(time) + minutesToAdd;
    var resultHour := (totalMinutes / 60) % 24;
    var resultMinute := totalMinutes % 60;
    PadTwo(resultHour) + ":" + PadTwo(resultMinute)
  }

  /** The time pattern accepts exactly two-digit hours 00..23 and two-digit minutes 00..59. */
  lemma ValidTimeFields(s: string)
    ensures IsValidTime(s) <==>
      && |s| == 5 && s[2] == ':'
      && IsDigit(s[0]) && IsDigit(s[1]) && IsDigit(s[3]) && IsDigit(s[4])
      && TwoDigitValue(s[0], s[1]) < 24
      && TwoDigitValue(s[3], s[4]) < 60
  {
  }

  /** A valid time is the rendering of its own minute of the day. */
  lemma FormatToMinutes(t: string)
    requires IsValidTime(t)
    ensures FormatTime(ToMinutes(t)) == t
  {
    var m := ToMinutes(t);
    assert m / 60 == Hour(t) && m % 60 == Minute(t);
    PadTwoOfDigits(t[0], t[1]);
    PadTwoOfDigits(t[3], t[4]);
    assert t == [t[0], t[1]] + ":" + [t[3], t[4]];
  }

  /** Two valid times with the same minute of the day are the same string. */
  lemma ToMinutesInjective(a: string, b: string)
    requires IsValidTime(a) && IsValidTime(b)
    ensures ToMinutes(a) == ToMinutes(b) <==> a == b
  {
    if ToMinutes(a) == ToMinutes(b) {
      FormatToMinutes(a);
      FormatToMinutes(b);
    }
  }

  /** On valid times, JavaScript's string `<` agrees with the order of minutes. */
  lemma StrLessIsTimeOrder(a: string, b: string)
    requires IsValidTime(a) && IsValidTime(b)
    ensures StrLess(a, b) <==> ToMinutes(a) < ToMinutes(b)
  {
    assert a[0..] == a && b[0..] == b;
    SuffixOrder(a, b, 0);
  }

  /** Past a common prefix of length k, comparing the rest of two valid
      times as strings is comparing them in minutes. */
  lemma {:induction false} SuffixOrder(a: string, b: string, k: nat)
    requires IsValidTime(a) && IsValidTime(b) && k <= 5
    requires forall i | 0 <= i < k :: a[i] == b[i]
    ensures StrLess(a[k..], b[k..]) <==> ToMinutes(a) < ToMinutes(b)
    decreases 5 - k
  {
    if k == 5 {
      assert a == b;
    } else if a[k] != b[k] {
      StrLessAt(a, b, k);
      TimeOrderAt(a, b, k);
    } else {
      StrLessStep(a, b, k);
      SuffixOrder(a, b, k + 1);
    }
  }

  /** At the first position where two valid times differ, the digit there
      decides which is earlier. */
  lemma TimeOrderAt(a: string, b: string, k: nat)
    requires IsValidTime(a) && IsValidTime(b)
    requires k in {0, 1, 3, 4} && a[k] != b[k]
    requires forall i | 0 <= i < k :: a[i] == b[i]
    ensures a[k] < b[k] <==> ToMinutes(a) < ToMinutes(b)
  {
    if k == 0 {
      assert ToMinutes(a) == 600 * DigitValue(a[0]) + (60 * DigitValue(a[1]) + Minute(a));
      assert ToMinutes(b) == 600 * DigitValue(b[0]) + (60 * DigitValue(b[1]) + Minute(b));
    } else if k == 1 {
      assert a[0] == b[0];
    } else if k == 3 {
      assert a[0] == b[0] && a[1] == b[1];
    } else {
      assert a[0] == b[0] && a[1] == b[1] && a[3] == b[3];
    }
  }

  /** Splitting a minute count into hours modulo 24 and minutes is reduction modulo a day. */
  lemma WrapArithmetic(total: nat)
    ensures ((total / 60) % 24) * 60 + total % 60 == total % MinutesPerDay
  {
    var q := total / 60;
    var r := total % 60;
    assert total == 60 * q + r;
    var qd := q / 24;
    var qm := q % 24;
    assert q == 24 * qd + qm;
    assert total == MinutesPerDay * qd + (60 * qm + r);
    assert 0 <= 60 * qm + r < MinutesPerDay;
  }

  /** `addMinutes` returns a zero-padded valid time whose minute of the day
      is the sum taken modulo 24 hours: it wraps past midnight. */
  lemma AddMinutesWraps(t: string, m: nat)
    requires IsValidTime(t)
    ensures IsValidTime(AddMinutes(t, m))
    ensures ToMinutes(AddMinutes(t, m)) == (ToMinutes(t) + m) % MinutesPerDay
  {
    AddMinutesIsFormat(t, m);
    FormatTimeValid((ToMinutes(t) + m) % MinutesPerDay);
  }

  /** `addMinutes` is the rendering of the wrapped minute of the day. */
  lemma AddMinutesIsFormat(t: string, m: nat)
    requires IsValidTime(t)
    ensures AddMinutes(t, m) == FormatTime((ToMinutes(t) + m) % MinutesPerDay)
  {
    var total := Hour(t) * 60 + Minute(t) + m;
    var m' := total % MinutesPerDay;
    WrapArithmetic(total);
    assert m' / 60 == (total / 60) % 24 && m' % 60 == total % 60;
  }

  /** Padding the value of two digits gives the digits back. */
  lemma PadTwoOfDigits(hi: char, lo: char)
    requires IsDigit(hi) && IsDigit(lo)
    ensures PadTwo(TwoDigitValue(hi, lo)) == [hi, lo]
  {
    var n := TwoDigitValue(hi, lo);
    PadTwoDigits(n);
    assert n / 10 == DigitValue(hi) && n % 10 == DigitValue(lo);
  }

  /** Adding no minutes gives the same time back. */
  lemma AddMinutesZero(t: string)
    requires IsValidTime(t)
    ensures AddMinutes(t, 0) == t
  {
    var m := ToMinutes(t);
    assert (m + 0) % MinutesPerDay == m;
    AddMinutesIsFormat(t, 0);
    FormatToMinutes(t);
  }

  /** Reducing modulo a day before adding more minutes changes nothing. */
  lemma ModDayAdd(x: nat, b: nat)
    ensures (x % MinutesPerDay + b) % MinutesPerDay == (x + b) % MinutesPerDay
  {
    var k := x / MinutesPerDay;
    assert x == MinutesPerDay * k + x % MinutesPerDay;
    assert x + b == MinutesPerDay * k + (x % MinutesPerDay + b);
  }

  /** `addMinutes` applied twice renders the wrapped sum. */
  lemma AddTwiceIsFormat(t: string, a: nat, b: nat)
    requires IsValidTime(t)
    ensures IsValidTime(AddMinutes(t, a))
    ensures AddMinutes(AddMinutes(t, a), b) == FormatTime((ToMinutes(t) + a + b) % MinutesPerDay)
  {
    var x := AddMinutes(t, a);
    AddMinutesWraps(t, a);
    ModDayAdd(ToMinutes(t) + a, b);
    assert (ToMinutes(x) + b) % MinutesPerDay == (ToMinutes(t) + a + b) % MinutesPerDay;
    AddMinutesIsFormat(x, b);
  }

  /** Adding a and then b minutes is adding a + b minutes. */
  lemma AddMinutesCompose(t: string, a: nat, b: nat)
    requires IsValidTime(t)
    ensures IsValidTime(AddMinutes(t, a))
    ensures AddMinutes(AddMinutes(t, a), b) == AddMinutes(t, a + b)
  {
    AddTwiceIsFormat(t, a, b);
    AddMinutesIsFormat(t, a + b);
  }

  /** `isValidSlotMinute` implies `isValidTime`, and holds exactly for the minute parts "00" and "30". */
  lemma SlotMinuteParts(s: string)
    ensures IsValidSlotMinute(s) ==> IsValidTime(s)
    ensures IsValidSlotMinute(s) <==> IsValidTime(s) && (s[3..] == "00" || s[3..] == "30")
  {
    if IsValidTime(s) {
      assert s[3..] == [s[3], s[4]];
    }
  }

  /** A sum below two days, reduced modulo a day. */
  lemma WrapOnce(x: nat, y: nat)
    requires y < MinutesPerDay && (x == y || x == y + MinutesPerDay)
    ensures x % MinutesPerDay == y
  {
  }

  /** Short of midnight, `addMinutes` is plain addition of minutes of the day. */
  lemma NoWrap(t: string, m: nat)
    requires IsValidTime(t) && ToMinutes(t) + m < MinutesPerDay
    ensures IsValidTime(AddMinutes(t, m))
    ensures ToMinutes(AddMinutes(t, m)) == ToMinutes(t) + m
    ensures AddMinutes(t, m) == FormatTime(ToMinutes(t) + m)
  {
    WrapOnce(ToMinutes(t) + m, ToMinutes(t) + m);
    AddMinutesWraps(t, m);
    AddMinutesIsFormat(t, m);
  }
}
