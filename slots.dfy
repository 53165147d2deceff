/**
 * The time-slot resolver of `city_weather`: a requested "YYYY-MM-DDTHH:MM"
 * has its last two characters read as a minute, floored to a quarter hour,
 * written back, and the result is accepted only if it is a real date-time.
 */
module Slots {
  import opened Common
  import opened DateTimes

  /** `s[-2:]` in Python: the last two characters, or all of a shorter string. */
  function LastTwo(s: string): (r: string)
    ensures |r| == if |s| >= 2 then 2 else |s|
    ensures s == DropLastTwo(s) + r
  {
    if |s| >= 2 then s[|s| - 2..] else s
  }

  /** `s[:-2]` in Python: all but the last two characters. */
  function DropLastTwo(s: string): (r: string)
    ensures |r| == if |s| >= 2 then |s| - 2 else 0
    ensures r == s[..|r|]
  {
    if |s| >= 2 then s[..|s| - 2] else []
  }

  /**
   * The characters below 256 that `int()` skips around the digits: the
   * C-locale white space, and the two Latin-1 spaces it maps to ' '.
   */
  predicate IsSpace(c: char) {
    c == ' ' || c == '\t' || c == '\n' || c == '\r'
    || (c as int) == 0x0B || (c as int) == 0x0C
    || (c as int) == 0x85 || (c as int) == 0xA0
  }

  /** `s` without the leading and trailing white space `int()` skips. */
  function Strip(s: string): (r: string)
    ensures |r| <= |s|
    ensures r != [] ==> !IsSpace(r[0]) && !IsSpace(r[|r| - 1])
    ensures (forall i | 0 <= i < |s| :: !IsSpace(s[i])) ==> r == s
    decreases |s|
  {
    if s == [] then []
    else if IsSpace(s[0]) then Strip(s[1..])
    else if IsSpace(s[|s| - 1]) then Strip(s[..|s| - 1])
    else s
  }

  predicate AllSpace(s: string) {
    forall i | 0 <= i < |s| :: IsSpace(s[i])
  }

  /** What `Strip` removes is white space, from the two ends only. */
  lemma {:induction false} StripTrims(s: string)
    ensures exists lead, trail | AllSpace(lead) && AllSpace(trail) :: s == lead + Strip(s) + trail
    decreases |s|
  {
    if s == [] {
      assert AllSpace(s) && s == s + Strip(s) + s;
    } else if IsSpace(s[0]) {
      StripTrims(s[1..]);
      var lead, trail :| AllSpace(lead) && AllSpace(trail) && s[1..] == lead + Strip(s[1..]) + trail;
      assert s == [s[0]] + s[1..];
      SpaceBefore(s[0], lead, Strip(s), trail);
    } else if IsSpace(s[|s| - 1]) {
      var t := s[..|s| - 1];
      StripTrims(t);
      var lead, trail :| AllSpace(lead) && AllSpace(trail) && t == lead + Strip(t) + trail;
      assert s == t + [s[|s| - 1]];
      SpaceAfter(s[|s| - 1], lead, Strip(s), trail);
    } else {
      var none: string := [];
      assert AllSpace(none) && s == none + Strip(s) + none;
    }
  }

  lemma SpaceBefore(c: char, lead: string, mid: string, trail: string)
    requires IsSpace(c) && AllSpace(lead)
    ensures [c] + (lead + mid + trail) == ([c] + lead) + mid + trail && AllSpace([c] + lead)
  {
  }

  lemma SpaceAfter(c: char, lead: string, mid: string, trail: string)
    requires IsSpace(c) && AllSpace(trail)
    ensures (lead + mid + trail) + [c] == lead + mid + (trail + [c]) && AllSpace(trail + [c])
  {
  }

  /** Python's `int()` syntax after stripping: an optional sign, then one or more ASCII digits. */
  predicate IsIntText(t: string) {
    && t != []
    && if t[0] == '-' || t[0] == '+' then t[1..] != [] && AllDigits(t[1..]) else AllDigits(t)
  }

  predicate AllDigits(s: string) {
    forall i | 0 <= i < |s| :: IsDigit(s[i])
  }

  function Pow10(n: nat): (p: nat)
    ensures p >= 1
  {
    if n == 0 then 1 else 10 * Pow10(n - 1)
  }

  /** The value of a run of decimal digits, most significant first. */
  function DigitsValue(s: string): (v: nat)
    requires AllDigits(s)
    ensures v < Pow10(|s|)
  {
    if s == [] then 0 else 10 * DigitsValue(s[..|s| - 1]) + DigitValue(s[|s| - 1])
  }

  /**
   * `int(s)` on a string: optional surrounding white space, an optional sign,
   * then one or more decimal digits; None where Python raises ValueError.
   */
  function ParseInt(s: string): (r: Option<int>)
    ensures r.None? <==> !IsIntText(Strip(s))
    ensures r.Some? && AllDigits(Strip(s)) ==> r.value == DigitsValue(Strip(s))
    ensures r.Some? && Strip(s)[0] == '+' ==> r.value == DigitsValue(Strip(s)[1..])
    ensures r.Some? && Strip(s)[0] == '-' ==> r.value == -(DigitsValue(Strip(s)[1..]) as int)
    ensures r.Some? ==> -(Pow10(|s|) as int) < r.value < Pow10(|s|)
    ensures r.Some? && r.value < 0 ==> |s| >= 1 && -(Pow10(|s| - 1) as int) < r.value
  {
    var t := Strip(s);
    if t != [] && (t[0] == '-' || t[0] == '+') then
      var digits := t[1..];
      if digits != [] && AllDigits(digits) then
        assert Pow10(|digits|) <= Pow10(|s| - 1) <= Pow10(|s|) by {
          Pow10Monotone(|digits|, |s| - 1);
          Pow10Monotone(|s| - 1, |s|);
        }
        Some(if t[0] == '-' then -(DigitsValue(digits) as int) else DigitsValue(digits))
      else None
    else if t != [] && AllDigits(t) then
      Pow10Monotone(|t|, |s|);
      Some(DigitsValue(t))
    else None
  }

  lemma {:induction false} Pow10Monotone(a: nat, b: nat)
    requires a <= b
    ensures Pow10(a) <= Pow10(b)
    decreases b
  {
    if a < b {
      Pow10Monotone(a, b - 1);
    }
  }

  /** The decimal text of `n`, without leading zeros. */
  function Decimal(n: nat): (s: string)
    ensures s != [] && AllDigits(s)
  {
    if n < 10 then [DigitChar(n)] else Decimal(n / 10) + [DigitChar(n % 10)]
  }

  /** Reading the decimal text of `n` gives back `n`. */
  lemma {:induction false} DigitsValueOfDecimal(n: nat)
    ensures DigitsValue(Decimal(n)) == n
  {
    if n >= 10 {
      var s := Decimal(n);
      assert s[..|s| - 1] == Decimal(n / 10);
      DigitsValueOfDecimal(n / 10);
    }
  }

  /** `f'{n:02d}'`: the decimal text of `n`, zero-padded to two places. */
  function Format02d(n: int): (s: string)
    ensures 0 <= n < 100 ==> s == Pad2(n)
    ensures n < 0 ==> |s| >= 2 && s[0] == '-'
  {
    if n < 0 then "-" + Decimal(-n)
    else if n < 10 then ['0'] + Decimal(n)
    else assert n < 100 ==> Decimal(n / 10) == [DigitChar(n / 10)]; Decimal(n)
  }

  /** `int(f'{n:02d}')` gives back `n`: the formatter and the parser agree. */
  lemma ParseIntFormat02d(n: int)
    ensures ParseInt(Format02d(n)) == Some(n)
  {
    var d := Decimal(if n < 0 then -n else n);
    DigitsValueOfDecimal(if n < 0 then -n else n);
    if n < 0 {
      ParseIntOfSigned(d);
    } else if n < 10 {
      assert Format02d(n) == ['0'] + d;
      assert (['0'] + d)[..1] == ['0'];
      ParseIntOfDigits(['0'] + d);
    } else {
      ParseIntOfDigits(d);
    }
  }

  lemma ParseIntOfDigits(d: string)
    requires d != [] && AllDigits(d)
    ensures ParseInt(d) == Some(DigitsValue(d))
  {
    assert forall i | 0 <= i < |d| :: !IsSpace(d[i]);
  }

  lemma ParseIntOfSigned(d: string)
    requires d != [] && AllDigits(d)
    ensures ParseInt("-" + d) == Some(-(DigitsValue(d) as int))
  {
    var s := "-" + d;
    assert forall i | 0 <= i < |s| :: !IsSpace(s[i]);
    assert s[1..] == d;
  }

  /** `(m // 15) * 15`: `m` floored to a multiple of 15 (Python's `//` floors). */
  function FloorTo15(m: int): (r: int)
    ensures r % 15 == 0 && r <= m < r + 15
    ensures 0 <= m < 60 ==> r == 0 || r == 15 || r == 30 || r == 45
  {
    (m / 15) * 15
  }

  /**
   * The slot key for a requested time, or None where `city_weather` answers
   * 400 "Invalid date provided".
   */
  function Resolve(time: string): (r: Option<string>)
    ensures r.Some? ==> Parse(r.value).Some?
  {
    match ParseInt(LastTwo(time))
    case None => None
    case Some(m) =>
      var key := DropLastTwo(time) + Format02d(FloorTo15(m));
      if Parse(key).Some? then Some(key) else None
  }

  /**
   * What an accepted request resolves to: the request was 16 characters, its
   * first 14 ("YYYY-MM-DDTHH:") are kept, and the key's minute is the
   * quarter hour at or below the requested minute.
   */
  lemma ResolvedSlot(time: string)
    requires Resolve(time).Some?
    ensures |time| == 16 && ParseInt(LastTwo(time)).Some?
    ensures var key := Resolve(time).value;
            var m := ParseInt(LastTwo(time)).value;
            var minute := Parse(key).value.minute;
            && key[..14] == time[..14]
            && minute % 15 == 0 && minute <= m < minute + 15
            && minute in {0, 15, 30, 45}
  {
    var key := Resolve(time).value;
    var m := ParseInt(LastTwo(time)).value;
    var f := FloorTo15(m);
    assert Pow10(2) == 100 && Pow10(1) == 10;
    Pow10Monotone(|LastTwo(time)|, 2);
    if |LastTwo(time)| >= 1 {
      Pow10Monotone(|LastTwo(time)| - 1, 1);
    }
    assert key == DropLastTwo(time) + Pad2(f);
    assert key[14..] == Pad2(f);
  }

  /**
   * The three ways a request is refused: its last two characters are not an
   * integer, the floored minute is 60 or more, or the rebuilt text is not a
   * real date-time (a 16-character layout is needed for that).
   */
  lemma ResolveRejects(time: string)
    ensures ParseInt(LastTwo(time)).None? ==> Resolve(time).None?
    ensures ParseInt(LastTwo(time)).Some? && FloorTo15(ParseInt(LastTwo(time)).value) >= 60 ==> Resolve(time).None?
    ensures ParseInt(LastTwo(time)).Some? && Parse(DropLastTwo(time) + Format02d(FloorTo15(ParseInt(LastTwo(time)).value))).None?
            ==> Resolve(time).None?
    ensures |time| != 16 ==> Resolve(time).None?
  {
    if Resolve(time).Some? {
      ResolvedSlot(time);
    }
  }

  /** Resolving an accepted key again gives the same key. */
  lemma ResolveIdempotent(time: string)
    requires Resolve(time).Some?
    ensures Resolve(Resolve(time).value) == Resolve(time)
  {
    var key := Resolve(time).value;
    ResolvedSlot(time);
    var f := Parse(key).value.minute;
    assert WellFormed(key) && Num2(key, 14) == f;
    Pad2OfDigits(key[14], key[15]);
    assert LastTwo(key) == Pad2(f);
    ParseIntFormat02d(f);
    assert FloorTo15(f) == f;
    assert DropLastTwo(key) + Format02d(f) == key;
  }

  /**
   * Every real instant is accepted, and resolves to the same instant with
   * its minute floored to a quarter hour.
   */
  lemma ResolveInstant(dt: DateTime)
    requires Valid(dt)
    ensures Resolve(Format(dt)) == Some(Format(dt.(minute := FloorTo15(dt.minute))))
  {
    var s := Format(dt);
    var slot := dt.(minute := FloorTo15(dt.minute));
    Pad2OfDigits(s[14], s[15]);
    assert LastTwo(s) == Pad2(dt.minute);
    ParseIntFormat02d(dt.minute);
    var prefix := Pad4(dt.year) + "-" + Pad2(dt.month) + "-" + Pad2(dt.day) + "T" + Pad2(dt.hour) + ":";
    assert s == prefix + Pad2(dt.minute);
    assert DropLastTwo(s) == prefix;
    assert Format(slot) == prefix + Pad2(slot.minute);
    ParseFormat(slot);
  }

  /** 08:47 falls in the 08:45 slot. */
  lemma ResolveExampleFloors()
    ensures Resolve("2024-01-01T08:47") == Some("2024-01-01T08:45")
  {
    var dt := DateTime(2024, 1, 1, 8, 47);
    var slot := DateTime(2024, 1, 1, 8, 45);
    FormatExample(dt, "2024-01-01T08:47");
    FormatExample(slot, "2024-01-01T08:45");
    assert FloorTo15(47) == 45;
    ResolveInstant(dt);
    assert dt.(minute := FloorTo15(dt.minute)) == slot;
  }

  lemma FormatExample(dt: DateTime, s: string)
    requires WellFormed(s) && Valid(dt)
    requires dt == DateTime(100 * Num2(s, 0) + Num2(s, 2), Num2(s, 5), Num2(s, 8), Num2(s, 11), Num2(s, 14))
    ensures Format(dt) == s
  {
    FormatOfFields(s, dt);
  }

  /** An accepted request names a real hour of the day in characters 11-12. */
  lemma ResolvedHour(time: string)
    ensures Resolve(time).Some? ==>
              && |time| == 16 && IsDigit(time[11]) && IsDigit(time[12])
              && Num2(time, 11) < 24
  {
    if Resolve(time).Some? {
      ResolvedSlot(time);
      var key := Resolve(time).value;
      var dt := Parse(key).value;
      assert key[11] == time[11] && key[12] == time[12];
      assert Num2(key, 11) == dt.hour;
    }
  }

  /** Hours 25 and 55 are refused. */
  lemma ResolveExampleRejectsHour()
    ensures Resolve("2024-01-01T25:10").None?
    ensures Resolve("2026-10-15T55:08").None?
  {
    ResolvedHour("2024-01-01T25:10");
    ResolvedHour("2026-10-15T55:08");
  }
}
