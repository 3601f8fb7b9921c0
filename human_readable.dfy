/**
 * hr.c: elapsed times and byte counts as short human-readable texts. Both are integer
 * arithmetic and one sprintf; the gigabyte branch of the size formatter prints a float and
 * is not modelled (FormatSize gives None there). Texts are character strings.
 */
module HumanReadable {
  import opened Wrappers

  const Kilobyte: nat := 1024
  const Megabyte: nat := 1024 * 1024
  const Gigabyte: nat := 1024 * 1024 * 1024
  const Minute: nat := 60
  const Hour: nat := 60 * 60

  predicate IsDigit(c: char) { '0' <= c <= '9' }

  predicate AllDigits(s: string) { forall i :: 0 <= i < |s| ==> IsDigit(s[i]) }

  function DigitChar(d: nat): (c: char)
    requires d < 10
    ensures IsDigit(c)
  {
    (48 + d) as char
  }

  function DigitValue(c: char): (d: nat)
    requires IsDigit(c)
    ensures d < 10 && DigitChar(d) == c
  {
    (c as int) - 48
  }

  /** "%d" of a non-negative number: its decimal digits, most significant first, no leading zero. */
  function Digits(n: nat): (s: string)
    ensures |s| > 0 && AllDigits(s)
    ensures |s| > 1 ==> s[0] != '0'
    decreases n
  {
    if n < 10 then [DigitChar(n)] else Digits(n / 10) + [DigitChar(n % 10)]
  }

  /** "%d" of an int: a '-' exactly for a negative number, then the digits of its size. */
  function Decimal(n: int): (s: string)
    ensures |s| > 0 && (s[0] == '-' <==> n < 0)
    ensures var digits := if n < 0 then s[1..] else s;
      |digits| > 0 && AllDigits(digits) && DigitsValue(digits) == if n < 0 then -n else n
  {
    var size := if n < 0 then -n else n;
    DigitsValueOfDigits(size);
    if n < 0 then "-" + Digits(size) else Digits(size)
  }

  /** "%02d": at least two characters, a non-negative number zero-padded and read back. */
  function Pad2(n: int): (s: string)
    ensures |s| >= 2
    ensures n >= 0 ==> AllDigits(s) && DigitsValue(s) == n
  {
    DigitsValueOfDigits(if n < 0 then -n else n);
    if 0 <= n < 10 then "0" + Digits(n) else Decimal(n)
  }

  /** The number a run of decimal digits denotes (leading zeros allowed). */
  function DigitsValue(s: string): nat
    requires AllDigits(s)
    decreases |s|
  {
    if s == [] then 0 else DigitsValue(s[..|s| - 1]) * 10 + DigitValue(s[|s| - 1])
  }

  lemma DivMod10(n: nat)
    ensures (n / 10) * 10 + n % 10 == n
  {
  }

  /** Reading "%d" back gives the number printed. */
  lemma {:induction false} DigitsValueOfDigits(n: nat)
    ensures DigitsValue(Digits(n)) == n
    decreases n
  {
    if n >= 10 {
      var s := Digits(n);
      assert s[..|s| - 1] == Digits(n / 10);
      DigitsValueOfDigits(n / 10);
      DivMod10(n);
    }
  }

  /** "%02d" of 0..99 is exactly two digits and reads back as the number. */
  lemma Pad2Reads(n: nat)
    requires n < 100
    ensures |Pad2(n)| == 2 && AllDigits(Pad2(n)) && DigitsValue(Pad2(n)) == n
  {
    DigitsValueOfDigits(n);
    if n < 10 {
      var s := Pad2(n);
      assert s[..1] == "0";
    } else {
      assert Digits(n / 10) == [DigitChar(n / 10)];
    }
  }

  /** The conversion of a long to a 32-bit int that gcc performs: modulo 2^32 into [-2^31, 2^31). */
  function ToInt32(x: int): (r: int)
    ensures -0x8000_0000 <= r < 0x8000_0000
    ensures -0x8000_0000 <= x < 0x8000_0000 ==> r == x
    ensures (x - r) % 0x1_0000_0000 == 0
  {
    (x + 0x8000_0000) % 0x1_0000_0000 - 0x8000_0000
  }

  /** C's `/` on ints by a positive divisor: the quotient rounded toward zero. */
  function Quot(a: int, b: nat): (q: int)
    requires b > 0
    ensures a >= 0 ==> q >= 0 && 0 <= a - q * b < b
    ensures a < 0 ==> q <= 0 && -(b as int) < a - q * b <= 0
  {
    if a >= 0 then a / b else -((-a) / b)
  }

  datatype Clock = Clock(hours: int, minutes: int, seconds: int)

  /**
   * makeHumanReadableTime's arithmetic: the elapsed time converted to int, whole hours
   * taken off, then whole minutes. For any time that fits an int the three parts add up
   * to it, with minutes and seconds of the same sign as the time and below 60 in size.
   */
  function Split(elapsed: int): (c: Clock)
    ensures -0x8000_0000 <= elapsed < 0x8000_0000 ==>
      c.hours * Hour + c.minutes * Minute + c.seconds == elapsed &&
      (elapsed >= 0 ==> c.hours >= 0 && 0 <= c.minutes < 60 && 0 <= c.seconds < 60) &&
      (elapsed < 0 ==> c.hours <= 0 && -60 < c.minutes <= 0 && -60 < c.seconds <= 0)
  {
    var s := ToInt32(elapsed);
    var h := Quot(s, Hour);
    var rest := s - h * Hour;
    var m := Quot(rest, Minute);
    Clock(h, m, rest - m * Minute)
  }

  /**
   * makeHumanReadableTime: "<h>h<mm>m[<ss>s]" from an hour on, "<m>m[<ss>s]" from a
   * minute on, "<n>s" below; the seconds field is left out when it is zero. The branch is
   * chosen on the long value, the fields come from its int conversion.
   */
  function FormatTime(elapsed: int): string
  {
    TimeText(elapsed, Split(elapsed))
  }

  /** The sprintf of makeHumanReadableTime for the long value and the parts of its int conversion. */
  function TimeText(elapsed: int, c: Clock): string
  {
    if elapsed >= Hour then
      if c.seconds == 0 then Decimal(c.hours) + "h" + Pad2(c.minutes) + "m"
      else Decimal(c.hours) + "h" + Pad2(c.minutes) + "m" + Pad2(c.seconds) + "s"
    else if elapsed >= Minute then
      if c.seconds == 0 then Decimal(c.minutes) + "m"
      else Decimal(c.minutes) + "m" + Pad2(c.seconds) + "s"
    else Decimal(elapsed) + "s"
  }

  /** The seconds a unit letter stands for in a time text. */
  function UnitSeconds(c: char): nat
  {
    if c == 'h' then Hour else if c == 'm' then Minute else if c == 's' then 1 else 0
  }

  /** A reader's progress through a time text: seconds counted so far and the digits pending. */
  datatype Reading = Reading(total: nat, pending: nat)

  /** One more character: a digit extends the pending number, a unit letter counts it. */
  function Feed(r: Reading, c: char): Reading
  {
    if IsDigit(c) then Reading(r.total, r.pending * 10 + DigitValue(c))
    else Reading(r.total + r.pending * UnitSeconds(c), 0)
  }

  function Scan(s: string, r: Reading): Reading
    decreases |s|
  {
    if s == [] then r else Feed(Scan(s[..|s| - 1], r), s[|s| - 1])
  }

  /**
   * How many seconds a time text names, read independently of how it was made: every
   * number times the unit letter that follows it, added up.
   */
  function ReadTime(s: string): nat { Scan(s, Reading(0, 0)).total }

  lemma {:induction false} ScanAppend(a: string, b: string, r: Reading)
    ensures Scan(a + b, r) == Scan(b, Scan(a, r))
    decreases |b|
  {
    if b == [] {
      assert a + b == a;
    } else {
      var ab := a + b;
      assert ab[..|ab| - 1] == a + b[..|b| - 1];
      assert ab[|ab| - 1] == b[|b| - 1];
      ScanAppend(a, b[..|b| - 1], r);
    }
  }

  /** Reading a number's digits leaves that number pending. */
  lemma {:induction false} ScanDigits(s: string, total: nat)
    requires AllDigits(s)
    ensures Scan(s, Reading(total, 0)) == Reading(total, DigitsValue(s))
    decreases |s|
  {
    if s != [] {
      ScanDigits(s[..|s| - 1], total);
    }
  }

  /** Reading a number followed by its unit letter counts it. */
  lemma ScanField(pre: string, digits: string, unit: char, t: string, total: nat)
    requires AllDigits(digits) && unit in "hms" && t == pre + digits + [unit]
    requires Scan(pre, Reading(0, 0)) == Reading(total, 0)
    ensures Scan(t, Reading(0, 0)) == Reading(total + DigitsValue(digits) * UnitSeconds(unit), 0)
  {
    ScanAppend(pre, digits, Reading(0, 0));
    ScanDigits(digits, total);
    ScanAppend(pre + digits, [unit], Reading(0, 0));
    assert [unit][..0] == [];
  }

  /** A number and its unit reads back as that many units. */
  lemma ReadOneField(d: string, unit: char)
    requires AllDigits(d) && unit in "hms"
    ensures Scan(d + [unit], Reading(0, 0)) == Reading(DigitsValue(d) * UnitSeconds(unit), 0)
  {
    ScanField([], d, unit, d + [unit], 0);
  }

  /** Two fields read back as the sum of what each stands for. */
  lemma ReadTwoFields(d1: string, u1: char, d2: string, u2: char)
    requires AllDigits(d1) && AllDigits(d2) && u1 in "hms" && u2 in "hms"
    ensures Scan(d1 + [u1] + d2 + [u2], Reading(0, 0)) ==
      Reading(DigitsValue(d1) * UnitSeconds(u1) + DigitsValue(d2) * UnitSeconds(u2), 0)
  {
    ReadOneField(d1, u1);
    ScanField(d1 + [u1], d2, u2, d1 + [u1] + d2 + [u2], DigitsValue(d1) * UnitSeconds(u1));
  }

  /** Three fields read back as the sum of what each stands for. */
  lemma ReadThreeFields(d1: string, u1: char, d2: string, u2: char, d3: string, u3: char)
    requires AllDigits(d1) && AllDigits(d2) && AllDigits(d3) && u1 in "hms" && u2 in "hms" && u3 in "hms"
    ensures Scan(d1 + [u1] + d2 + [u2] + d3 + [u3], Reading(0, 0)) ==
      Reading(DigitsValue(d1) * UnitSeconds(u1) + DigitsValue(d2) * UnitSeconds(u2) + DigitsValue(d3) * UnitSeconds(u3), 0)
  {
    ReadTwoFields(d1, u1, d2, u2);
    var pre := d1 + [u1] + d2 + [u2];
    ScanField(pre, d3, u3, pre + d3 + [u3], DigitsValue(d1) * UnitSeconds(u1) + DigitsValue(d2) * UnitSeconds(u2));
  }

  /** From an hour on: "<h>h<mm>m[<ss>s]" reads back as the time. */
  lemma ReadHoursTime(elapsed: int, h: nat, m: nat, sec: nat)
    requires m < 60 && sec < 60 && elapsed >= Hour
    requires h * Hour + m * Minute + sec == elapsed
    ensures ReadTime(TimeText(elapsed, Clock(h, m, sec))) == elapsed
  {
    var t := TimeText(elapsed, Clock(h, m, sec));
    var dh, pm := Digits(h), Pad2(m);
    DigitsValueOfDigits(h);
    Pad2Reads(m);
    if sec == 0 {
      assert t == dh + ['h'] + pm + ['m'];
      ReadTwoFields(dh, 'h', pm, 'm');
    } else {
      var ps := Pad2(sec);
      Pad2Reads(sec);
      assert t == dh + ['h'] + pm + ['m'] + ps + ['s'];
      ReadThreeFields(dh, 'h', pm, 'm', ps, 's');
    }
  }

  /** From a minute on: "<m>m[<ss>s]" reads back as the time. */
  lemma ReadMinutesTime(elapsed: int, m: nat, sec: nat)
    requires sec < 60 && Minute <= elapsed < Hour
    requires m * Minute + sec == elapsed
    ensures ReadTime(TimeText(elapsed, Clock(0, m, sec))) == elapsed
  {
    DigitsValueOfDigits(m);
    var t := TimeText(elapsed, Clock(0, m, sec));
    if sec == 0 {
      assert t == Digits(m) + ['m'];
      ReadOneField(Digits(m), 'm');
    } else {
      assert t == Digits(m) + ['m'] + Pad2(sec) + ['s'];
      Pad2Reads(sec);
      ReadTwoFields(Digits(m), 'm', Pad2(sec), 's');
    }
  }

  /** Below a minute: "<n>s" reads back as the time. */
  lemma ReadSecondsTime(elapsed: nat, c: Clock)
    requires elapsed < Minute
    ensures ReadTime(TimeText(elapsed, c)) == elapsed
  {
    DigitsValueOfDigits(elapsed);
    ReadOneField(Digits(elapsed), 's');
  }

  /** Reading a time text back gives the elapsed time, for every time from 0 up to the largest int. */
  lemma ReadFormattedTime(elapsed: int)
    requires 0 <= elapsed < 0x8000_0000
    ensures ReadTime(FormatTime(elapsed)) == elapsed
  {
    var c := Split(elapsed);
    if elapsed >= Hour {
      ReadHoursTime(elapsed, c.hours, c.minutes, c.seconds);
    } else if elapsed >= Minute {
      ReadMinutesTime(elapsed, c.minutes, c.seconds);
    } else {
      ReadSecondsTime(elapsed, c);
    }
  }

  /** Distinct times give distinct texts. */
  lemma FormatTimeInjective(a: int, b: int)
    requires 0 <= a < 0x8000_0000 && 0 <= b < 0x8000_0000
    ensures FormatTime(a) == FormatTime(b) <==> a == b
  {
    ReadFormattedTime(a);
    ReadFormattedTime(b);
  }

  /** The three shapes of a time text, for parts that add up to the time. */
  lemma TimeTextShapes(elapsed: int, c: Clock)
    requires c.hours >= 0 && 0 <= c.minutes < 60 && 0 <= c.seconds < 60 && 0 <= elapsed
    requires c.hours * Hour + c.minutes * Minute + c.seconds == elapsed
    ensures var t := TimeText(elapsed, c);
      (elapsed < Minute ==> t == Digits(elapsed) + "s") &&
      (Minute <= elapsed < Hour ==>
        c.hours == 0 && c.minutes >= 1 &&
        t == Digits(c.minutes) + "m" + (if c.seconds == 0 then "" else Pad2(c.seconds) + "s")) &&
      (Hour <= elapsed ==>
        c.hours >= 1 &&
        t == Digits(c.hours) + "h" + Pad2(c.minutes) + "m" + (if c.seconds == 0 then "" else Pad2(c.seconds) + "s"))
  {
    var t := TimeText(elapsed, c);
    if Minute <= elapsed < Hour && c.seconds == 0 {
      assert t + "" == t;
    }
    if Hour <= elapsed && c.seconds == 0 {
      assert t + "" == t;
    }
  }

  /**
   * Below a minute the text is "<n>s"; up to an hour "<m>m" with "<ss>s" after it unless
   * the seconds are zero; from an hour on "<h>h<mm>m", again with "<ss>s" unless zero.
   */
  lemma TimeShapes(elapsed: int)
    requires 0 <= elapsed < 0x8000_0000
    ensures var c := Split(elapsed); var t := FormatTime(elapsed);
      (elapsed < Minute ==> t == Digits(elapsed) + "s") &&
      (Minute <= elapsed < Hour ==>
        c.hours == 0 && c.minutes >= 1 &&
        t == Digits(c.minutes) + "m" + (if c.seconds == 0 then "" else Pad2(c.seconds) + "s")) &&
      (Hour <= elapsed ==>
        c.hours >= 1 &&
        t == Digits(c.hours) + "h" + Pad2(c.minutes) + "m" + (if c.seconds == 0 then "" else Pad2(c.seconds) + "s"))
  {
    TimeTextShapes(elapsed, Split(elapsed));
  }

  /** Inclusive thresholds: 60 seconds is "1m" and 3600 seconds is "1h00m". */
  lemma TimeThresholds()
    ensures FormatTime(59) == "59s" && FormatTime(60) == "1m" && FormatTime(3600) == "1h00m"
  {
    assert Split(60) == Clock(0, 1, 0);
    assert Split(3600) == Clock(1, 0, 0);
    assert Digits(59) == "59";
  }

  /**
   * makeHumanReadableSize below a gigabyte: the size in whole Mb from 1 MiB on, in whole Kb
   * from 1024 on, else in bytes. The gigabyte branch prints a float and gives None here.
   */
  function FormatSize(size: nat): Option<string>
  {
    if size >= Gigabyte then None
    else if size >= Megabyte then Some(Decimal(size / Megabyte) + " Mb")
    else if size >= Kilobyte then Some(Decimal(size / Kilobyte) + " Kb")
    else Some(Decimal(size) + " b")
  }

  /** How many decimal digits a text starts with. */
  function LeadingDigits(s: string): (k: nat)
    ensures k <= |s|
    decreases |s|
  {
    if s != [] && IsDigit(s[0]) then 1 + LeadingDigits(s[1..]) else 0
  }

  /** The bytes one unit of a size text stands for. */
  function UnitBytes(unit: string): Option<nat>
  {
    if unit == " b" then Some(1)
    else if unit == " Kb" then Some(Kilobyte)
    else if unit == " Mb" then Some(Megabyte)
    else None
  }

  /**
   * The range of sizes a size text can stand for, read independently of how it was made:
   * a number of whole units covers the sizes from that many units up to one unit more.
   */
  function SizeRange(s: string): Option<(nat, nat)>
  {
    var k := LeadingDigits(s);
    if k == 0 then None
    else
      assert AllDigits(s[..k]) by { LeadingDigitsAreDigits(s); }
      match UnitBytes(s[k..])
      case None => None
      case Some(w) => Some((DigitsValue(s[..k]) * w, DigitsValue(s[..k]) * w + w))
  }

  lemma {:induction false} LeadingDigitsAreDigits(s: string)
    ensures AllDigits(s[..LeadingDigits(s)])
    decreases |s|
  {
    if s != [] && IsDigit(s[0]) {
      LeadingDigitsAreDigits(s[1..]);
      assert s[..LeadingDigits(s)] == [s[0]] + s[1..][..LeadingDigits(s[1..])];
    }
  }

  /** The digits of a number followed by a space are read as exactly that number. */
  lemma {:induction false} LeadingDigitsOfField(digits: string, rest: string)
    requires AllDigits(digits) && rest != [] && !IsDigit(rest[0])
    ensures LeadingDigits(digits + rest) == |digits|
    decreases |digits|
  {
    if digits == [] {
      assert digits + rest == rest;
    } else {
      assert (digits + rest)[1..] == digits[1..] + rest;
      LeadingDigitsOfField(digits[1..], rest);
    }
  }

  /** Reading a size text of a number and a unit. */
  lemma ReadSizeField(q: nat, unit: string, w: nat)
    requires UnitBytes(unit) == Some(w)
    ensures SizeRange(Digits(q) + unit) == Some((q * w, q * w + w))
  {
    var s := Digits(q) + unit;
    LeadingDigitsOfField(Digits(q), unit);
    assert s[..|Digits(q)|] == Digits(q) && s[|Digits(q)|..] == unit;
    DigitsValueOfDigits(q);
  }

  lemma FloorInUnit(size: nat, w: nat)
    requires w > 0
    ensures (size / w) * w <= size < (size / w) * w + w
  {
  }

  /** A size shown in unit w as its floor names a range that holds it. */
  lemma SizeInUnit(size: nat, unit: string, w: nat, text: string)
    requires UnitBytes(unit) == Some(w) && text == Digits(size / w) + unit
    ensures SizeRange(text) == Some(((size / w) * w, (size / w) * w + w))
    ensures (size / w) * w <= size < (size / w) * w + w
  {
    ReadSizeField(size / w, unit, w);
    FloorInUnit(size, w);
  }

  /**
   * Below a gigabyte the size text is the floor of the size in the largest unit that is at
   * most the size: the range it names holds the size, its unit is not above the size (or
   * is one byte), and fewer than 1024 units are shown. At and above a gigabyte there is no
   * integer text.
   */
  lemma SizeTextIsFloor(size: nat)
    ensures FormatSize(size).Some? <==> size < Gigabyte
    ensures FormatSize(size).Some? ==>
      SizeRange(FormatSize(size).value).Some? &&
      var (lo, hi) := SizeRange(FormatSize(size).value).value;
      lo <= size < hi && (hi - lo <= size || hi - lo == 1) && size < (hi - lo) * 1024
  {
    if size >= Megabyte && size < Gigabyte {
      SizeInUnit(size, " Mb", Megabyte, FormatSize(size).value);
    } else if Kilobyte <= size < Megabyte {
      SizeInUnit(size, " Kb", Kilobyte, FormatSize(size).value);
    } else if size < Kilobyte {
      SizeInUnit(size, " b", 1, FormatSize(size).value);
    }
  }

  /** Thresholds are inclusive: 1023 bytes is "1023 b", 1024 bytes is "1 Kb", 1 MiB is "1 Mb". */
  lemma SizeThresholds()
    ensures FormatSize(1023) == Some("1023 b") && FormatSize(1024) == Some("1 Kb")
    ensures FormatSize(Megabyte) == Some("1 Mb")
  {
    assert DigitChar(1) == '1' && DigitChar(0) == '0' && DigitChar(2) == '2' && DigitChar(3) == '3';
    assert Digits(1) == "1";
    assert Digits(10) == "10";
    assert Digits(102) == "102";
    assert Digits(1023) == "1023";
    assert FormatSize(1023) == Some(Digits(1023) + " b");
    assert FormatSize(1024) == Some(Digits(1) + " Kb");
    assert FormatSize(Megabyte) == Some(Digits(1) + " Mb");
    assert "1023" + " b" == "1023 b" && "1" + " Kb" == "1 Kb" && "1" + " Mb" == "1 Mb";
  }
}
