/**
 * The filename timestamp of the flashcards module: the UTC fields of a date,
 * each padded to two characters, written as `YYYYMMDD-HHMMSS`.
 */
module DateFormat {
  import opened Wrappers
  import opened Decimal

  /** The UTC fields a JavaScript `Date` reports; `month0` is zero-based, as `getUTCMonth` gives it. */
  datatype UtcDate = UtcDate(year: int, month0: int, day: int, hours: int, minutes: int, seconds: int)

  /** The ranges `getUTCMonth`, `getUTCDate`, `getUTCHours`, `getUTCMinutes` and `getUTCSeconds` return. */
  predicate ValidDate(d: UtcDate) {
    && 0 <= d.month0 <= 11
    && 1 <= d.day <= 31
    && 0 <= d.hours <= 23
    && 0 <= d.minutes <= 59
    && 0 <= d.seconds <= 59
  }

  predicate FourDigitYear(d: UtcDate) {
    1000 <= d.year <= 9999
  }

  /** The inner `pad`: a one-character string gets a leading "0"; any other string is returned as it is. */
  function Pad(s: string): (r: string) {
    if |s| == 1 then "0" + s else s
  }

  /** `_formattedDate`: year, one-based month, day, "-", hours, minutes, seconds, each through `Pad`. */
  function FormattedDate(d: UtcDate): (s: string) {
    Pad(IntToString(d.year)) + Pad(IntToString(d.month0 + 1)) + Pad(IntToString(d.day)) + "-"
    + Pad(IntToString(d.hours)) + Pad(IntToString(d.minutes)) + Pad(IntToString(d.seconds))
  }

  /** Every formatted date holds at least the `-`, so it is never empty, hence truthy. */
  lemma FormattedDateNotEmpty(d: UtcDate)
    ensures |FormattedDate(d)| >= 1
  {
  }

  /** No formatted date contains a `/`, so a generated `@id` never splits a path. */
  lemma FormattedDateHasNoSlash(d: UtcDate)
    ensures '/' !in FormattedDate(d)
  {
    forall n: int
      ensures '/' !in Pad(IntToString(n))
    {
      var s := IntToString(n);
      var t := NatToString(if n < 0 then -n else n);
      assert forall i :: 0 <= i < |t| ==> t[i] != '/';
      assert s == t || s == "-" + t;
    }
  }

  /** A number below 100 spelt with exactly two digits. */
  function Field2(n: nat): (s: string)
    requires n < 100
  {
    [DigitChar(n / 10), DigitChar(n % 10)]
  }

  /** A number below 10000 spelt with exactly four digits. */
  function Field4(n: nat): (s: string)
    requires n < 10000
  {
    [DigitChar(n / 1000), DigitChar(n / 100 % 10), DigitChar(n / 10 % 10), DigitChar(n % 10)]
  }

  /** `Pad` prepends exactly when its argument has one character, keeps that argument as its
      suffix, and only ever adds a zero digit, so a numeral keeps its value. */
  lemma PadKeepsSuffix(s: string)
    ensures |Pad(s)| == if |s| == 1 then 2 else |s|
    ensures Pad(s)[|Pad(s)| - |s|..] == s
    ensures Pad(s) != s ==> Pad(s) == ['0'] + s
    ensures AllDigits(s) ==> AllDigits(Pad(s)) && Value(Pad(s)) == Value(s)
  {
    if |s| == 1 {
      var p := Pad(s);
      assert p[..|p| - 1] == ['0'];
      assert Value(['0']) == Value([]) * 10 + 0;
    }
  }

  /** Every value 0..99 comes out of `Pad` as exactly two digits. */
  lemma PadTwoDigits(n: nat)
    requires n < 100
    ensures Pad(IntToString(n)) == Field2(n)
    ensures |Pad(IntToString(n))| == 2 && AllDigits(Pad(IntToString(n))) && Value(Pad(IntToString(n))) == n
  {
    if n < 10 {
      OneDigit(n);
      assert DigitChar(0) == '0';
    } else {
      TwoDigits(n);
    }
    ValueOfField2(n);
  }

  /** A four-digit year is not changed by `Pad`. */
  lemma PadFourDigits(n: nat)
    requires 1000 <= n < 10000
    ensures Pad(IntToString(n)) == Field4(n)
  {
    FourDigits(n);
  }

  lemma ValueOfField2(n: nat)
    requires n < 100
    ensures Value(Field2(n)) == n
  {
    var s := Field2(n);
    assert s[..1] == [DigitChar(n / 10)];
    assert s[..1][..0] == [];
    assert Value(s[..1]) == n / 10;
    assert Value(s) == Value(s[..1]) * 10 + n % 10;
  }

  lemma ValueOfField4(n: nat)
    requires n < 10000
    ensures Value(Field4(n)) == n
  {
    var s := Field4(n);
    assert s[..3] == s[..4][..3];
    assert s[..2] == s[..3][..2];
    assert s[..1] == s[..2][..1];
    assert s[..1][..0] == [];
    assert Value(s[..1]) == n / 1000;
    assert Value(s[..2]) == n / 1000 * 10 + n / 100 % 10 == n / 100;
    assert Value(s[..3]) == n / 100 * 10 + n / 10 % 10 == n / 10;
  }

  /** Any two-digit string is the `Field2` spelling of its value. */
  lemma Field2OfValue(t: string)
    requires |t| == 2 && AllDigits(t)
    ensures 0 <= Value(t) < 100 && Field2(Value(t)) == t
  {
    assert t[..1] == [t[0]];
    assert t[..1][..0] == [];
    var v := Value(t);
    assert Value(t[..1]) == DigitValue(t[0]);
    assert v == DigitValue(t[0]) * 10 + DigitValue(t[1]);
    assert v / 10 == DigitValue(t[0]) && v % 10 == DigitValue(t[1]);
  }

  /** Any four-digit string is the `Field4` spelling of its value. */
  lemma Field4OfValue(t: string)
    requires |t| == 4 && AllDigits(t)
    ensures 0 <= Value(t) < 10000 && Field4(Value(t)) == t
  {
    assert t[..3] == t[..4][..3];
    assert t[..2] == t[..3][..2];
    assert t[..1] == t[..2][..1];
    assert t[..1] == [t[0]];
    assert t[..1][..0] == [];
    var a, b, c, e := DigitValue(t[0]), DigitValue(t[1]), DigitValue(t[2]), DigitValue(t[3]);
    var v := Value(t);
    assert Value(t[..1]) == a;
    assert Value(t[..2]) == a * 10 + b;
    assert Value(t[..3]) == (a * 10 + b) * 10 + c;
    assert v == ((a * 10 + b) * 10 + c) * 10 + e;
    assert v / 1000 == a;
    assert v / 100 == a * 10 + b && v / 100 % 10 == b;
    assert v / 10 == (a * 10 + b) * 10 + c && v / 10 % 10 == c;
    assert v % 10 == e;
  }

  /** For a valid date with a four-digit year, the formatted date is the four year digits
      followed by two digits for each other field and a `-` before the time. */
  lemma FormattedDateLayout(d: UtcDate)
    requires ValidDate(d) && FourDigitYear(d)
    ensures FormattedDate(d) == Field4(d.year) + Field2(d.month0 + 1) + Field2(d.day) + "-"
                                + Field2(d.hours) + Field2(d.minutes) + Field2(d.seconds)
  {
    PadFourDigits(d.year);
    PadTwoDigits(d.month0 + 1);
    PadTwoDigits(d.day);
    PadTwoDigits(d.hours);
    PadTwoDigits(d.minutes);
    PadTwoDigits(d.seconds);
  }

  /** The shape of a filename timestamp: fifteen characters, `-` at index 8, digits elsewhere. */
  predicate WellFormedStamp(s: string) {
    && |s| == 15
    && s[8] == '-'
    && forall i :: 0 <= i < 15 && i != 8 ==> IsDigit(s[i])
  }

  /** Reads the fields back out of a timestamp; the inverse of `FormattedDate`. */
  function ParseFormattedDate(s: string): (d: Option<UtcDate>) {
    if WellFormedStamp(s) then
      Some(UtcDate(Value(s[..4]), Value(s[4..6]) - 1, Value(s[6..8]), Value(s[9..11]), Value(s[11..13]), Value(s[13..])))
    else
      None
  }

  /** Seven pieces of widths 4, 2, 2, 1, 2, 2, 2 joined together, and where each one sits. */
  lemma Joined(a: string, b: string, c: string, e: string, f: string, g: string)
    requires |a| == 4 && |b| == 2 && |c| == 2 && |e| == 2 && |f| == 2 && |g| == 2
    ensures var r := a + b + c + "-" + e + f + g;
      && |r| == 15 && r[..4] == a && r[4..6] == b && r[6..8] == c && r[8] == '-'
      && r[9..11] == e && r[11..13] == f && r[13..] == g
  {
  }

  /** The pieces of a stamp are digit strings, and the stamp is those pieces joined again. */
  lemma Split(s: string)
    requires WellFormedStamp(s)
    ensures AllDigits(s[..4]) && AllDigits(s[4..6]) && AllDigits(s[6..8])
    ensures AllDigits(s[9..11]) && AllDigits(s[11..13]) && AllDigits(s[13..])
    ensures s == s[..4] + s[4..6] + s[6..8] + "-" + s[9..11] + s[11..13] + s[13..]
  {
    assert forall i :: 0 <= i < 4 ==> s[..4][i] == s[i];
    assert forall i :: 0 <= i < 2 ==> s[4..6][i] == s[4 + i] && s[6..8][i] == s[6 + i];
    assert forall i :: 0 <= i < 2 ==> s[9..11][i] == s[9 + i] && s[11..13][i] == s[11 + i] && s[13..][i] == s[13 + i];
  }

  /** Joining digit strings of widths 4, 2, 2, 1, 2, 2, 2 around a `-` gives a well-formed stamp. */
  lemma JoinedIsStamp(a: string, b: string, c: string, e: string, f: string, g: string)
    requires |a| == 4 && |b| == 2 && |c| == 2 && |e| == 2 && |f| == 2 && |g| == 2
    requires AllDigits(a) && AllDigits(b) && AllDigits(c) && AllDigits(e) && AllDigits(f) && AllDigits(g)
    ensures WellFormedStamp(a + b + c + "-" + e + f + g)
  {
    var r := a + b + c + "-" + e + f + g;
    Joined(a, b, c, e, f, g);
    forall i | 0 <= i < 15 && i != 8
      ensures IsDigit(r[i])
    {
      if i < 4 { assert r[i] == r[..4][i]; }
      else if i < 6 { assert r[i] == r[4..6][i - 4]; }
      else if i < 8 { assert r[i] == r[6..8][i - 6]; }
      else if i < 11 { assert r[i] == r[9..11][i - 9]; }
      else if i < 13 { assert r[i] == r[11..13][i - 11]; }
      else { assert r[i] == r[13..][i - 13]; }
    }
  }

  /** The stamp spelt from six field values, and the values read back from its slices. */
  lemma StampOfFields(y: nat, mo: nat, da: nat, h: nat, mi: nat, se: nat)
    requires y < 10000 && mo < 100 && da < 100 && h < 100 && mi < 100 && se < 100
    ensures var r := Field4(y) + Field2(mo) + Field2(da) + "-" + Field2(h) + Field2(mi) + Field2(se);
      && WellFormedStamp(r)
      && Value(r[..4]) == y && Value(r[4..6]) == mo && Value(r[6..8]) == da
      && Value(r[9..11]) == h && Value(r[11..13]) == mi && Value(r[13..]) == se
  {
    var a, b, c := Field4(y), Field2(mo), Field2(da);
    var e, f, g := Field2(h), Field2(mi), Field2(se);
    Joined(a, b, c, e, f, g);
    JoinedIsStamp(a, b, c, e, f, g);
    ValueOfField4(y);
    ValueOfField2(mo);
    ValueOfField2(da);
    ValueOfField2(h);
    ValueOfField2(mi);
    ValueOfField2(se);
  }

  /** For a four-digit year the timestamp is 15 characters, digits everywhere except the `-`
      at index 8, and each slice holds the number of its field, the month one-based. */
  lemma FormattedDateShape(d: UtcDate)
    requires ValidDate(d) && FourDigitYear(d)
    ensures WellFormedStamp(FormattedDate(d))
    ensures Value(FormattedDate(d)[..4]) == d.year
    ensures Value(FormattedDate(d)[4..6]) == d.month0 + 1
    ensures Value(FormattedDate(d)[6..8]) == d.day
    ensures Value(FormattedDate(d)[9..11]) == d.hours
    ensures Value(FormattedDate(d)[11..13]) == d.minutes
    ensures Value(FormattedDate(d)[13..]) == d.seconds
  {
    FormattedDateLayout(d);
    StampOfFields(d.year, d.month0 + 1, d.day, d.hours, d.minutes, d.seconds);
  }

  /** The month characters are the zero-based UTC month plus one on two digits:
      January is "01", December "12". */
  lemma MonthIsOneBased(d: UtcDate)
    requires ValidDate(d) && FourDigitYear(d)
    ensures FormattedDate(d)[4..6] == Field2(d.month0 + 1)
    ensures d.month0 == 0 ==> FormattedDate(d)[4..6] == "01"
    ensures d.month0 == 11 ==> FormattedDate(d)[4..6] == "12"
  {
    FormattedDateLayout(d);
    Joined(Field4(d.year), Field2(d.month0 + 1), Field2(d.day), Field2(d.hours), Field2(d.minutes), Field2(d.seconds));
    assert Field2(1) == "01" by { assert DigitChar(0) == '0' && DigitChar(1) == '1'; }
    assert Field2(12) == "12" by { assert DigitChar(1) == '1' && DigitChar(2) == '2'; }
  }

  /** Parsing a formatted date gives back the date it was formatted from. */
  lemma ParseFormattedDateRoundTrip(d: UtcDate)
    requires ValidDate(d) && FourDigitYear(d)
    ensures ParseFormattedDate(FormattedDate(d)) == Some(d)
  {
    FormattedDateShape(d);
  }

  /** Conversely, a timestamp that parses to a valid date with a four-digit year is exactly
      that date's formatted form, so timestamps and valid dates are in one-to-one correspondence. */
  lemma FormattedDateOfParse(s: string, d: UtcDate)
    requires ParseFormattedDate(s) == Some(d)
    requires ValidDate(d) && FourDigitYear(d)
    ensures FormattedDate(d) == s
  {
    Split(s);
    var p0, p1, p2, p3, p4, p5 := s[..4], s[4..6], s[6..8], s[9..11], s[11..13], s[13..];
    Field4OfValue(p0);
    Field2OfValue(p1);
    Field2OfValue(p2);
    Field2OfValue(p3);
    Field2OfValue(p4);
    Field2OfValue(p5);
    FormattedDateLayout(d);
  }

  /** Distinct valid dates (four-digit years) give distinct timestamps. */
  lemma FormattedDateInjective(d1: UtcDate, d2: UtcDate)
    requires ValidDate(d1) && FourDigitYear(d1) && ValidDate(d2) && FourDigitYear(d2)
    ensures FormattedDate(d1) == FormattedDate(d2) ==> d1 == d2
  {
    ParseFormattedDateRoundTrip(d1);
    ParseFormattedDateRoundTrip(d2);
  }

  /** JavaScript's `<` on strings: lexicographic order of character codes. */
  predicate LexLess(a: string, b: string)
    decreases |a|
  {
    if a == [] then b != [] else b != [] && (a[0] < b[0] || (a[0] == b[0] && LexLess(a[1..], b[1..])))
  }

  /** Chronological order of two dates: field by field, most significant first. */
  predicate DateBefore(d1: UtcDate, d2: UtcDate) {
    || d1.year < d2.year
    || (d1.year == d2.year && d1.month0 < d2.month0)
    || (d1.year == d2.year && d1.month0 == d2.month0 && d1.day < d2.day)
    || (d1.year == d2.year && d1.month0 == d2.month0 && d1.day == d2.day && d1.hours < d2.hours)
    || (d1.year == d2.year && d1.month0 == d2.month0 && d1.day == d2.day && d1.hours == d2.hours
        && d1.minutes < d2.minutes)
    || (d1.year == d2.year && d1.month0 == d2.month0 && d1.day == d2.day && d1.hours == d2.hours
        && d1.minutes == d2.minutes && d1.seconds < d2.seconds)
  }

  /** Comparing two joined strings whose first parts have equal lengths compares the first
      parts, and the second parts when the first are equal. */
  lemma {:induction false} LexLessConcat(a1: string, a2: string, b1: string, b2: string)
    requires |a1| == |b1|
    ensures LexLess(a1 + a2, b1 + b2) <==> LexLess(a1, b1) || (a1 == b1 && LexLess(a2, b2))
  {
    if a1 == [] {
      assert a1 + a2 == a2 && b1 + b2 == b2;
    } else {
      assert (a1 + a2)[1..] == a1[1..] + a2 && (b1 + b2)[1..] == b1[1..] + b2;
      assert a1 == b1 <==> a1[0] == b1[0] && a1[1..] == b1[1..] by {
        if a1[0] == b1[0] && a1[1..] == b1[1..] {
          assert a1 == [a1[0]] + a1[1..] && b1 == [b1[0]] + b1[1..];
        }
      }
      LexLessConcat(a1[1..], a2, b1[1..], b2);
    }
  }

  lemma Field2Order(n: nat, m: nat)
    requires n < 100 && m < 100
    ensures LexLess(Field2(n), Field2(m)) <==> n < m
    ensures Field2(n) == Field2(m) <==> n == m
  {
    var s, t := Field2(n), Field2(m);
    assert s[1..] == [s[1]] && t[1..] == [t[1]];
    assert s[1..][1..] == [] && t[1..][1..] == [];
    assert LexLess(s[1..], t[1..]) <==> n % 10 < m % 10;
    assert n == 10 * (n / 10) + n % 10 && m == 10 * (m / 10) + m % 10;
    ValueOfField2(n);
    ValueOfField2(m);
  }

  /** Four digits are the two high digits followed by the two low ones. */
  lemma Field4Halves(n: nat)
    requires n < 10000
    ensures Field4(n) == Field2(n / 100) + Field2(n % 100)
  {
    assert n / 100 / 10 == n / 1000;
    assert n % 100 / 10 == n / 10 % 10;
    assert n % 100 % 10 == n % 10;
  }

  lemma HundredsOrder(n: nat, m: nat)
    ensures n < m <==> n / 100 < m / 100 || (n / 100 == m / 100 && n % 100 < m % 100)
  {
    assert n == 100 * (n / 100) + n % 100 && m == 100 * (m / 100) + m % 100;
  }

  lemma Field4Order(n: nat, m: nat)
    requires n < 10000 && m < 10000
    ensures LexLess(Field4(n), Field4(m)) <==> n < m
    ensures Field4(n) == Field4(m) <==> n == m
  {
    Field4Halves(n);
    Field4Halves(m);
    LexLessConcat(Field2(n / 100), Field2(n % 100), Field2(m / 100), Field2(m % 100));
    Field2Order(n / 100, m / 100);
    Field2Order(n % 100, m % 100);
    HundredsOrder(n, m);
    ValueOfField4(n);
    ValueOfField4(m);
  }

  /** Comparing two stamps joined from pieces of the same widths compares the pieces in turn. */
  lemma JoinedOrder(a1: string, b1: string, c1: string, e1: string, f1: string, g1: string,
                    a2: string, b2: string, c2: string, e2: string, f2: string, g2: string)
    requires |a1| == |a2| && |b1| == |b2| && |c1| == |c2| && |e1| == |e2| && |f1| == |f2|
    ensures LexLess(a1 + b1 + c1 + "-" + e1 + f1 + g1, a2 + b2 + c2 + "-" + e2 + f2 + g2) <==>
      || LexLess(a1, a2)
      || (a1 == a2 && LexLess(b1, b2))
      || (a1 == a2 && b1 == b2 && LexLess(c1, c2))
      || (a1 == a2 && b1 == b2 && c1 == c2 && LexLess(e1, e2))
      || (a1 == a2 && b1 == b2 && c1 == c2 && e1 == e2 && LexLess(f1, f2))
      || (a1 == a2 && b1 == b2 && c1 == c2 && e1 == e2 && f1 == f2 && LexLess(g1, g2))
  {
    var t1, t2 := f1 + g1, f2 + g2;
    var u1, u2 := e1 + t1, e2 + t2;
    var v1, v2 := "-" + u1, "-" + u2;
    var w1, w2 := c1 + v1, c2 + v2;
    var x1, x2 := b1 + w1, b2 + w2;
    assert a1 + b1 + c1 + "-" + e1 + f1 + g1 == a1 + x1;
    assert a2 + b2 + c2 + "-" + e2 + f2 + g2 == a2 + x2;
    LexLessConcat(a1, x1, a2, x2);
    LexLessConcat(b1, w1, b2, w2);
    LexLessConcat(c1, v1, c2, v2);
    LexLessConcat("-", u1, "-", u2);
    assert !LexLess("-", "-");
    LexLessConcat(e1, t1, e2, t2);
    LexLessConcat(f1, g1, f2, g2);
  }

  /** The timestamps sort as the dates they stand for: for valid dates with four-digit years,
      one timestamp is less than another under JavaScript's string order exactly when its date
      comes first. */
  lemma FormattedDateOrder(d1: UtcDate, d2: UtcDate)
    requires ValidDate(d1) && FourDigitYear(d1) && ValidDate(d2) && FourDigitYear(d2)
    ensures LexLess(FormattedDate(d1), FormattedDate(d2)) <==> DateBefore(d1, d2)
  {
    FormattedDateLayout(d1);
    FormattedDateLayout(d2);
    JoinedOrder(Field4(d1.year), Field2(d1.month0 + 1), Field2(d1.day), Field2(d1.hours), Field2(d1.minutes), Field2(d1.seconds),
                Field4(d2.year), Field2(d2.month0 + 1), Field2(d2.day), Field2(d2.hours), Field2(d2.minutes), Field2(d2.seconds));
    Field4Order(d1.year, d2.year);
    Field2Order(d1.month0 + 1, d2.month0 + 1);
    Field2Order(d1.day, d2.day);
    Field2Order(d1.hours, d2.hours);
    Field2Order(d1.minutes, d2.minutes);
    Field2Order(d1.seconds, d2.seconds);
  }
}
