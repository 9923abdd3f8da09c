/**
 * Calendar-date keys. The server names an attendance record by the text
 * `YYYY-MM-DD` that getTodayServer builds from the clock's year, month and day
 * (server.js:62-68); the analytics query selects a month's records by the
 * `YYYY-MM` prefix of that text (server.js:164-165); the admin panel decides that a
 * date lies in the future by comparing two such keys as strings (src/Admin.jsx:78).
 * This module gives the text, JavaScript's string order, and the lemmas that make
 * the string tests mean what the calendar means for four-digit years.
 */
module DateKeys {

  predicate IsDigit(c: char) {
    '0' <= c <= '9'
  }

  predicate AllDigits(s: string) {
    forall i :: 0 <= i < |s| ==> IsDigit(s[i])
  }

  function DigitValue(c: char): nat
    requires IsDigit(c)
  {
    c as int - '0' as int
  }

  function DigitChar(d: nat): (c: char)
    requires d < 10
    ensures IsDigit(c) && DigitValue(c) == d
  {
    ('0' as int + d) as char
  }

  /** The number a string of decimal digits denotes. */
  function Value(s: string): nat
    requires AllDigits(s)
  {
    if s == [] then 0 else 10 * Value(s[..|s| - 1]) + DigitValue(s[|s| - 1])
  }

  lemma ValueAppend(s: string, c: char)
    requires AllDigits(s) && IsDigit(c)
    ensures AllDigits(s + [c]) && Value(s + [c]) == 10 * Value(s) + DigitValue(c)
  {
    assert (s + [c])[..|s|] == s;
  }

  /** Digit strings of one length that denote the same number are the same string. */
  lemma {:induction false} ValueInjective(a: string, b: string)
    requires |a| == |b| && AllDigits(a) && AllDigits(b) && Value(a) == Value(b)
    ensures a == b
  {
    if a != [] {
      var n := |a| - 1;
      var a', b' := a[..n], b[..n];
      assert AllDigits(a') && AllDigits(b');
      assert Value(a) == 10 * Value(a') + DigitValue(a[n]);
      assert Value(b) == 10 * Value(b') + DigitValue(b[n]);
      LastDigit(Value(a'), DigitValue(a[n]), Value(b'), DigitValue(b[n]));
      ValueInjective(a', b');
      assert a == a' + [a[n]] && b == b' + [b[n]];
    }
  }

  /** A number's last decimal digit and the number before it are determined by the number. */
  lemma LastDigit(x: nat, d: nat, y: nat, e: nat)
    requires d < 10 && e < 10 && 10 * x + d == 10 * y + e
    ensures x == y && d == e
  {
    var v := 10 * x + d;
    assert v / 10 == x && v % 10 == d;
    assert v / 10 == y && v % 10 == e;
  }

  /** `String(n)` for a non-negative integer: its decimal digits, no leading zeros. */
  function Decimal(n: nat): (s: string)
    ensures |s| >= 1 && AllDigits(s) && Value(s) == n
    ensures n < 10 ==> |s| == 1
    ensures 10 <= n < 100 ==> |s| == 2
    ensures 100 <= n < 1000 ==> |s| == 3
    ensures 1000 <= n < 10000 ==> |s| == 4
    decreases n
  {
    if n < 10 then
      ValueAppend([], DigitChar(n));
      [DigitChar(n)]
    else
      var high := Decimal(n / 10);
      ValueAppend(high, DigitChar(n % 10));
      high + [DigitChar(n % 10)]
  }

  /** `String(n)` has no leading zero: only the number zero is written starting with `0`. */
  lemma {:induction false} DecimalNoLeadingZero(n: nat)
    ensures |Decimal(n)| == 1 || Decimal(n)[0] != '0'
    decreases n
  {
    if n >= 10 {
      DecimalNoLeadingZero(n / 10);
      var high := Decimal(n / 10);
      assert Decimal(n) == high + [DigitChar(n % 10)];
      assert Decimal(n)[0] == high[0];
    }
  }

  /** `s.padStart(2, '0')`: zeros are put in front until the text is two characters long. */
  function PadStart2(s: string): (r: string)
    ensures |s| >= 2 ==> r == s
    ensures |s| < 2 ==> |r| == 2 && r[2 - |s|..] == s && forall i :: 0 <= i < 2 - |s| ==> r[i] == '0'
  {
    if |s| == 0 then "00" else if |s| == 1 then ['0'] + s else s
  }

  /** The day or month field of a key: two digits that read back as `v`. */
  lemma TwoDigitField(v: nat)
    requires 1 <= v <= 99
    ensures var f := PadStart2(Decimal(v)); |f| == 2 && AllDigits(f) && Value(f) == v
  {
    var s := Decimal(v);
    if v < 10 {
      var f := PadStart2(s);
      assert f == ['0'] + s;
      ValueAppend([], '0');
      ValueAppend(['0'], s[0]);
      ValueAppend([], s[0]);
    }
  }

  /** `${year}`: a negative year is written with a leading minus sign. */
  function YearText(year: int): string {
    if year < 0 then "-" + Decimal(-year) else Decimal(year)
  }

  /** The `YYYY-MM` key of a month: for a four-digit year, what `toISOString().slice(0, 7)`
      yields (server.js:164). */
  function MonthKey(year: int, month: nat): (key: string)
    ensures 1 <= month <= 99 ==>
      |key| == |YearText(year)| + 3 && key[..|YearText(year)|] == YearText(year) && key[|YearText(year)|] == '-'
  {
    YearText(year) + "-" + PadStart2(Decimal(month))
  }

  /** getTodayServer (server.js:62-68), given the clock's local year, month (1..12) and
      day (1..31): the key of the month, a dash, and a day field of at least two
      characters, exactly two when the day is below 100. */
  function TodayKey(year: int, month: nat, day: nat): (key: string)
    ensures IsPrefix(MonthKey(year, month), key)
    ensures |key| >= |MonthKey(year, month)| + 3 && key[|MonthKey(year, month)|] == '-'
    ensures day <= 99 ==> |key| == |MonthKey(year, month)| + 3
  {
    var mk, dd := MonthKey(year, month), PadStart2(Decimal(day));
    assert mk + "-" + dd == mk + ("-" + dd);
    YearText(year) + "-" + PadStart2(Decimal(month)) + "-" + PadStart2(Decimal(day))
  }

  /** Whatever the year, a key ends in `-MM-DD` whose fields read back as the month
      and the day. */
  lemma TodayKeyFields(year: int, month: nat, day: nat)
    requires 1 <= month <= 12 && 1 <= day <= 31
    ensures var key := TodayKey(year, month, day);
      && |key| >= 7 && key[|key| - 3] == '-' && key[|key| - 6] == '-'
      && AllDigits(key[|key| - 2..]) && Value(key[|key| - 2..]) == day
      && AllDigits(key[|key| - 5..|key| - 3]) && Value(key[|key| - 5..|key| - 3]) == month
  {
    TwoDigitField(month);
    TwoDigitField(day);
    var y, m, d := YearText(year), PadStart2(Decimal(month)), PadStart2(Decimal(day));
    assert |y| >= 1;
    KeyLayout(y, m, d);
  }

  /** Where the parts of `y-m-d` sit when `m` and `d` have two characters each. */
  lemma KeyLayout(y: string, m: string, d: string)
    requires |m| == 2 && |d| == 2
    ensures var key := y + "-" + m + "-" + d;
      && |key| == |y| + 6
      && key[..|y|] == y && key[|y|] == '-' && key[|y| + 1..|y| + 3] == m
      && key[|y| + 3] == '-' && key[|y| + 4..] == d
      && key[..|y| + 3] == y + "-" + m
      && key == y + "-" + (m + "-" + d)
  {
    var key := y + "-" + m + "-" + d;
    assert key[..|y|] == y;
    assert key[|y| + 1..|y| + 3] == m;
    assert key[|y| + 4..] == d;
    assert key[..|y| + 3] == y + "-" + m;
  }

  /** For a four-digit year the key is the canonical ten characters `YYYY-MM-DD`,
      and each field reads back as the number it was made from. */
  lemma CanonicalKey(year: int, month: nat, day: nat)
    requires 1000 <= year <= 9999 && 1 <= month <= 12 && 1 <= day <= 31
    ensures var key := TodayKey(year, month, day);
      && |key| == 10 && key[4] == '-' && key[7] == '-'
      && AllDigits(key[..4]) && Value(key[..4]) == year
      && AllDigits(key[5..7]) && Value(key[5..7]) == month
      && AllDigits(key[8..]) && Value(key[8..]) == day
  {
    TwoDigitField(month);
    TwoDigitField(day);
    var y, m, d := Decimal(year), PadStart2(Decimal(month)), PadStart2(Decimal(day));
    assert YearText(year) == y && |y| == 4;
    KeyLayout(y, m, d);
  }

  /** `p` starts `s`: the regular expression `^p` when `p` holds no special characters. */
  function IsPrefix(p: string, s: string): (prefix: bool)
    ensures prefix <==> |p| <= |s| && s == p + s[|p|..]
  {
    |p| <= |s| && s[..|p|] == p
  }

  /** JavaScript's `a < b` on strings: character by character, and a proper prefix
      comes first. */
  function Less(a: string, b: string): (less: bool)
    ensures less ==> a != b
    ensures |a| < |b| && b[..|a|] == a ==> less
  {
    if a == [] then b != []
    else if b == [] then false
    else if a[0] != b[0] then a[0] < b[0]
    else Less(a[1..], b[1..])
  }

  /** String order is asymmetric: of two strings at most one sorts before the other. */
  lemma {:induction false} LessAsymmetric(a: string, b: string)
    requires Less(a, b)
    ensures !Less(b, a)
  {
    if a != [] && b != [] && a[0] == b[0] {
      LessAsymmetric(a[1..], b[1..]);
    }
  }

  /** Behind a common-length head, the heads decide unless they are equal. */
  lemma {:induction false} LessConcat(a1: string, b1: string, a2: string, b2: string)
    requires |a1| == |a2|
    ensures Less(a1 + b1, a2 + b2) <==> if a1 == a2 then Less(b1, b2) else Less(a1, a2)
  {
    if a1 == [] {
      assert a1 + b1 == b1 && a2 + b2 == b2;
    } else {
      assert (a1 + b1)[1..] == a1[1..] + b1 && (a2 + b2)[1..] == a2[1..] + b2;
      LessConcat(a1[1..], b1, a2[1..], b2);
      if a1[0] == a2[0] {
        assert a1 == a2 <==> a1[1..] == a2[1..];
      }
    }
  }

  /** On digit strings of one length, string order is numeric order. */
  lemma {:induction false} LessDigits(a: string, b: string)
    requires |a| == |b| && AllDigits(a) && AllDigits(b)
    ensures Less(a, b) <==> Value(a) < Value(b)
  {
    if a != [] {
      var n := |a| - 1;
      var a', b' := a[..n], b[..n];
      assert a == a' + [a[n]] && b == b' + [b[n]];
      LessConcat(a', [a[n]], b', [b[n]]);
      LessDigits(a', b');
      if a' != b' && Value(a') == Value(b') {
        ValueInjective(a', b');
      }
    }
  }

  /** Two keys of one shape: a field of `n` digits, a dash, then the rest. */
  lemma FieldThenRest(f1: string, r1: string, f2: string, r2: string, n: nat)
    requires |f1| == n && |f2| == n && AllDigits(f1) && AllDigits(f2)
    ensures Less(f1 + "-" + r1, f2 + "-" + r2) <==>
      Value(f1) < Value(f2) || (Value(f1) == Value(f2) && Less(r1, r2))
  {
    assert f1 + "-" + r1 == f1 + ("-" + r1) && f2 + "-" + r2 == f2 + ("-" + r2);
    LessConcat(f1, "-" + r1, f2, "-" + r2);
    LessConcat("-", r1, "-", r2);
    LessDigits(f1, f2);
    if Value(f1) == Value(f2) {
      ValueInjective(f1, f2);
    }
  }

  /** A key of a non-negative year, split at its first dash. */
  lemma KeyParts(year: int, month: nat, day: nat)
    requires 0 <= year && 1 <= month <= 12 && 1 <= day <= 31
    ensures TodayKey(year, month, day) ==
      Decimal(year) + "-" + (PadStart2(Decimal(month)) + "-" + PadStart2(Decimal(day)))
  {
    TwoDigitField(month);
    TwoDigitField(day);
    var y, m, d := Decimal(year), PadStart2(Decimal(month)), PadStart2(Decimal(day));
    assert YearText(year) == y;
    KeyLayout(y, m, d);
  }

  /** For four-digit years the string order of keys is the calendar order of dates. */
  lemma KeyOrderIsChronological(y1: int, m1: nat, d1: nat, y2: int, m2: nat, d2: nat)
    requires 1000 <= y1 <= 9999 && 1 <= m1 <= 12 && 1 <= d1 <= 31
    requires 1000 <= y2 <= 9999 && 1 <= m2 <= 12 && 1 <= d2 <= 31
    ensures Less(TodayKey(y1, m1, d1), TodayKey(y2, m2, d2)) <==>
      y1 < y2 || (y1 == y2 && (m1 < m2 || (m1 == m2 && d1 < d2)))
  {
    TwoDigitField(m1);
    TwoDigitField(d1);
    TwoDigitField(m2);
    TwoDigitField(d2);
    var Y1, M1, D1 := Decimal(y1), PadStart2(Decimal(m1)), PadStart2(Decimal(d1));
    var Y2, M2, D2 := Decimal(y2), PadStart2(Decimal(m2)), PadStart2(Decimal(d2));
    KeyParts(y1, m1, d1);
    KeyParts(y2, m2, d2);
    FieldThenRest(Y1, M1 + "-" + D1, Y2, M2 + "-" + D2, 4);
    FieldThenRest(M1, D1, M2, D2, 2);
    LessDigits(D1, D2);
  }

  /** A month key of a four-digit year: four year digits, a dash, two month digits. */
  lemma MonthKeyFields(y: int, m: nat)
    requires 1000 <= y <= 9999 && 1 <= m <= 12
    ensures var mk := MonthKey(y, m);
      && |mk| == 7 && AllDigits(mk[..4]) && Value(mk[..4]) == y
      && AllDigits(mk[5..]) && Value(mk[5..]) == m
  {
    TwoDigitField(m);
    var mk := MonthKey(y, m);
    assert mk[..4] == Decimal(y);
    assert mk[5..] == PadStart2(Decimal(m));
  }

  /** A day key starts with the key of its month. */
  lemma TodayKeyStartsWithMonth(year: int, month: nat, day: nat)
    requires 1000 <= year <= 9999 && 1 <= month <= 12 && 1 <= day <= 31
    ensures |TodayKey(year, month, day)| >= 7 && TodayKey(year, month, day)[..7] == MonthKey(year, month)
  {
    TwoDigitField(month);
    TwoDigitField(day);
    var y, m, d := Decimal(year), PadStart2(Decimal(month)), PadStart2(Decimal(day));
    assert YearText(year) == y && |y| == 4;
    assert MonthKey(year, month) == y + "-" + m;
    KeyLayout(y, m, d);
  }

  /** For four-digit years a record key starts with a month key exactly when the
      record's date lies in that month. */
  lemma MonthPrefixIsSameMonth(year: int, month: nat, day: nat, y: int, m: nat)
    requires 1000 <= year <= 9999 && 1 <= month <= 12 && 1 <= day <= 31
    requires 1000 <= y <= 9999 && 1 <= m <= 12
    ensures IsPrefix(MonthKey(y, m), TodayKey(year, month, day)) <==> y == year && m == month
  {
    MonthKeyFields(y, m);
    MonthKeyFields(year, month);
    TodayKeyStartsWithMonth(year, month, day);
    var mk, own := MonthKey(y, m), MonthKey(year, month);
    if mk == own {
      assert mk[..4] == own[..4] && mk[5..] == own[5..];
    }
  }
}
