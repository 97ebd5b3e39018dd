/** The `%Y%m%d` date stamp that `strftime` writes into every article's file
    name, and why sorting those stamps as strings sorts the articles by date. */
module Dates {
  import opened Strings

  /** A calendar date as `datetime` holds it (four-digit years only). */
  datatype Date = Date(year: int, month: int, day: int)

  function DaysInMonth(year: int, month: int): int
    requires 1 <= month <= 12
  {
    if month == 2 then
      if year % 4 == 0 && (year % 100 != 0 || year % 400 == 0) then 29 else 28
    else if month == 4 || month == 6 || month == 9 || month == 11 then 30
    else 31
  }

  predicate ValidDate(d: Date)
  {
    1000 <= d.year <= 9999 && 1 <= d.month <= 12 && 1 <= d.day <= DaysInMonth(d.year, d.month)
  }

  /** `a` falls strictly before `b` in the calendar. */
  predicate Before(a: Date, b: Date)
  {
    a.year < b.year
    || (a.year == b.year && (a.month < b.month || (a.month == b.month && a.day < b.day)))
  }

  function Pow10(n: nat): (r: nat)
    ensures r >= 1
  {
    if n == 0 then 1 else 10 * Pow10(n - 1)
  }

  predicate IsDigit(c: char) { '0' <= c <= '9' }

  function DigitChar(k: nat): (c: char)
    requires k < 10
  {
    ('0' as int + k) as char
  }

  /** `v` in base ten on exactly `n` characters, zero-padded on the left. */
  function Digits(v: nat, n: nat): (r: string)
    requires v < Pow10(n)
    ensures |r| == n
    ensures forall i :: 0 <= i < n ==> IsDigit(r[i])
  {
    if n == 0 then ""
    else Digits(v / 10, n - 1) + [DigitChar(v % 10)]
  }

  /** `d.strftime('%Y%m%d')` */
  function Stamp(d: Date): (r: string)
    requires ValidDate(d)
    ensures |r| == 8
    ensures forall i :: 0 <= i < 8 ==> IsDigit(r[i])
    ensures '-' !in r
  {
    Digits(d.year, 4) + Digits(d.month, 2) + Digits(d.day, 2)
  }

  /** Equal-width decimal numerals compare as strings exactly as the numbers
      compare. */
  lemma {:induction false} DigitsOrder(v: nat, w: nat, n: nat)
    requires v < Pow10(n) && w < Pow10(n)
    ensures Less(Digits(v, n), Digits(w, n)) <==> v < w
    decreases n
  {
    if n == 0 {
    } else {
      var hv, hw := Digits(v / 10, n - 1), Digits(w / 10, n - 1);
      DigitsOrder(v / 10, w / 10, n - 1);
      DigitsOrder(w / 10, v / 10, n - 1);
      LessConcat(hv, [DigitChar(v % 10)], hw, [DigitChar(w % 10)]);
      if hv == hw {
        LessIrreflexive(hv);
      } else {
        LessTotal(hv, hw);
      }
      assert hv == hw <==> v / 10 == w / 10;
      assert v == 10 * (v / 10) + v % 10;
      assert w == 10 * (w / 10) + w % 10;
    }
  }

  lemma DigitsInjective(v: nat, w: nat, n: nat)
    requires v < Pow10(n) && w < Pow10(n)
    requires Digits(v, n) == Digits(w, n)
    ensures v == w
  {
    LessIrreflexive(Digits(v, n));
    DigitsOrder(v, w, n);
    DigitsOrder(w, v, n);
  }

  /** Sorting stamps as strings sorts dates chronologically. */
  lemma StampOrder(a: Date, b: Date)
    requires ValidDate(a) && ValidDate(b)
    ensures Less(Stamp(a), Stamp(b)) <==> Before(a, b)
  {
    var ya, ma, da := Digits(a.year, 4), Digits(a.month, 2), Digits(a.day, 2);
    var yb, mb, db := Digits(b.year, 4), Digits(b.month, 2), Digits(b.day, 2);
    LessConcat(ya + ma, da, yb + mb, db);
    LessConcat(ya, ma, yb, mb);
    DigitsOrder(a.year, b.year, 4);
    DigitsOrder(a.month, b.month, 2);
    DigitsOrder(a.day, b.day, 2);
    if ya + ma == yb + mb {
      assert ya == (ya + ma)[..4] && yb == (yb + mb)[..4];
      assert ma == (ya + ma)[4..] && mb == (yb + mb)[4..];
      DigitsInjective(a.year, b.year, 4);
      DigitsInjective(a.month, b.month, 2);
    }
    if ya == yb {
      DigitsInjective(a.year, b.year, 4);
    }
  }

  /** Different dates never share a stamp. */
  lemma StampInjective(a: Date, b: Date)
    requires ValidDate(a) && ValidDate(b)
    requires Stamp(a) == Stamp(b)
    ensures a == b
  {
    StampOrder(a, b);
    StampOrder(b, a);
    LessIrreflexive(Stamp(a));
  }
}
