/** The publication year of a mention: the integer spelled by the first four
    characters of its `pubdate` field. A prefix that does not spell a
    non-negative integer makes the row unusable; it is dropped, never given
    a fallback year. */
module Years {
  import opened Seqs

  predicate IsDigit(c: char) {
    '0' <= c <= '9'
  }

  predicate AllDigits(s: string) {
    forall i :: 0 <= i < |s| ==> IsDigit(s[i])
  }

  function DigitValue(c: char): nat
    requires IsDigit(c)
  {
    (c as int) - ('0' as int)
  }

  function DigitChar(d: nat): (c: char)
    requires d < 10
    ensures IsDigit(c) && DigitValue(c) == d
  {
    (('0' as int) + d) as char
  }

  /** Decimal value of a string of digits, most significant first. */
  function DigitsValue(s: string): nat
    requires AllDigits(s)
  {
    if s == [] then 0 else 10 * DigitsValue(s[..|s| - 1]) + DigitValue(s[|s| - 1])
  }

  lemma {:induction false} DigitsValueBound(s: string)
    requires AllDigits(s) && |s| <= 4
    ensures DigitsValue(s) < if |s| == 0 then 1 else if |s| == 1 then 10
                             else if |s| == 2 then 100 else if |s| == 3 then 1000 else 10000
  {
    if s != [] {
      DigitsValueBound(s[..|s| - 1]);
    }
  }

  /** `str(pubdate)[:4]`. */
  function Prefix4(pubdate: string): string {
    if |pubdate| <= 4 then pubdate else pubdate[..4]
  }

  /** `int(str(pubdate)[:4])`, or None where that conversion fails. */
  function ParseYear(pubdate: string): (y: Option<int>)
    ensures y.Some? <==> |Prefix4(pubdate)| > 0 && AllDigits(Prefix4(pubdate))
    ensures y.Some? ==> 0 <= y.value <= 9999
  {
    var p := Prefix4(pubdate);
    if |p| > 0 && AllDigits(p) then
      DigitsValueBound(p);
      Some(DigitsValue(p))
    else None
  }

  /** The four-digit, zero-padded spelling of a year. */
  function ShowYear(y: nat): (s: string)
    requires y < 10000
    ensures |s| == 4 && AllDigits(s)
  {
    var r1 := y % 1000;
    var r2 := r1 % 100;
    [DigitChar(y / 1000), DigitChar(r1 / 100), DigitChar(r2 / 10), DigitChar(r2 % 10)]
  }

  lemma Digits4(s: string)
    requires |s| == 4 && AllDigits(s)
    ensures DigitsValue(s) == 1000 * DigitValue(s[0]) + 100 * DigitValue(s[1])
                              + 10 * DigitValue(s[2]) + DigitValue(s[3])
  {
    assert s[..1][..0] == [];
    assert DigitsValue(s[..1]) == DigitValue(s[0]);
    assert s[..2][..1] == s[..1];
    assert DigitsValue(s[..2]) == 10 * DigitValue(s[0]) + DigitValue(s[1]);
    assert s[..3][..2] == s[..2];
    assert DigitsValue(s[..3]) == 100 * DigitValue(s[0]) + 10 * DigitValue(s[1]) + DigitValue(s[2]);
    assert s[..4] == s;
  }

  /** A pubdate that starts with a four-digit year parses back to that year,
      whatever follows it. */
  lemma YearRoundTrip(y: nat, rest: string)
    requires y < 10000
    ensures ParseYear(ShowYear(y) + rest) == Some(y)
  {
    var s := ShowYear(y);
    assert Prefix4(s + rest) == s;
    Digits4(s);
    var r1 := y % 1000;
    var r2 := r1 % 100;
    assert y == 1000 * (y / 1000) + r1;
    assert r1 == 100 * (r1 / 100) + r2;
    assert r2 == 10 * (r2 / 10) + r2 % 10;
  }

  /** Conversely, a parsed four-character prefix is exactly the zero-padded
      spelling of the year it parsed to. */
  lemma YearParseShows(pubdate: string)
    requires |pubdate| >= 4 && ParseYear(pubdate).Some?
    ensures Prefix4(pubdate) == ShowYear(ParseYear(pubdate).value)
  {
    var p := Prefix4(pubdate);
    Digits4(p);
    var y := ParseYear(pubdate).value;
    var a, b, c, d := DigitValue(p[0]), DigitValue(p[1]), DigitValue(p[2]), DigitValue(p[3]);
    assert y == 1000 * a + (100 * b + 10 * c + d);
    assert y / 1000 == a && y % 1000 == 100 * b + (10 * c + d);
    var r1 := y % 1000;
    assert r1 / 100 == b && r1 % 100 == 10 * c + d;
    var r2 := r1 % 100;
    assert r2 / 10 == c && r2 % 10 == d;
    var s := ShowYear(y);
    forall i | 0 <= i < 4 ensures s[i] == p[i] {
      assert DigitValue(s[i]) == DigitValue(p[i]);
    }
  }
}
