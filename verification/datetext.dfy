/**
  Date text as the certification report uses it: parsing with
  `datetime.strptime(s, "%m/%d/%Y")` and printing with
  `'{0.month}/{0.day}/{0.year}'.format(d)`.

  CPython compiles `%m/%d/%Y` to the regular expression
  `(1[0-2]|0[1-9]|[1-9])/(3[01]|[12]\d|0[1-9]|[1-9]| [1-9])/(\d\d\d\d)` and
  rejects any text left over after the match. Neither the month nor the day
  alternatives can contain `/`, so a string matches exactly when it splits
  at `/` into three fields that each match their own alternative; that is
  how `Parse` reads it.
 */
module DateText {
  import opened Wrappers
  import opened Decimal
  import opened Calendar

  const Sep: char := '/'

  // ---------------------------------------------------------------------
  // Splitting at '/' and joining back

  /** The pieces of `s` between separators, in order. */
  function Fields(s: string): (r: seq<string>)
    ensures |r| >= 1
  {
    if |s| == 0 then [""]
    else
      var rest := Fields(s[1..]);
      if s[0] == Sep then [""] + rest
      else [[s[0]] + rest[0]] + rest[1..]
  }

  function Join(fs: seq<string>): string
    requires |fs| >= 1
  {
    if |fs| == 1 then fs[0] else fs[0] + [Sep] + Join(fs[1..])
  }

  lemma Join3(a: string, b: string, c: string)
    ensures Join([a, b, c]) == a + [Sep] + b + [Sep] + c
  {
    assert [a, b, c][1..] == [b, c];
    assert [b, c][1..] == [c];
    assert Join([b, c]) == b + [Sep] + c;
    assert Join([a, b, c]) == a + [Sep] + (b + [Sep] + c);
  }

  predicate NoSep(t: string) {
    forall i :: 0 <= i < |t| ==> t[i] != Sep
  }

  /** Splitting loses nothing: the fields joined back give the string, and no field holds a separator. */
  lemma {:induction false} JoinFields(s: string)
    ensures Join(Fields(s)) == s
    ensures forall i :: 0 <= i < |Fields(s)| ==> NoSep(Fields(s)[i])
  {
    if |s| > 0 {
      var rest := Fields(s[1..]);
      JoinFields(s[1..]);
      if s[0] == Sep {
        assert ([""] + rest)[1..] == rest;
      } else {
        var fs := [[s[0]] + rest[0]] + rest[1..];
        assert fs[1..] == rest[1..];
        if |rest| > 1 {
          assert Join(rest) == rest[0] + [Sep] + Join(rest[1..]);
        }
        assert s == [s[0]] + s[1..];
        forall i | 0 <= i < |fs|
          ensures NoSep(fs[i])
        {
          if i > 0 { assert fs[i] == rest[i]; }
        }
      }
    }
  }

  /** A field without a separator, followed by a separator, splits off as the first field. */
  lemma {:induction false} FieldsOfPrefixed(a: string, t: string)
    requires NoSep(a)
    ensures Fields(a + [Sep] + t) == [a] + Fields(t)
    decreases |a|
  {
    if |a| == 0 {
      assert a + [Sep] + t == [Sep] + t;
      assert ([Sep] + t)[1..] == t;
    } else {
      var s := a + [Sep] + t;
      assert s[1..] == a[1..] + [Sep] + t;
      FieldsOfPrefixed(a[1..], t);
      assert [a[0]] + a[1..] == a;
    }
  }

  lemma {:induction false} FieldsOfPlain(a: string)
    requires NoSep(a)
    ensures Fields(a) == [a]
    decreases |a|
  {
    if |a| > 0 {
      FieldsOfPlain(a[1..]);
      assert [a[0]] + a[1..] == a;
    }
  }

  /** Joining separator-free fields and splitting again gives the same fields. */
  lemma {:induction false} FieldsJoin(fs: seq<string>)
    requires |fs| >= 1
    requires forall i :: 0 <= i < |fs| ==> NoSep(fs[i])
    ensures Fields(Join(fs)) == fs
    decreases |fs|
  {
    if |fs| == 1 {
      FieldsOfPlain(fs[0]);
    } else {
      FieldsJoin(fs[1..]);
      FieldsOfPrefixed(fs[0], Join(fs[1..]));
      assert [fs[0]] + fs[1..] == fs;
    }
  }

  // ---------------------------------------------------------------------
  // The three directives

  /** `%m`: `1[0-2]|0[1-9]|[1-9]`. */
  function MonthToken(t: string): (r: Option<int>)
    ensures r.Some? ==> 1 <= r.value <= 12
  {
    if |t| == 1 && '1' <= t[0] <= '9' then Some(DigitValue(t[0]))
    else if |t| == 2 && t[0] == '0' && '1' <= t[1] <= '9' then Some(DigitValue(t[1]))
    else if |t| == 2 && t[0] == '1' && '0' <= t[1] <= '2' then Some(10 + DigitValue(t[1]))
    else None
  }

  /** `%d`: `3[01]|[12]\d|0[1-9]|[1-9]| [1-9]` (a single leading space is allowed). */
  function DayToken(t: string): (r: Option<int>)
    ensures r.Some? ==> 1 <= r.value <= 31
  {
    if |t| == 1 && '1' <= t[0] <= '9' then Some(DigitValue(t[0]))
    else if |t| == 2 && (t[0] == '0' || t[0] == ' ') && '1' <= t[1] <= '9' then Some(DigitValue(t[1]))
    else if |t| == 2 && '1' <= t[0] <= '2' && IsDigit(t[1]) then Some(DigitValue(t[0]) * 10 + DigitValue(t[1]))
    else if |t| == 2 && t[0] == '3' && '0' <= t[1] <= '1' then Some(30 + DigitValue(t[1]))
    else None
  }

  /** `%Y`: exactly four digits. */
  function YearToken(t: string): (r: Option<int>)
    ensures r.Some? ==> 0 <= r.value <= 9999
  {
    if |t| == 4 && AllDigits(t) then ValueBelow(t); Some(Value(t)) else None
  }

  /** The spellings `%m` accepts for month `m`: plain, or zero-padded when below 10. */
  function MonthSpellings(m: nat): set<string> {
    if m < 10 then {Show(m), "0" + Show(m)} else {Show(m)}
  }

  /** The spellings `%d` accepts for day `d`: plain, or padded with a zero or a space when below 10. */
  function DaySpellings(d: nat): set<string> {
    if d < 10 then {Show(d), "0" + Show(d), " " + Show(d)} else {Show(d)}
  }

  lemma MonthTokenSpellings(t: string, m: nat)
    ensures MonthToken(t) == Some(m as int) <==> 1 <= m <= 12 && t in MonthSpellings(m)
  {
    if m <= 12 { ShowSmall(m); }
    if |t| >= 1 && IsDigit(t[0]) { DigitRoundTrip(t[0]); }
    if |t| >= 2 && IsDigit(t[1]) { DigitRoundTrip(t[1]); }
    if MonthToken(t) == Some(m as int) {
      if m >= 10 {
        assert t == [t[0], t[1]];
      } else {
        assert t == [t[0]] || t == "0" + [t[1]];
      }
    }
  }

  lemma DayTokenSpellings(t: string, d: nat)
    ensures DayToken(t) == Some(d as int) <==> 1 <= d <= 31 && t in DaySpellings(d)
  {
    if d <= 31 { ShowSmall(d); }
    if |t| >= 1 && IsDigit(t[0]) { DigitRoundTrip(t[0]); }
    if |t| >= 2 && IsDigit(t[1]) { DigitRoundTrip(t[1]); }
    if DayToken(t) == Some(d as int) {
      if d >= 10 {
        assert t == [t[0], t[1]];
      } else {
        assert t == [t[0]] || t == "0" + [t[1]] || t == " " + [t[1]];
      }
    }
  }

  lemma YearTokenSpelling(t: string, y: nat)
    ensures YearToken(t) == Some(y as int) <==> y < 10000 && t == Pad4(y)
  {
    if YearToken(t) == Some(y as int) {
      DigitsDetermineValue(t, Pad4(y));
    }
  }

  // ---------------------------------------------------------------------
  // strptime and the report's date printer

  /**
    `datetime.strptime(s, "%m/%d/%Y")`: `None` stands for the `ValueError`
    raised when the text does not match or names no real date (month 13,
    Feb 30, year 0000).
   */
  function Parse(s: string): (r: Option<Date>)
    ensures r.Some? ==> r.value.Valid()
  {
    var f := Fields(s);
    if |f| != 3 then None
    else
      var m :- MonthToken(f[0]);
      var d :- DayToken(f[1]);
      var y :- YearToken(f[2]);
      var date := Date(y, m, d);
      if date.Valid() then Some(date) else None
  }

  /** The text a successfully parsed date came from: one accepted spelling of each part. */
  ghost predicate Spells(s: string, d: Date) {
    && 0 <= d.year < 10000 && d.month >= 0 && d.day >= 0
    && exists ms, ds :: ms in MonthSpellings(d.month) && ds in DaySpellings(d.day)
                        && s == ms + "/" + ds + "/" + Pad4(d.year)
  }

  lemma SpellingsHaveNoSep(m: nat, d: nat, ms: string, ds: string)
    requires ms in MonthSpellings(m) && ds in DaySpellings(d)
    ensures NoSep(ms) && NoSep(ds)
  {
    assert Canonical(Show(m)) && Canonical(Show(d));
  }

  /** Every string `Parse` accepts is an accepted spelling of a real date. */
  lemma {:induction false} ParseSound(s: string)
    requires Parse(s).Some?
    ensures Parse(s).value.Valid() && Spells(s, Parse(s).value)
  {
    var d := Parse(s).value;
    var f := Fields(s);
    JoinFields(s);
    MonthTokenSpellings(f[0], d.month);
    DayTokenSpellings(f[1], d.day);
    YearTokenSpelling(f[2], d.year);
    assert f == [f[0], f[1], f[2]];
    Join3(f[0], f[1], f[2]);
    assert s == f[0] + "/" + f[1] + "/" + Pad4(d.year);
  }

  /** Every accepted spelling of a real date parses to that date. */
  lemma {:induction false} ParseComplete(d: Date, ms: string, ds: string)
    requires d.Valid() && ms in MonthSpellings(d.month) && ds in DaySpellings(d.day)
    ensures Parse(ms + "/" + ds + "/" + Pad4(d.year)) == Some(d)
  {
    var y := Pad4(d.year);
    var s := ms + "/" + ds + "/" + y;
    SpellingsHaveNoSep(d.month, d.day, ms, ds);
    assert NoSep(y);
    var fs := [ms, ds, y];
    Join3(ms, ds, y);
    FieldsJoin(fs);
    MonthTokenSpellings(ms, d.month);
    DayTokenSpellings(ds, d.day);
    YearTokenSpelling(y, d.year);
  }

  /** `'{0.month}/{0.day}/{0.year}'.format(d)`. */
  function Format(d: Date): string
    requires d.Valid()
  {
    Show(d.month) + "/" + Show(d.day) + "/" + Show(d.year)
  }

  /** A printed date splits into the plain decimal month, day and year. */
  lemma {:induction false} FormatFields(d: Date)
    requires d.Valid()
    ensures Fields(Format(d)) == [Show(d.month), Show(d.day), Show(d.year)]
  {
    var fs := [Show(d.month), Show(d.day), Show(d.year)];
    Join3(Show(d.month), Show(d.day), Show(d.year));
    FieldsJoin(fs);
  }

  /**
    A printed date is three decimal fields, the month, the day and the year,
    none of them with a leading zero: one-digit months and days print as
    one character.
   */
  lemma {:induction false} FormatUnpadded(d: Date)
    requires d.Valid()
    ensures var f := Fields(Format(d));
      && |f| == 3
      && AllDigits(f[0]) && Value(f[0]) == d.month && f[0][0] != '0' && (|f[0]| == 1 <==> d.month < 10)
      && AllDigits(f[1]) && Value(f[1]) == d.day && f[1][0] != '0' && (|f[1]| == 1 <==> d.day < 10)
      && AllDigits(f[2]) && Value(f[2]) == d.year && f[2][0] != '0'
  {
    FormatFields(d);
    var f := Fields(Format(d));
    assert Canonical(f[0]) && Canonical(f[1]) && Canonical(f[2]);
  }

  /** A printed date with a four-digit year parses back to itself. */
  lemma {:induction false} FormatThenParse(d: Date)
    requires d.Valid() && d.year >= 1000
    ensures Parse(Format(d)) == Some(d)
  {
    ShowIsPad4(d.year);
    assert Show(d.month) in MonthSpellings(d.month);
    assert Show(d.day) in DaySpellings(d.day);
    ParseComplete(d, Show(d.month), Show(d.day));
  }

  /** Years below 1000 print with fewer than four digits, which `%Y` does not read back. */
  lemma {:induction false} ShortYearDoesNotParseBack(d: Date)
    requires d.Valid() && d.year < 1000
    ensures Parse(Format(d)).None?
  {
    FormatFields(d);
    assert |Fields(Format(d))[2]| <= 3;
  }

  // ---------------------------------------------------------------------
  // Examples

  /** Month 13 is rejected. */
  lemma ExampleMonthThirteen()
    ensures Parse("13/01/2020").None?
  {
  }

  /** February 30 matches the pattern but is not a date, so it is rejected. */
  lemma ExampleFebruaryThirtieth()
    ensures Parse("2/30/2020").None?
  {
  }

  /** Three years back from a leap day is Feb 28, printed without padding. */
  lemma ExampleLeapDayShift()
    ensures ShiftYears(Date(2024, 2, 29), -3) == Some(Date(2021, 2, 28))
    ensures Format(Date(2021, 2, 28)) == "2/28/2021"
  {
  }
}
