/** Dates as the scheduler sees them. `strptime(text, "%B %d")` has no year
    field, so every explicit date lands in 1900; a date is the number of days
    since 1 January 1900 (day 0). Adding days never wraps: 1 January 1901 is
    day 365. The datetime type ends on 31 December 9999. */
module Calendar {
  import opened Options
  import opened PyStr

  /** Full English month names, as `%B` and the extractor's date pattern spell them. */
  const MonthNames: seq<string> := ["January", "February", "March", "April", "May", "June", "July",
                                    "August", "September", "October", "November", "December"]

  /** Month lengths in 1900, which is not a leap year. */
  const DaysInMonth: seq<nat> := [31, 28, 31, 30, 31, 30, 31, 31, 30, 31, 30, 31]

  /** Days of 1900 before the first of each month (index 12 is the whole year). */
  const DaysBefore: seq<nat> := [0, 31, 59, 90, 120, 151, 181, 212, 243, 273, 304, 334, 365]

  const YearLength: nat := 365

  /** 31 December 9999, the last day a datetime can hold: date(9999, 12, 31).toordinal()
      minus date(1900, 1, 1).toordinal(). */
  const MaxOrdinal: nat := 3652059 - 693596

  /** The largest day count `timedelta(days=...)` accepts. */
  const MaxTimedeltaDays: nat := 999999999

  /** The cumulative table agrees with the month lengths. */
  lemma DaysBeforeConsistent()
    ensures |DaysBefore| == 13 && DaysBefore[0] == 0 && DaysBefore[12] == YearLength
    ensures forall m :: 0 <= m < 12 ==> DaysBefore[m + 1] == DaysBefore[m] + DaysInMonth[m]
  {
  }

  /** No month is shorter than 28 days or longer than 31. */
  lemma MonthLengths()
    ensures forall m :: 0 <= m < 12 ==> 28 <= DaysInMonth[m] <= 31
  {
  }

  /** Day d of month m (0 = January) exists in 1900. */
  predicate ValidDay(m: int, d: int) {
    0 <= m < 12 && 1 <= d <= DaysInMonth[m]
  }

  /** The ordinal of day d of month m of 1900. */
  function Ordinal(m: int, d: int): (o: nat)
    requires ValidDay(m, d)
    ensures DaysBefore[m] <= o < DaysBefore[m + 1] && o < YearLength
  {
    DaysBeforeConsistent();
    DaysBefore[m] + d - 1
  }

  /** The month that holds ordinal o of 1900, searching from month m on. */
  function MonthOf(o: nat, m: nat): (r: nat)
    requires m < 12 && DaysBefore[m] <= o < YearLength
    ensures m <= r < 12 && DaysBefore[r] <= o < DaysBefore[r + 1]
    decreases 12 - m
  {
    if o < DaysBefore[m + 1] then m else MonthOf(o, m + 1)
  }

  /** Every day of 1900 has exactly one (month, day) name, and back. */
  lemma OrdinalRoundTrip(o: nat)
    requires o < YearLength
    ensures var m := MonthOf(o, 0); ValidDay(m, o - DaysBefore[m] + 1) && Ordinal(m, o - DaysBefore[m] + 1) == o
    ensures var m := MonthOf(o, 0); o - DaysBefore[m] + 1 <= 31
    ensures forall m, d :: ValidDay(m, d) && Ordinal(m, d) == o ==> m == MonthOf(o, 0) && d == o - DaysBefore[m] + 1
  {
    DaysBeforeConsistent();
    var m0 := MonthOf(o, 0);
    var d0 := o - DaysBefore[m0] + 1;
    assert DaysInMonth[m0] <= 31;
    forall m, d | ValidDay(m, d) && Ordinal(m, d) == o ensures m == m0 && d == d0 {
      OrdinalOrder(m, d, m0, d0);
      OrdinalOrder(m0, d0, m, d);
    }
  }

  /** Ordinals order the days of 1900 by month, then by day: whatever the
      order of the sentences, "January 2" comes before "December 30". */
  lemma OrdinalOrder(m1: int, d1: int, m2: int, d2: int)
    requires ValidDay(m1, d1) && ValidDay(m2, d2)
    ensures Ordinal(m1, d1) < Ordinal(m2, d2) <==> m1 < m2 || (m1 == m2 && d1 < d2)
  {
    DaysBeforeConsistent();
    if m1 < m2 {
      DaysBeforeMonotone(m1 + 1, m2);
    } else if m2 < m1 {
      DaysBeforeMonotone(m2 + 1, m1);
    }
  }

  lemma {:induction false} DaysBeforeMonotone(a: nat, b: nat)
    requires a <= b <= 12
    ensures DaysBefore[a] <= DaysBefore[b]
    decreases b - a
  {
    DaysBeforeConsistent();
    if a < b { DaysBeforeMonotone(a + 1, b); }
  }

  // ---------------------------------------------------------------------------
  // parse_date: strptime(text, "%B %d"), any failure giving None

  /** The full name of month m begins s, ignoring case. */
  predicate NameAt(s: string, m: int) {
    0 <= m < 12 && |MonthNames[m]| <= |s| && Lower(s[..|MonthNames[m]|]) == Lower(MonthNames[m])
  }

  /** The `%B` alternation: a month, from m on, whose name begins s in any case. At
      most one month name begins a text (`NameAtUnique`), so the order in which the
      alternatives are tried does not matter. */
  function MonthPrefix(s: string, m: nat): (r: Option<nat>)
    requires m <= 12
    ensures r.Some? ==> m <= r.value < 12 && NameAt(s, r.value)
    ensures r.None? ==> forall k :: m <= k < 12 ==> !NameAt(s, k)
    decreases 12 - m
  {
    if m == 12 then None else if NameAt(s, m) then Some(m) else MonthPrefix(s, m + 1)
  }

  /** The `%d` alternation `3[01]|[12]\d|0[1-9]|[1-9]| [1-9]` tried in order at r:
      the day it reads and where its text ends. */
  function DayAt(s: string, r: nat): (x: Option<(nat, nat)>)
    requires r <= |s|
    ensures x.Some? ==> 1 <= x.value.0 <= 31 && r < x.value.1 <= r + 2 && x.value.1 <= |s|
  {
    if r + 1 < |s| && s[r] == '3' && (s[r + 1] == '0' || s[r + 1] == '1') then
      Some((30 + DigitValue(s[r + 1]), r + 2))
    else if r + 1 < |s| && (s[r] == '1' || s[r] == '2') && IsDigit(s[r + 1]) then
      Some((10 * DigitValue(s[r]) + DigitValue(s[r + 1]), r + 2))
    else if r + 1 < |s| && s[r] == '0' && '1' <= s[r + 1] <= '9' then
      Some((DigitValue(s[r + 1]), r + 2))
    else if r < |s| && '1' <= s[r] <= '9' then
      Some((DigitValue(s[r]), r + 1))
    else if r + 1 < |s| && s[r] == ' ' && '1' <= s[r + 1] <= '9' then
      Some((DigitValue(s[r + 1]), r + 2))
    else None
  }

  /** `parse_date`: a month name in any case, whitespace (the format's space reads
      as `\s+`), a day, and nothing after it; the day must exist in 1900
      (so "February 29" is refused). Every failure is None, never an error. */
  function ParseDate(text: string): (o: Option<nat>)
    ensures o.Some? ==> o.value < YearLength
    ensures o.Some? ==> exists m, d :: ValidDay(m, d) && o.value == Ordinal(m, d) && NameAt(text, m)
  {
    match MonthPrefix(text, 0)
    case None => None
    case Some(m) =>
      var q := |MonthNames[m]|;
      var r := SkipSpace(text, q);
      if r == q then None
      else
        match DayAt(text, r)
        case None => None
        case Some((d, e)) => if e == |text| && ValidDay(m, d) then Some(Ordinal(m, d)) else None
  }

  /** The first three letters of a name, lower-cased. */
  function Key(name: string): string
    requires |name| >= 3
  {
    [LowerChar(name[0]), LowerChar(name[1]), LowerChar(name[2])]
  }

  /** Recovers the month from its key. */
  function MonthOfKey(key: string): int {
    if key == "jan" then 0 else if key == "feb" then 1 else if key == "mar" then 2
    else if key == "apr" then 3 else if key == "may" then 4 else if key == "jun" then 5
    else if key == "jul" then 6 else if key == "aug" then 7 else if key == "sep" then 8
    else if key == "oct" then 9 else if key == "nov" then 10 else if key == "dec" then 11 else -1
  }

  /** No two month names agree, case aside, on their first three letters. */
  lemma MonthKeys()
    ensures forall m :: 0 <= m < 12 ==> |MonthNames[m]| >= 3 && MonthOfKey(Key(MonthNames[m])) == m
  {
    forall m | 0 <= m < 12 ensures |MonthNames[m]| >= 3 && MonthOfKey(Key(MonthNames[m])) == m {
      if m == 0 { assert Key(MonthNames[m]) == "jan"; }
      else if m == 1 { assert Key(MonthNames[m]) == "feb"; }
      else if m == 2 { assert Key(MonthNames[m]) == "mar"; }
      else if m == 3 { assert Key(MonthNames[m]) == "apr"; }
      else if m == 4 { assert Key(MonthNames[m]) == "may"; }
      else if m == 5 { assert Key(MonthNames[m]) == "jun"; }
      else if m == 6 { assert Key(MonthNames[m]) == "jul"; }
      else if m == 7 { assert Key(MonthNames[m]) == "aug"; }
      else if m == 8 { assert Key(MonthNames[m]) == "sep"; }
      else if m == 9 { assert Key(MonthNames[m]) == "oct"; }
      else if m == 10 { assert Key(MonthNames[m]) == "nov"; }
      else { assert Key(MonthNames[m]) == "dec"; }
    }
  }

  /** At most one month name begins a text, case aside: no two names share
      their first three letters. */
  lemma NameAtUnique(s: string, k: int, m: int)
    requires NameAt(s, k) && NameAt(s, m)
    ensures k == m
  {
    MonthKeys();
    var a, b := MonthNames[k], MonthNames[m];
    assert Lower(s[..|a|])[..3] == Lower(a)[..3];
    assert Lower(s[..|b|])[..3] == Lower(b)[..3];
    assert Key(a) == Lower(a)[..3];
    assert Key(b) == Lower(b)[..3];
    assert Lower(s[..|a|])[..3] == Lower(s[..|b|])[..3];
  }

  /** `%B` reads month m exactly when m's name begins the text in any case,
      whatever order the alternatives are tried in. */
  lemma MonthPrefixIsTheName(s: string, m: int)
    ensures MonthPrefix(s, 0) == Some(m) <==> NameAt(s, m)
  {
    if NameAt(s, m) {
      var r := MonthPrefix(s, 0);
      if r.Some? { NameAtUnique(s, r.value, m); }
    }
  }

  /** A text that begins with a month's exact name is read as that month by `%B`. */
  lemma MonthPrefixOfName(t: string, m: nat)
    requires m < 12 && |MonthNames[m]| <= |t| && t[..|MonthNames[m]|] == MonthNames[m]
    ensures MonthPrefix(t, 0) == Some(m)
  {
    var q := |MonthNames[m]|;
    MonthKeys();
    assert Lower(t[..q]) == Lower(MonthNames[m]);
    forall k | 0 <= k < m ensures !NameAt(t, k) { }
    MonthPrefixFirst(t, 0, m);
  }

  /** One or two digits ending the text are read by `%d` up to the end exactly
      when they spell a day number from 1 to 31. */
  lemma DayAtDigits(s: string, r: nat)
    requires r < |s| && |s| - r <= 2 && DigitsBetween(s, r, |s|)
    ensures var v := DecimalValue(s[r..]);
            (DayAt(s, r).Some? && DayAt(s, r).value.1 == |s|) <==> 1 <= v <= 31
    ensures DayAt(s, r).Some? && DayAt(s, r).value.1 == |s| ==> DayAt(s, r).value.0 == DecimalValue(s[r..])
  {
    var ds := s[r..];
    if |ds| == 1 {
      assert ds[..0] == [];
      assert DecimalValue(ds) == DigitValue(s[r]);
    } else {
      assert ds[..1] == [s[r]] && [s[r]][..0] == [];
      assert DecimalValue([s[r]]) == DigitValue(s[r]);
      assert ds[1] == s[r + 1];
      assert DecimalValue(ds) == 10 * DigitValue(s[r]) + DigitValue(s[r + 1]);
    }
  }

  /** On the text the extractor captures for a date (a month name, one whitespace
      character, one or two digits), parse_date yields exactly that day of 1900,
      or None when 1900 has no such day. */
  lemma ParseDateOfDateText(m: nat, w: char, ds: string)
    requires m < 12 && IsSpace(w) && 1 <= |ds| <= 2 && AllDigits(ds)
    ensures var t := MonthNames[m] + [w] + ds;
            ParseDate(t) == if ValidDay(m, DecimalValue(ds)) then Some(Ordinal(m, DecimalValue(ds))) else None
  {
    var name := MonthNames[m];
    var t := name + [w] + ds;
    assert t[..|name|] == name && t[|name|] == w && t[|name| + 1..] == ds;
    ParseDateAfterName(t, m);
  }

  lemma ParseDateAfterName(t: string, m: nat)
    requires m < 12
    requires var q := |MonthNames[m]|;
             q + 2 <= |t| <= q + 3 && t[..q] == MonthNames[m] && IsSpace(t[q]) && DigitsBetween(t, q + 1, |t|)
    ensures var v := DecimalValue(t[|MonthNames[m]| + 1..]);
            ParseDate(t) == if ValidDay(m, v) then Some(Ordinal(m, v)) else None
  {
    var q := |MonthNames[m]|;
    var v := DecimalValue(t[q + 1..]);
    MonthPrefixOfName(t, m);
    assert SkipSpace(t, q) == q + 1 by { assert SkipSpace(t, q + 1) == q + 1; }
    DayAtDigits(t, q + 1);
    if 1 <= v <= 31 {
      assert DayAt(t, q + 1) == Some((v, |t|));
    } else {
      assert !ValidDay(m, v) by { MonthLengths(); }
    }
  }

  lemma {:induction false} MonthPrefixFirst(s: string, from: nat, m: nat)
    requires from <= m < 12 && NameAt(s, m)
    requires forall k :: from <= k < m ==> !NameAt(s, k)
    ensures MonthPrefix(s, from) == Some(m)
    decreases m - from
  {
    if from < m { MonthPrefixFirst(s, from + 1, m); }
  }

  // ---------------------------------------------------------------------------
  // parse_duration

  /** `parse_duration`: the number formed by all the digits of the text, as a day
      count. With no digit `int('')` fails, and beyond 999999999 days `timedelta`
      fails; both failures give 0. */
  function ParseDuration(text: string): (days: nat)
    ensures days <= MaxTimedeltaDays
    ensures (forall i :: 0 <= i < |text| ==> !IsDigit(text[i])) ==> days == 0
  {
    var ds := Digits(text);
    if ds == [] then 0
    else
      var n := DecimalValue(ds);
      if n <= MaxTimedeltaDays then n else 0
  }

  lemma {:induction false} DigitsAppend(a: string, b: string)
    ensures Digits(a + b) == Digits(a) + Digits(b)
    decreases |a|
  {
    if a != [] {
      DigitsAppend(a[1..], b);
      assert (a + b)[1..] == a[1..] + b;
    } else {
      assert a + b == b;
    }
  }

  lemma {:induction false} DigitsOfDigits(ds: string)
    requires AllDigits(ds)
    ensures Digits(ds) == ds
    decreases |ds|
  {
    if ds != [] { DigitsOfDigits(ds[1..]); }
  }

  lemma {:induction false} DigitsOfNonDigits(s: string)
    requires forall c <- s :: !IsDigit(c)
    ensures Digits(s) == []
    decreases |s|
  {
    if s != [] { DigitsOfNonDigits(s[1..]); }
  }

  /** A number followed by any digit-free text (such as " days" or " weeks")
      parses to that number of days, or 0 past timedelta's limit. */
  lemma ParseDurationOfNumber(ds: string, unit: string)
    requires ds != [] && AllDigits(ds)
    requires forall c <- unit :: !IsDigit(c)
    ensures ParseDuration(ds + unit) == if DecimalValue(ds) <= MaxTimedeltaDays then DecimalValue(ds) else 0
  {
    DigitsAppend(ds, unit);
    DigitsOfDigits(ds);
    DigitsOfNonDigits(unit);
    assert ds + [] == ds;
  }

  /** The unit is not used to scale the count: "N weeks" lasts N days, not 7N. */
  lemma WeeksAreNotScaled(ds: string)
    requires ds != [] && AllDigits(ds)
    ensures ParseDuration(ds + " weeks") == ParseDuration(ds + " days")
  {
    ParseDurationOfNumber(ds, " weeks");
    ParseDurationOfNumber(ds, " days");
  }
}
