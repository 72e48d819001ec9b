/** Dates as search keys carry them. */
module Dates {
  import opened Octets
  import opened Nom

  datatype Date = Date(year: nat, month: nat, day: nat)

  predicate IsLeapYear(year: nat) {
    year % 4 == 0 && (year % 100 != 0 || year % 400 == 0)
  }

  function DaysIn(year: nat, month: nat): nat {
    if month == 2 then (if IsLeapYear(year) then 29 else 28)
    else if month == 4 || month == 6 || month == 9 || month == 11 then 30
    else 31
  }

  /** A day of the proleptic Gregorian calendar with a year of four digits. */
  predicate ValidDate(d: Date) {
    d.year <= 9999 && 1 <= d.month <= 12 && 1 <= d.day <= DaysIn(d.year, d.month)
  }

  function MonthName(month: nat): (name: string)
    ensures name != ""
  {
    match month
    case 1 => "Jan"
    case 2 => "Feb"
    case 3 => "Mar"
    case 4 => "Apr"
    case 5 => "May"
    case 6 => "Jun"
    case 7 => "Jul"
    case 8 => "Aug"
    case 9 => "Sep"
    case 10 => "Oct"
    case 11 => "Nov"
    case _ => "Dec"
  }

  // ----- The grammar -----

  /** A number in at least `least` and at most `most` digits. */
  ghost predicate DigitsText(least: nat, most: nat, n: nat, i: Wire, rest: Wire) {
    exists digits :: least <= |digits| <= most && All(IsDigit, digits) && DecimalValue(digits) == n && i == Feed(digits, rest)
  }

  /** A day in one or two digits, a month in any case of letters, a year in four digits. */
  ghost predicate DateText(d: Date, i: Wire, rest: Wire) {
    && ValidDate(d)
    && exists j, k ::
         && DigitsText(1, 2, d.day, i, Byte(HYPHEN, j))
         && WordText(MonthName(d.month), j, Byte(HYPHEN, k))
         && DigitsText(4, 4, d.year, k, rest)
  }

  /** With quotes or without. */
  ghost predicate DateForm(d: Date, i: Wire, rest: Wire) {
    DateText(d, i, rest) || (Starts(i, DQUOTE) && DateText(d, i.tail, Byte(DQUOTE, rest)))
  }

  // ----- Writing -----

  /** The last `width` decimal digits of `n`. */
  function Padded(n: nat, width: nat): (s: bytes)
    ensures |s| == width
    decreases width
  {
    if width == 0 then [] else Padded(n / 10, width - 1) + [(0x30 + n % 10) as byte]
  }

  function PutDate(d: Date, rest: Wire): Wire
    requires 1 <= d.month <= 12
  {
    Byte(DQUOTE, Feed(Padded(d.day, 2), Byte(HYPHEN, Text(MonthName(d.month),
      Byte(HYPHEN, Feed(Padded(d.year, 4), Byte(DQUOTE, rest)))))))
  }

  // ----- Reading -----

  /** The first month from `month` on whose name the input begins with, disregarding case. */
  function ReadMonth(month: nat, i: Wire): (r: Outcome<nat>)
    requires 1 <= month <= 13
    ensures r.Consumes(i)
    ensures r.Ok? ==> month <= r.value <= 12
    decreases 13 - month, i
  {
    if month == 13 then Error
    else Alt(TagNoCase(MonthName(month), i).Map(_ => month), ReadMonth(month + 1, i))
  }

  function ReadDigits(least: nat, most: nat, i: Wire): (r: Outcome<nat>)
    requires 0 < least <= most
    ensures r.Consumes(i)
  {
    TakeWhileMN(least, most, IsDigit, i).Map(digits => DecimalValue(digits))
  }

  function ReadMonthAndYear(i: Wire): (r: Outcome<(nat, nat)>)
    ensures r.Consumes(i)
  {
    var (i1, month) :- ReadMonth(1, i);
    var (i2, _) :- Char(HYPHEN, i1);
    var (i3, year) :- ReadDigits(4, 4, i2);
    Ok(i3, (month, year))
  }

  /** A syntactically correct date that is in no calendar is read as no date. */
  function ReadDateText(i: Wire): (r: Outcome<Option<Date>>)
    ensures r.Consumes(i)
  {
    var (i1, day) :- ReadDigits(1, 2, i);
    var (i2, _) :- Char(HYPHEN, i1);
    var (i3, (month, year)) :- ReadMonthAndYear(i2);
    var date := Date(year, month, day);
    Ok(i3, if ValidDate(date) then Some(date) else None)
  }

  function ReadQuotedDate(i: Wire): (r: Outcome<Option<Date>>)
    ensures r.Consumes(i)
  {
    var (i1, _) :- Char(DQUOTE, i);
    var (i2, date) :- ReadDateText(i1);
    var (i3, _) :- Char(DQUOTE, i2);
    Ok(i3, date)
  }

  function ReadDate(i: Wire): (r: Outcome<Date>)
    ensures r.Consumes(i)
    ensures r.Ok? ==> ValidDate(r.value)
  {
    var (rest, date) :- Alt(ReadDateText(i), ReadQuotedDate(i));
    if date.Some? && ValidDate(date.value) then Ok(rest, date.value) else Error
  }

  // ----- Reading inverts writing -----

  lemma MonthsClash(m: nat, k: nat)
    requires 1 <= m < k <= 12
    ensures Clash(MonthName(m), MonthName(k))
  {
    var a, b := MonthName(m), MonthName(k);
    if LowerCase(Octet(a[0])) != LowerCase(Octet(b[0])) {
    } else if LowerCase(Octet(a[1])) != LowerCase(Octet(b[1])) {
    } else {
      assert LowerCase(Octet(a[2])) != LowerCase(Octet(b[2]));
    }
  }

  lemma {:induction false} MonthReads(m: nat, k: nat, i: Wire, rest: Wire)
    requires 1 <= m <= k <= 12
    requires WordText(MonthName(k), i, rest)
    ensures ReadMonth(m, i) == Ok(rest, k)
    decreases k - m
  {
    if m < k {
      MonthsClash(m, k);
      WordRejects(MonthName(m), MonthName(k), i, rest);
      MonthReads(m + 1, k, i, rest);
    } else {
      TagIsWord(MonthName(k), i, rest);
    }
  }

  lemma {:induction false} MonthIsText(m: nat, i: Wire)
    requires 1 <= m <= 13
    ensures var r := ReadMonth(m, i); r.Ok? ==> WordText(MonthName(r.value), i, r.rest)
    decreases 13 - m
  {
    if m < 13 {
      TagTakesWord(MonthName(m), i);
      MonthIsText(m + 1, i);
    }
  }

  lemma PaddedStep(n: nat, width: nat)
    requires All(IsDigit, Padded(n / 10, width))
    ensures All(IsDigit, Padded(n, width + 1))
    ensures DecimalValue(Padded(n, width + 1)) == 10 * DecimalValue(Padded(n / 10, width)) + n % 10
  {
    assert Padded(n, width + 1)[..width] == Padded(n / 10, width);
  }

  function Power10(width: nat): nat {
    if width == 0 then 1 else 10 * Power10(width - 1)
  }

  lemma {:induction false} PaddedReads(n: nat, width: nat)
    requires n < Power10(width)
    ensures All(IsDigit, Padded(n, width)) && DecimalValue(Padded(n, width)) == n
    decreases width
  {
    if width > 0 {
      PaddedReads(n / 10, width - 1);
      PaddedStep(n, width - 1);
    }
  }

  lemma DigitsRead(least: nat, most: nat, n: nat, i: Wire, rest: Wire)
    requires 0 < least <= most
    requires DigitsText(least, most, n, i, rest)
    requires least < most ==> rest.Byte? && !IsDigit(rest.head)
    ensures ReadDigits(least, most, i) == Ok(rest, n)
    ensures i.Byte? && IsDigit(i.head)
  {
    var digits :|
      least <= |digits| <= most && All(IsDigit, digits) && DecimalValue(digits) == n && i == Feed(digits, rest);
    TakeWhileMNReads(least, most, IsDigit, digits, rest);
  }

  lemma DigitsAreText(least: nat, most: nat, i: Wire)
    requires 0 < least <= most
    ensures var r := ReadDigits(least, most, i); r.Ok? ==> DigitsText(least, most, r.value, i, r.rest)
  {
    TakeUpToTakes(most, IsDigit, i);
  }

  lemma PaddedIsText(n: nat, least: nat, most: nat, rest: Wire)
    requires least <= most && n < Power10(most)
    ensures DigitsText(least, most, n, Feed(Padded(n, most), rest), rest)
  {
    PaddedReads(n, most);
  }

  lemma {:induction false} DateTextReads(d: Date, i: Wire, rest: Wire)
    requires DateText(d, i, rest)
    ensures ReadDateText(i) == Ok(rest, Some(d))
    ensures i.Byte? && IsDigit(i.head)
  {
    var j, k :|
      && DigitsText(1, 2, d.day, i, Byte(HYPHEN, j))
      && WordText(MonthName(d.month), j, Byte(HYPHEN, k))
      && DigitsText(4, 4, d.year, k, rest);
    DigitsRead(1, 2, d.day, i, Byte(HYPHEN, j));
    MonthReads(1, d.month, j, Byte(HYPHEN, k));
    DigitsRead(4, 4, d.year, k, rest);
  }

  /** A date is read with or without quotes, with one digit for the day or two, with the month in
      any case of letters. */
  lemma {:induction false} DateReads(d: Date, i: Wire, rest: Wire)
    requires DateForm(d, i, rest)
    ensures ReadDate(i) == Ok(rest, d)
  {
    if DateText(d, i, rest) {
      DateTextReads(d, i, rest);
    } else {
      DateTextReads(d, i.tail, Byte(DQUOTE, rest));
      assert TakeUpTo(2, IsDigit, i).0 == [];
    }
  }

  lemma {:induction false} MonthAndYearIsText(j: Wire) returns (k: Wire)
    requires ReadMonthAndYear(j).Ok?
    ensures var r := ReadMonthAndYear(j);
            && 1 <= r.value.0 <= 12
            && WordText(MonthName(r.value.0), j, Byte(HYPHEN, k))
            && DigitsText(4, 4, r.value.1, k, r.rest)
  {
    MonthIsText(1, j);
    k := ReadMonth(1, j).rest.tail;
    DigitsAreText(4, 4, k);
  }

  lemma {:induction false} DateTextIsText(i: Wire)
    ensures var r := ReadDateText(i); r.Ok? && r.value.Some? ==> DateText(r.value.value, i, r.rest)
  {
    if ReadDateText(i).Ok? && ReadDateText(i).value.Some? {
      DigitsAreText(1, 2, i);
      var k := MonthAndYearIsText(ReadDigits(1, 2, i).rest.tail);
    }
  }

  lemma {:induction false} QuotedDateIsText(i: Wire)
    ensures var r := ReadQuotedDate(i);
            r.Ok? && r.value.Some? ==> Starts(i, DQUOTE) && DateText(r.value.value, i.tail, Byte(DQUOTE, r.rest))
  {
    var r := ReadQuotedDate(i);
    if r.Ok? && r.value.Some? {
      DateTextIsText(i.tail);
      InQuotes(ReadDateText(i.tail), r.value.value, i.tail, r.rest);
    }
  }

  lemma {:induction false} InQuotes(o: Outcome<Option<Date>>, d: Date, i: Wire, rest: Wire)
    requires o.Ok? && o.value == Some(d) && DateText(d, i, o.rest)
    requires Char(DQUOTE, o.rest) == Ok(rest, ())
    ensures DateText(d, i, Byte(DQUOTE, rest))
  {
  }

  /** Only such texts are read as dates. */
  lemma {:induction false} DateIsText(i: Wire)
    ensures var r := ReadDate(i); r.Ok? ==> DateForm(r.value, i, r.rest)
  {
    DateTextIsText(i);
    QuotedDateIsText(i);
  }

  /** The exact form in which dates are read: a date is read precisely from its texts. */
  lemma {:induction false} DateGrammar(d: Date, i: Wire, rest: Wire)
    ensures ReadDate(i) == Ok(rest, d) <==> DateForm(d, i, rest)
  {
    DateIsText(i);
    if DateForm(d, i, rest) {
      DateReads(d, i, rest);
    }
  }

  lemma {:induction false} PutDateIsText(d: Date, rest: Wire)
    requires ValidDate(d)
    ensures DateForm(d, PutDate(d, rest), rest)
  {
    var k := Feed(Padded(d.year, 4), Byte(DQUOTE, rest));
    var j := Text(MonthName(d.month), Byte(HYPHEN, k));
    assert Power10(2) == 100 && Power10(4) == 10000;
    PaddedIsText(d.day, 1, 2, Byte(HYPHEN, j));
    TextIsWord(MonthName(d.month), Byte(HYPHEN, k));
    PaddedIsText(d.year, 4, 4, Byte(DQUOTE, rest));
    assert DateText(d, PutDate(d, rest).tail, Byte(DQUOTE, rest));
  }

  lemma {:induction false} DateRoundTrip(d: Date, rest: Wire)
    requires ValidDate(d)
    ensures ReadDate(PutDate(d, rest)) == Ok(rest, d)
  {
    PutDateIsText(d, rest);
    DateReads(d, PutDate(d, rest), rest);
  }

  // ----- Stability -----

  lemma {:induction false} MonthStable(m: nat, i: Wire, q: Wire)
    requires 1 <= m <= 13
    ensures Extends(ReadMonth(m, i), ReadMonth(m, Join(i, q)), q)
    decreases 13 - m
  {
    if m < 13 {
      TagStable(MonthName(m), i, q);
      MonthStable(m + 1, i, q);
    }
  }

  lemma DigitsStable(least: nat, most: nat, i: Wire, q: Wire)
    requires 0 < least <= most
    ensures Extends(ReadDigits(least, most, i), ReadDigits(least, most, Join(i, q)), q)
  {
    TakeWhileMNStable(least, most, IsDigit, i, q);
  }

  lemma {:induction false} MonthAndYearStable(i: Wire, q: Wire)
    ensures Extends(ReadMonthAndYear(i), ReadMonthAndYear(Join(i, q)), q)
  {
    MonthStable(1, i, q);
    if ReadMonth(1, i).Ok? {
      var i1 := ReadMonth(1, i).rest;
      CharStable(HYPHEN, i1, q);
      if Char(HYPHEN, i1).Ok? {
        DigitsStable(4, 4, Char(HYPHEN, i1).rest, q);
      }
    }
  }

  lemma {:induction false} DateTextStable(i: Wire, q: Wire)
    ensures Extends(ReadDateText(i), ReadDateText(Join(i, q)), q)
  {
    DigitsStable(1, 2, i, q);
    if ReadDigits(1, 2, i).Ok? {
      var i1 := ReadDigits(1, 2, i).rest;
      CharStable(HYPHEN, i1, q);
      if Char(HYPHEN, i1).Ok? {
        MonthAndYearStable(Char(HYPHEN, i1).rest, q);
      }
    }
  }

  lemma {:induction false} QuotedDateStable(i: Wire, q: Wire)
    ensures Extends(ReadQuotedDate(i), ReadQuotedDate(Join(i, q)), q)
  {
    CharStable(DQUOTE, i, q);
    if Char(DQUOTE, i).Ok? {
      var i1 := Char(DQUOTE, i).rest;
      DateTextStable(i1, q);
      if ReadDateText(i1).Ok? {
        CharStable(DQUOTE, ReadDateText(i1).rest, q);
      }
    }
  }

  lemma {:induction false} DateStable(i: Wire, q: Wire)
    ensures Extends(ReadDate(i), ReadDate(Join(i, q)), q)
  {
    var j := Join(i, q);
    DateTextStable(i, q);
    QuotedDateStable(i, q);
    AltStable(ReadDateText(i), ReadDateText(j), ReadQuotedDate(i), ReadQuotedDate(j), q);
  }
}
