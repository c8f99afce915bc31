/** The examples of test_normalize.py, as far as they do not depend on the
    external parser's grammar: the guard's rejections, the formatting half of
    the valid dates (given the parsed day, month and year), and why the
    impossible dates can never come out as canonical text. */
module NormalizeTests {
  import opened Values
  import opened Calendar
  import opened DateText
  import opened Normalizer

  lemma RenderDate1()
    ensures Render(Ymd(20, 9, 1901)) == "20-09-1901"
  {
  }

  lemma RenderDate2()
    ensures Render(Ymd(6, 5, 1999)) == "06-05-1999"
  {
  }

  lemma RenderDate3()
    ensures Render(Ymd(31, 7, 1988)) == "31-07-1988"
  {
  }

  lemma RenderDate4()
    ensures Render(Ymd(5, 8, 1982)) == "05-08-1982"
  {
  }

  /* `test_valid_dates`, formatting half: whenever the parser reads a test
     string as the date it spells, `normalize_date` returns the expected
     canonical text. */

  lemma TestValidDate1(parse: Parser)
    requires parse("20.9.1901") == Some(Ymd(20, 9, 1901))
    ensures NormalizeDate(parse, Str("20.9.1901")) == Some("20-09-1901")
  {
    assert !IsSpace("20.9.1901"[0]);
    NormalizeParsed(parse, "20.9.1901", Ymd(20, 9, 1901));
    RenderDate1();
  }

  lemma TestValidDate2(parse: Parser)
    requires parse("6 мая 1999") == Some(Ymd(6, 5, 1999))
    ensures NormalizeDate(parse, Str("6 мая 1999")) == Some("06-05-1999")
  {
    assert !IsSpace("6 мая 1999"[0]);
    NormalizeParsed(parse, "6 мая 1999", Ymd(6, 5, 1999));
    RenderDate2();
  }

  lemma TestValidDate3(parse: Parser)
    requires parse("31.07.1988") == Some(Ymd(31, 7, 1988))
    ensures NormalizeDate(parse, Str("31.07.1988")) == Some("31-07-1988")
  {
    assert !IsSpace("31.07.1988"[0]);
    NormalizeParsed(parse, "31.07.1988", Ymd(31, 7, 1988));
    RenderDate3();
  }

  lemma TestValidDate4(parse: Parser)
    requires parse("5 августа 1982") == Some(Ymd(5, 8, 1982))
    ensures NormalizeDate(parse, Str("5 августа 1982")) == Some("05-08-1982")
  {
    assert !IsSpace("5 августа 1982"[0]);
    NormalizeParsed(parse, "5 августа 1982", Ymd(5, 8, 1982));
    RenderDate4();
  }

  lemma NormalizeParsed(parse: Parser, s: string, d: Date)
    requires !IsBlank(s) && parse(s) == Some(d)
    ensures NormalizeDate(parse, Str(s)) == Some(Render(d))
  {
  }

  /** `test_empty_and_none`: the empty string, a string of spaces, `None` and
      the integer 123 are all rejected, whatever the parser. */
  lemma TestEmptyAndNone(parse: Parser)
    ensures NormalizeDate(parse, Str("")) == None
    ensures NormalizeDate(parse, Str("   ")) == None
    ensures NormalizeDate(parse, NonStr("None")) == None
    ensures NormalizeDate(parse, NonStr("123")) == None
  {
    assert IsBlank("   ");
  }

  /** The texts the two impossible test dates would have to be rendered as
      decode to no date at all. */
  lemma ImpossibleTextsDecodeToNone()
    ensures Decode("31-02-1930") == None
    ensures Decode("29-02-1983") == None
  {
    ImpossibleTestDates();
    DayMonthYear("31-02-1930", 31, 2, 1930);
    DayMonthYear("29-02-1983", 29, 2, 1983);
  }

  lemma DayMonthYear(s: string, day: int, month: int, year: int)
    requires |s| == 10 && s[2] == '-' && s[5] == '-'
    requires AllDigits(s[..2]) && AllDigits(s[3..5]) && AllDigits(s[6..])
    requires DigitValue(s[0]) * 10 + DigitValue(s[1]) == day
    requires DigitValue(s[3]) * 10 + DigitValue(s[4]) == month
    requires ((DigitValue(s[6]) * 10 + DigitValue(s[7])) * 10 + DigitValue(s[8])) * 10 + DigitValue(s[9]) == year
    ensures Decode(s) == if IsCalendarDate(Ymd(day, month, year)) && 1000 <= year
                         then Some(Ymd(day, month, year)) else None
  {
    Fields(s);
  }

  /** `test_invalid_dates`, calendar half: no parser can make `normalize_date`
      produce a canonical text for 31 February 1930 or for 29 February 1983,
      because neither day exists. */
  lemma TestInvalidDates(parse: Parser)
    ensures NormalizeDate(parse, Str("31.2.1930")) != Some("31-02-1930")
    ensures NormalizeDate(parse, Str("29.2.1983")) != Some("29-02-1983")
  {
    ImpossibleTextsDecodeToNone();
  }
}
