/** The canonical text of a date, `strftime('%d-%m-%Y')`: day and month as two
    zero-padded digits, the year as four digits, joined by `-`. */
module DateText {
  import opened Values
  import opened Calendar

  predicate IsDigit(c: char) {
    '0' <= c <= '9'
  }

  function DigitChar(k: int): (c: char)
    requires 0 <= k <= 9
    ensures IsDigit(c) && c as int - '0' as int == k
  {
    ('0' as int + k) as char
  }

  function DigitValue(c: char): (k: int)
    requires IsDigit(c)
    ensures 0 <= k <= 9
    ensures DigitChar(k) == c
  {
    c as int - '0' as int
  }

  predicate AllDigits(s: string) {
    forall i :: 0 <= i < |s| ==> IsDigit(s[i])
  }

  /** The number a string of decimal digits spells, most significant first. */
  function DecimalValue(s: string): nat
    requires AllDigits(s)
  {
    if s == [] then 0
    else DecimalValue(s[..|s| - 1]) * 10 + DigitValue(s[|s| - 1])
  }

  lemma DecimalOfTwo(s: string)
    requires |s| == 2 && AllDigits(s)
    ensures DecimalValue(s) == DigitValue(s[0]) * 10 + DigitValue(s[1])
  {
    assert s[..1][..0] == [];
    assert s[..1] == [s[0]];
    assert DecimalValue(s[..1]) == DigitValue(s[0]);
  }

  lemma DecimalOfFour(s: string)
    requires |s| == 4 && AllDigits(s)
    ensures DecimalValue(s)
         == ((DigitValue(s[0]) * 10 + DigitValue(s[1])) * 10 + DigitValue(s[2])) * 10 + DigitValue(s[3])
  {
    DecimalOfTwo(s[..2]);
    assert s[..3][..2] == s[..2];
  }

  /** Renders a parsed date as `DD-MM-YYYY`: `%d` and `%m` are two digits,
      zero-padded, and `%Y` is the four digits of the year. */
  function Render(d: Date): (s: string)
    ensures |s| == 10 && s[2] == '-' && s[5] == '-'
    ensures AllDigits(s[..2]) && AllDigits(s[3..5]) && AllDigits(s[6..])
  {
    [ DigitChar(d.day / 10), DigitChar(d.day % 10), '-',
      DigitChar(d.month / 10), DigitChar(d.month % 10), '-',
      DigitChar(d.year / 1000), DigitChar(d.year / 100 % 10),
      DigitChar(d.year / 10 % 10), DigitChar(d.year % 10) ]
  }

  /** Reads `DD-MM-YYYY` back; `None` for any text that is not the rendering
      of a calendar date with a four-digit year. */
  function Decode(s: string): (r: Option<Date>)
    ensures r.Some? ==> |s| == 10 && s[2] == '-' && s[5] == '-'
  {
    if |s| == 10 && s[2] == '-' && s[5] == '-'
       && AllDigits(s[..2]) && AllDigits(s[3..5]) && AllDigits(s[6..])
    then
      var t := Ymd(DecimalValue(s[..2]), DecimalValue(s[3..5]), DecimalValue(s[6..]));
      if IsCalendarDate(t) && 1000 <= t.year then Some(t) else None
    else None
  }

  /** The three numeric fields of a `DD-MM-YYYY`-shaped text. */
  lemma Fields(s: string)
    requires |s| == 10 && AllDigits(s[..2]) && AllDigits(s[3..5]) && AllDigits(s[6..])
    ensures DecimalValue(s[..2]) == DigitValue(s[0]) * 10 + DigitValue(s[1])
    ensures DecimalValue(s[3..5]) == DigitValue(s[3]) * 10 + DigitValue(s[4])
    ensures DecimalValue(s[6..])
         == ((DigitValue(s[6]) * 10 + DigitValue(s[7])) * 10 + DigitValue(s[8])) * 10 + DigitValue(s[9])
  {
    DecimalOfTwo(s[..2]);
    DecimalOfTwo(s[3..5]);
    DecimalOfFour(s[6..]);
  }

  lemma SplitTwo(n: int)
    requires 0 <= n < 100
    ensures 0 <= n / 10 <= 9 && 0 <= n % 10 <= 9
    ensures n / 10 * 10 + n % 10 == n
  {
  }

  lemma SplitFour(n: int)
    requires 0 <= n < 10000
    ensures 0 <= n / 1000 <= 9
    ensures ((n / 1000 * 10 + n / 100 % 10) * 10 + n / 10 % 10) * 10 + n % 10 == n
  {
    assert n / 10 * 10 + n % 10 == n;
    assert n / 100 * 10 + n / 10 % 10 == n / 10;
    assert n / 1000 * 10 + n / 100 % 10 == n / 100;
  }

  lemma JoinTwo(a: int, b: int)
    requires 0 <= a <= 9 && 0 <= b <= 9
    ensures (a * 10 + b) / 10 == a && (a * 10 + b) % 10 == b
  {
  }

  lemma JoinFour(a: int, b: int, c: int, e: int)
    requires 0 <= a <= 9 && 0 <= b <= 9 && 0 <= c <= 9 && 0 <= e <= 9
    ensures var n := ((a * 10 + b) * 10 + c) * 10 + e;
      n / 1000 == a && n / 100 % 10 == b && n / 10 % 10 == c && n % 10 == e
  {
    var m := (a * 10 + b) * 10 + c;
    var n := m * 10 + e;
    JoinTwo(a, b);
    assert n / 10 == m && n % 10 == e;
    assert m / 10 == a * 10 + b && m % 10 == c;
    assert n / 100 == m / 10;
    assert n / 1000 == a;
  }

  /** Decoding the rendering of a date gives the date back. */
  lemma DecodeRender(d: Date)
    ensures Decode(Render(d)) == Some(d)
  {
    var s := Render(d);
    Fields(s);
    SplitTwo(d.day);
    SplitTwo(d.month);
    SplitFour(d.year);
    assert DecimalValue(s[..2]) == d.day;
    assert DecimalValue(s[3..5]) == d.month;
    assert DecimalValue(s[6..]) == d.year;
  }

  /** Whatever decodes to a date is that date's rendering. */
  lemma RenderDecode(s: string, d: Date)
    requires Decode(s) == Some(d)
    ensures Render(d) == s
  {
    Fields(s);
    JoinTwo(DigitValue(s[0]), DigitValue(s[1]));
    JoinTwo(DigitValue(s[3]), DigitValue(s[4]));
    JoinFour(DigitValue(s[6]), DigitValue(s[7]), DigitValue(s[8]), DigitValue(s[9]));
    var r := Render(d);
    forall i | 0 <= i < 10
      ensures r[i] == s[i]
    {
      if i != 2 && i != 5 {
        assert DigitChar(DigitValue(s[i])) == s[i];
      }
    }
  }

  /** The canonical text of a date is exactly the text that decodes to it. */
  lemma CanonicalIff(s: string, d: Date)
    ensures Decode(s) == Some(d) <==> s == Render(d)
  {
    if Decode(s) == Some(d) {
      RenderDecode(s, d);
    }
    if s == Render(d) {
      DecodeRender(d);
    }
  }

  /** Rendering is injective: different days never share a canonical text. */
  lemma RenderInjective(d1: Date, d2: Date)
    ensures Render(d1) == Render(d2) <==> d1 == d2
  {
    DecodeRender(d1);
    DecodeRender(d2);
  }
}
