/** `normalize_date` (main.py, copied verbatim into test_normalize.py): a guard
    that rejects non-strings and blank strings, one call to a date parser, and
    the `DD-MM-YYYY` rendering of what it returns. */
module Normalizer {
  import opened Values
  import opened Calendar
  import DateText

  /** The date parser, configured for Russian text, day-month-year order and
      a 1900-01-01 anchor, as the repository calls it. Its grammar belongs to
      an external library, so the model takes it as a parameter. */
  type Parser = string -> Option<Date>

  /** Python's `str.isspace` for one character: the Unicode whitespace
      characters, which include the ASCII blanks and the information
      separators but not the zero-width space, and no digit or date
      punctuation. */
  predicate IsSpace(c: char): (b: bool)
    ensures c == ' ' || c == '\t' || c == '\n' || c == '\r' || c == '\U{A0}' ==> b
    ensures c == '\U{200B}' || '0' <= c <= '9' || c == '.' || c == '-' ==> !b
  {
    || '\U{9}' <= c <= '\U{D}'
    || '\U{1C}' <= c <= '\U{20}'
    || c == '\U{85}' || c == '\U{A0}' || c == '\U{1680}'
    || '\U{2000}' <= c <= '\U{200A}'
    || c == '\U{2028}' || c == '\U{2029}' || c == '\U{202F}'
    || c == '\U{205F}' || c == '\U{3000}'
  }

  predicate IsBlank(s: string) {
    forall i :: 0 <= i < |s| ==> IsSpace(s[i])
  }

  /** Index of the first non-whitespace character of `s` at or after `i`,
      or `|s|` when there is none. */
  function SkipSpaces(s: string, i: nat): (k: nat)
    requires i <= |s|
    ensures i <= k <= |s|
    ensures forall j :: i <= j < k ==> IsSpace(s[j])
    ensures k == |s| || !IsSpace(s[k])
    decreases |s| - i
  {
    if i == |s| || !IsSpace(s[i]) then i else SkipSpaces(s, i + 1)
  }

  /** End of `s[..j]` once its trailing whitespace is dropped. */
  function SkipSpacesBack(s: string, j: nat): (k: nat)
    requires j <= |s|
    ensures k <= j
    ensures forall i :: k <= i < j ==> IsSpace(s[i])
    ensures k == 0 || !IsSpace(s[k - 1])
  {
    if j == 0 || !IsSpace(s[j - 1]) then j else SkipSpacesBack(s, j - 1)
  }

  /** `s.lstrip()`. */
  function TrimStart(s: string): (r: string) {
    s[SkipSpaces(s, 0)..]
  }

  /** `s.rstrip()`. */
  function TrimEnd(s: string): (r: string) {
    s[..SkipSpacesBack(s, |s|)]
  }

  /** `s.strip()`. It is empty exactly when every character of `s` is
      whitespace; otherwise it starts and ends with a non-space. */
  function Strip(s: string): (r: string)
    ensures r == [] <==> IsBlank(s)
    ensures r != [] ==> !IsSpace(r[0]) && !IsSpace(r[|r| - 1])
    ensures exists a, b :: 0 <= a <= b <= |s| && r == s[a..b] && IsBlank(s[..a]) && IsBlank(s[b..])
  {
    var a := SkipSpaces(s, 0);
    var t := TrimStart(s);
    var r := TrimEnd(t);
    var b := a + SkipSpacesBack(t, |t|);
    assert t != [] ==> t[0] == s[a];
    assert r == s[a..b];
    assert IsBlank(s[..a]);
    assert IsBlank(s[b..]) by {
      forall i | 0 <= i < |s| - b
        ensures IsSpace(s[b..][i])
      {
        assert s[b..][i] == t[b - a + i];
      }
    }
    r
  }

  /** `normalize_date(value)`. Non-strings and blank strings are rejected
      before the parser is consulted; otherwise the parser's date is rendered
      as `DD-MM-YYYY`, and a failed parse gives `None`. */
  function NormalizeDate(parse: Parser, v: Cell): (r: Option<string>)
    ensures v.NonStr? ==> r == None
    ensures v.Str? && IsBlank(v.s) ==> r == None
    ensures v.Str? && !IsBlank(v.s) ==> (r.None? <==> parse(v.s).None?)
    ensures r.Some? ==> v.Str? && DateText.Decode(r.value) == parse(v.s)
    ensures r.Some? ==> |r.value| == 10 && r.value[2] == '-' && r.value[5] == '-'
  {
    match v
    case NonStr(_) => None
    case Str(s) =>
      if Strip(s) == [] then None
      else
        match parse(s)
        case None => None
        case Some(d) =>
          DateText.DecodeRender(d);
          Some(DateText.Render(d))
  }

  /** The guard decides alone: for a non-string or blank value, every parser
      gives the same answer, `None`. */
  lemma GuardIgnoresParser(p1: Parser, p2: Parser, v: Cell)
    requires v.NonStr? || IsBlank(v.s)
    ensures NormalizeDate(p1, v) == NormalizeDate(p2, v) == None
  {
  }

  /** A successful normalisation is the canonical text of the parser's date,
      and of no other date. */
  lemma NormalizedIsCanonical(parse: Parser, v: Cell, d: Date)
    requires NormalizeDate(parse, v).Some?
    ensures NormalizeDate(parse, v).value == DateText.Render(d) <==> parse(v.s) == Some(d)
  {
    DateText.CanonicalIff(NormalizeDate(parse, v).value, d);
  }
}
