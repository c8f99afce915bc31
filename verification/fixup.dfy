/** The per-chunk fix-up of main.py: every (original, normaliser result) pair
    becomes one output cell, `''` for an empty original, `'Invalid'` for a
    failed normalisation and the normaliser's text otherwise. */
module FixUp {
  import opened Values
  import opened Calendar
  import DateText
  import Normalizer

  /** One iteration of the fix-up loop. Only an original that is exactly the
      empty string yields `''`; note that the normaliser also rejects
      whitespace-only strings, which therefore land on `'Invalid'`. */
  function FixRow(orig: Cell, norm: Option<string>): (r: string)
    ensures r == "" || r == InvalidText || (norm.Some? && r == norm.value)
    ensures orig == EmptyCell ==> r == ""
    ensures orig != EmptyCell && norm.None? ==> r == InvalidText
    ensures orig != EmptyCell && norm.Some? ==> r == norm.value
  {
    if orig == EmptyCell then ""
    else if norm.None? then InvalidText
    else norm.value
  }

  /** The fix-up loop over `zip(dates, normalized_dates)`: one output per
      pair, in order. */
  method FixUpChunk(dates: seq<Cell>, norms: seq<Option<string>>) returns (fixed: seq<string>)
    ensures |fixed| == if |dates| <= |norms| then |dates| else |norms|
    ensures forall i :: 0 <= i < |fixed| ==> fixed[i] == FixRow(dates[i], norms[i])
  {
    var n := if |dates| <= |norms| then |dates| else |norms|;
    fixed := [];
    var i := 0;
    while i < n
      invariant 0 <= i <= n
      invariant |fixed| == i
      invariant forall j :: 0 <= j < i ==> fixed[j] == FixRow(dates[j], norms[j])
    {
      var orig, norm := dates[i], norms[i];
      if orig == EmptyCell {
        fixed := fixed + [""];
      } else if norm.None? {
        fixed := fixed + [InvalidText];
      } else {
        fixed := fixed + [norm.value];
      }
      i := i + 1;
    }
  }

  /** The three kinds of output cell. */
  datatype Outcome = Empty | Invalid | Canonical(date: Date)

  /** The text an outcome is written as in the output column. */
  function Text(o: Outcome): string {
    match o
    case Empty => ""
    case Invalid => InvalidText
    case Canonical(d) => DateText.Render(d)
  }

  /** The output column loses nothing: distinct outcomes are written as
      distinct texts. */
  lemma TextInjective(o1: Outcome, o2: Outcome)
    ensures Text(o1) == Text(o2) <==> o1 == o2
  {
    if o1.Canonical? && o2.Canonical? {
      DateText.RenderInjective(o1.date, o2.date);
    }
  }

  /** What a row should become, read directly off the value and the parser:
      empty only for the empty string, a date when the value is a non-blank
      string the parser understands, invalid otherwise. */
  function RowOutcome(parse: Normalizer.Parser, v: Cell): Outcome {
    if v == EmptyCell then Empty
    else if v.NonStr? || Normalizer.IsBlank(v.s) then Invalid
    else if parse(v.s).None? then Invalid
    else Canonical(parse(v.s).value)
  }

  /** The fix-up of a row normalised by `normalize_date` writes exactly the
      text of that row's outcome. */
  lemma FixedRowIsOutcomeText(parse: Normalizer.Parser, v: Cell)
    ensures FixRow(v, Normalizer.NormalizeDate(parse, v)) == Text(RowOutcome(parse, v))
  {
  }

  /** How an output cell of the pipeline reads: `''` exactly for the empty
      original, `'Invalid'` exactly when the normaliser gave `None` for a
      non-empty original, and otherwise the normaliser's text verbatim, which
      is a canonical date. */
  lemma FixedRowClassification(parse: Normalizer.Parser, v: Cell)
    ensures var out := FixRow(v, Normalizer.NormalizeDate(parse, v));
      && (out == "" <==> v == EmptyCell)
      && (out == InvalidText <==> v != EmptyCell && Normalizer.NormalizeDate(parse, v).None?)
      && (out != "" && out != InvalidText ==>
            Normalizer.NormalizeDate(parse, v) == Some(out) && DateText.Decode(out).Some?)
  {
  }

  /** The quirk of the fix-up: a non-empty original made only of whitespace is
      not treated as empty, and neither is a non-string value; both are written
      as `'Invalid'` whatever the parser does. */
  lemma BlankOrNonStringRowIsInvalid(parse: Normalizer.Parser, v: Cell)
    requires v != EmptyCell
    requires v.NonStr? || Normalizer.IsBlank(v.s)
    ensures FixRow(v, Normalizer.NormalizeDate(parse, v)) == InvalidText
    ensures RowOutcome(parse, v) == Invalid
  {
  }
}
