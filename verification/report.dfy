/** The run statistics main.py accumulates chunk by chunk: the row total, the
    converted and failed counters, and the first five changed rows and failed
    originals as examples for the report. */
module Report {
  import opened Values
  import opened Seqs

  const MaxExamples: nat := 5
  datatype Stats = Stats(
    total: nat,
    converted: nat,
    failed: nat,
    changed: seq<(Cell, string)>,
    errors: seq<Cell>)

  /** The statistics before the first chunk. */
  const Initial: Stats := Stats(0, 0, 0, [], [])

  /** An output cell holding a date rather than one of the two sentinels. */
  predicate IsConverted(out: string) {
    out != "" && out != InvalidText
  }

  /** Python's `orig != norm`: a non-string original never equals a string. */
  predicate Differs(orig: Cell, out: string) {
    orig != Str(out)
  }

  /** One iteration of the accumulation loop over `zip(dates, fixed)`. The
      total is untouched; converted + failed grows by one for every row not
      written as `''`; each example list keeps its entries and gains at most
      one, and never past five. */
  function Step(st: Stats, orig: Cell, out: string): (r: Stats)
    ensures r.total == st.total
    ensures r.converted + r.failed == st.converted + st.failed + (if out == "" then 0 else 1)
    ensures |st.changed| <= |r.changed| <= |st.changed| + 1 && r.changed[..|st.changed|] == st.changed
    ensures |st.errors| <= |r.errors| <= |st.errors| + 1 && r.errors[..|st.errors|] == st.errors
    ensures |st.changed| <= MaxExamples ==> |r.changed| <= MaxExamples
    ensures |st.errors| <= MaxExamples ==> |r.errors| <= MaxExamples
  {
    if IsConverted(out) then
      st.(converted := st.converted + 1,
          changed := if Differs(orig, out) && |st.changed| < MaxExamples
                     then st.changed + [(orig, out)] else st.changed)
    else if out == InvalidText then
      st.(failed := st.failed + 1,
          errors := if |st.errors| < MaxExamples then st.errors + [orig] else st.errors)
    else st
  }

  /** The accumulation loop over `rows`, in row order. The total is left
      alone, and the example lists never grow past five entries once they
      start within the cap. */
  function Fold(st: Stats, rows: seq<(Cell, string)>): (r: Stats)
    ensures r.total == st.total
    ensures |st.changed| <= MaxExamples ==> |r.changed| <= MaxExamples
    ensures |st.errors| <= MaxExamples ==> |r.errors| <= MaxExamples
  {
    if rows == [] then st
    else
      var last := rows[|rows| - 1];
      Step(Fold(st, rows[..|rows| - 1]), last.0, last.1)
  }

  /** main.py's per-chunk update: the total grows by the chunk's length, then
      every (original, output) pair is folded in. */
  method AccumulateChunk(st: Stats, dates: seq<Cell>, fixed: seq<string>) returns (r: Stats)
    ensures r == Fold(st.(total := st.total + |dates|), Zip(dates, fixed))
  {
    var rows := Zip(dates, fixed);
    r := st.(total := st.total + |dates|);
    var i := 0;
    while i < |rows|
      invariant 0 <= i <= |rows|
      invariant r == Fold(st.(total := st.total + |dates|), rows[..i])
    {
      assert rows[..i + 1][..i] == rows[..i];
      var (orig, out) := rows[i];
      r := Step(r, orig, out);
      i := i + 1;
    }
    assert rows[..i] == rows;
  }

  // Reference definitions: what the counters and lists mean, stated per row.

  function Converted(rows: seq<(Cell, string)>): nat {
    if rows == [] then 0
    else Converted(rows[..|rows| - 1]) + (if IsConverted(rows[|rows| - 1].1) then 1 else 0)
  }

  function Failed(rows: seq<(Cell, string)>): nat {
    if rows == [] then 0
    else Failed(rows[..|rows| - 1]) + (if rows[|rows| - 1].1 == InvalidText then 1 else 0)
  }

  function Empties(rows: seq<(Cell, string)>): nat {
    if rows == [] then 0
    else Empties(rows[..|rows| - 1]) + (if rows[|rows| - 1].1 == "" then 1 else 0)
  }

  /** All converted rows whose text changed, in row order. */
  function ChangedRows(rows: seq<(Cell, string)>): seq<(Cell, string)> {
    if rows == [] then []
    else
      var last := rows[|rows| - 1];
      ChangedRows(rows[..|rows| - 1])
        + (if IsConverted(last.1) && Differs(last.0, last.1) then [last] else [])
  }

  /** The originals of all failed rows, in row order. */
  function FailedOriginals(rows: seq<(Cell, string)>): seq<Cell> {
    if rows == [] then []
    else
      var last := rows[|rows| - 1];
      FailedOriginals(rows[..|rows| - 1]) + (if last.1 == InvalidText then [last.0] else [])
  }

  /** The first `MaxExamples` entries of `xs`. */
  function Cap<T>(xs: seq<T>): (r: seq<T>)
    ensures |r| <= MaxExamples && |r| <= |xs| && r == xs[..|r|]
    ensures |xs| <= MaxExamples ==> r == xs
    ensures |r| == if |xs| <= MaxExamples then |xs| else MaxExamples
  {
    if |xs| <= MaxExamples then xs else xs[..MaxExamples]
  }

  /** Every row is exactly one of converted, failed or empty. */
  lemma {:induction false} RowsPartition(rows: seq<(Cell, string)>)
    ensures Converted(rows) + Failed(rows) + Empties(rows) == |rows|
  {
    if rows != [] {
      RowsPartition(rows[..|rows| - 1]);
    }
  }

  /** The fold computes the reference: each counter grows by the number of
      rows of its kind, and each example list holds the first five
      qualifying rows of everything seen so far, in order. */
  lemma {:induction false} FoldIsReference(st: Stats, rows: seq<(Cell, string)>)
    requires |st.changed| <= MaxExamples && |st.errors| <= MaxExamples
    ensures Fold(st, rows) == Stats(
      st.total,
      st.converted + Converted(rows),
      st.failed + Failed(rows),
      Cap(st.changed + ChangedRows(rows)),
      Cap(st.errors + FailedOriginals(rows)))
  {
    if rows != [] {
      var init := rows[..|rows| - 1];
      FoldIsReference(st, init);
      assert st.changed + ChangedRows(rows)
          == (st.changed + ChangedRows(init))
             + ChangedRows(rows)[|ChangedRows(init)|..];
      assert st.errors + FailedOriginals(rows)
          == (st.errors + FailedOriginals(init))
             + FailedOriginals(rows)[|FailedOriginals(init)|..];
      CapSnoc(st.changed + ChangedRows(init), ChangedRows(rows)[|ChangedRows(init)|..]);
      CapSnoc(st.errors + FailedOriginals(init), FailedOriginals(rows)[|FailedOriginals(init)|..]);
    }
  }

  /** Appending at most one element to a list and capping it is appending to
      the capped list while there is room. */
  lemma CapSnoc<T>(xs: seq<T>, ys: seq<T>)
    requires |ys| <= 1
    ensures Cap(xs + ys) == if |Cap(xs)| < MaxExamples then Cap(xs) + ys else Cap(xs)
  {
    if |xs| >= MaxExamples {
      assert (xs + ys)[..MaxExamples] == xs[..MaxExamples];
    }
  }

  /** After any rows, converted + failed + (rows written as `''`) grows by
      exactly the number of rows. */
  lemma FoldCounterSum(st: Stats, rows: seq<(Cell, string)>)
    ensures Fold(st, rows).converted + Fold(st, rows).failed + Empties(rows)
         == st.converted + st.failed + |rows|
  {
    FoldCountsRows(st, rows);
    RowsPartition(rows);
  }

  lemma {:induction false} FoldCountsRows(st: Stats, rows: seq<(Cell, string)>)
    ensures Fold(st, rows).converted == st.converted + Converted(rows)
    ensures Fold(st, rows).failed == st.failed + Failed(rows)
  {
    if rows != [] {
      FoldCountsRows(st, rows[..|rows| - 1]);
    }
  }

  /** Folding two runs of rows one after the other is folding their
      concatenation, so for given cells the cut between chunks does not matter. */
  lemma {:induction false} FoldAppend(st: Stats, a: seq<(Cell, string)>, b: seq<(Cell, string)>)
    ensures Fold(st, a + b) == Fold(Fold(st, a), b)
  {
    if b == [] {
      assert a + b == a;
    } else {
      assert (a + b)[..|a + b| - 1] == a + b[..|b| - 1];
      FoldAppend(st, a, b[..|b| - 1]);
    }
  }

  /** The fold ignores the incoming total. */
  lemma {:induction false} FoldKeepsTotal(st: Stats, t: nat, rows: seq<(Cell, string)>)
    ensures Fold(st.(total := t), rows) == Fold(st, rows).(total := t)
  {
    if rows != [] {
      FoldKeepsTotal(st, t, rows[..|rows| - 1]);
    }
  }

  /** The example lists only grow at their end, and once one holds five
      entries it never changes again. */
  lemma ExamplesOnlyGrow(st: Stats, rows: seq<(Cell, string)>)
    requires |st.changed| <= MaxExamples && |st.errors| <= MaxExamples
    ensures |st.changed| <= |Fold(st, rows).changed|
    ensures Fold(st, rows).changed[..|st.changed|] == st.changed
    ensures |st.errors| <= |Fold(st, rows).errors|
    ensures Fold(st, rows).errors[..|st.errors|] == st.errors
    ensures |st.changed| == MaxExamples ==> Fold(st, rows).changed == st.changed
    ensures |st.errors| == MaxExamples ==> Fold(st, rows).errors == st.errors
  {
    FoldIsReference(st, rows);
    CapKeepsPrefix(st.changed, ChangedRows(rows));
    CapKeepsPrefix(st.errors, FailedOriginals(rows));
  }

  lemma CapKeepsPrefix<T>(xs: seq<T>, ys: seq<T>)
    requires |xs| <= MaxExamples
    ensures |xs| <= |Cap(xs + ys)| && Cap(xs + ys)[..|xs|] == xs
  {
    var c := Cap(xs + ys);
    assert c == (xs + ys)[..|c|];
  }

  /** Every changed example is a converted row whose text changed, and every
      error example is the original of a row written as `'Invalid'`. */
  lemma ExamplesQualify(rows: seq<(Cell, string)>)
    ensures forall e :: e in Fold(Initial, rows).changed ==>
      e in rows && IsConverted(e.1) && Differs(e.0, e.1)
    ensures forall o :: o in Fold(Initial, rows).errors ==> (o, InvalidText) in rows
  {
    FoldIsReference(Initial, rows);
    assert Initial.changed + ChangedRows(rows) == ChangedRows(rows);
    assert Initial.errors + FailedOriginals(rows) == FailedOriginals(rows);
    ChangedRowsQualify(rows);
    FailedOriginalsQualify(rows);
  }

  lemma {:induction false} ChangedRowsQualify(rows: seq<(Cell, string)>)
    ensures forall e :: e in ChangedRows(rows) ==> e in rows && IsConverted(e.1) && Differs(e.0, e.1)
  {
    if rows != [] {
      ChangedRowsQualify(rows[..|rows| - 1]);
      assert rows == rows[..|rows| - 1] + [rows[|rows| - 1]];
    }
  }

  lemma {:induction false} FailedOriginalsQualify(rows: seq<(Cell, string)>)
    ensures forall o :: o in FailedOriginals(rows) ==> (o, InvalidText) in rows
  {
    if rows != [] {
      FailedOriginalsQualify(rows[..|rows| - 1]);
      assert rows == rows[..|rows| - 1] + [rows[|rows| - 1]];
    }
  }
}
