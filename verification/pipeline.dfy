/** The chunk loop of `main`: the input column is read in chunks, each chunk is
    normalised by an order-preserving parallel map, fixed up, folded into the
    run statistics and appended to the output file, with the header written
    for the first chunk only. */
module Pipeline {
  import opened Values
  import opened Seqs
  import Normalizer
  import FixUp
  import Report

  /** Rows per chunk handed out by the CSV reader. */
  const ChunkSize: nat := 100000

  /** The CSV reader's chunking: consecutive runs of `ChunkSize` rows, the
      last one possibly shorter. A file with a header but no rows still
      yields one chunk, an empty one. */
  function Chunks<T>(rows: seq<T>): (r: seq<seq<T>>)
    ensures Flatten(r) == rows
    ensures |r| == if rows == [] then 1 else (|rows| + ChunkSize - 1) / ChunkSize
    ensures forall k :: 0 <= k < |r| ==> |r[k]| <= ChunkSize
    ensures rows != [] ==> forall k :: 0 <= k < |r| ==> 0 < |r[k]|
    ensures forall k :: 0 <= k < |r| - 1 ==> |r[k]| == ChunkSize
  {
    if rows == [] then
      var r: seq<seq<T>> := [[]];
      assert Flatten(r) == r[0] + Flatten(r[1..]);
      r
    else Batches(rows)
  }

  /** The full runs of `ChunkSize` rows and the shorter rest, none of them empty. */
  function Batches<T>(rows: seq<T>): (r: seq<seq<T>>)
    ensures Flatten(r) == rows
    ensures |r| == (|rows| + ChunkSize - 1) / ChunkSize
    ensures forall k :: 0 <= k < |r| ==> 0 < |r[k]| <= ChunkSize
    ensures forall k :: 0 <= k < |r| - 1 ==> |r[k]| == ChunkSize
    decreases |rows|
  {
    if rows == [] then []
    else if |rows| <= ChunkSize then
      assert Flatten([rows]) == rows + Flatten([rows][1..]);
      [rows]
    else
      var rest := Batches(rows[ChunkSize..]);
      assert ([rows[..ChunkSize]] + rest)[1..] == rest;
      assert rows == rows[..ChunkSize] + rows[ChunkSize..];
      [rows[..ChunkSize]] + rest
  }

  /** `pool.map(normalize_date, dates)`: results in input order. */
  function MapNormalize(parse: Normalizer.Parser, dates: seq<Cell>): (r: seq<Option<string>>)
    ensures |r| == |dates|
    ensures forall i :: 0 <= i < |r| ==> r[i] == Normalizer.NormalizeDate(parse, dates[i])
  {
    seq(|dates|, i requires 0 <= i < |dates| => Normalizer.NormalizeDate(parse, dates[i]))
  }

  /** The output column for `dates`: each row's fixed-up normalisation. It has
      one cell per row; a cell is `''` exactly for an empty original, and
      `'Invalid'` exactly for a non-empty original the normaliser rejects. */
  function Column(parse: Normalizer.Parser, dates: seq<Cell>): (r: seq<string>)
    ensures |r| == |dates|
    ensures forall i :: 0 <= i < |r| ==> (r[i] == "" <==> dates[i] == EmptyCell)
    ensures forall i :: 0 <= i < |r| ==>
      (r[i] == InvalidText <==> dates[i] != EmptyCell && Normalizer.NormalizeDate(parse, dates[i]).None?)
    ensures forall i :: 0 <= i < |r| && dates[i] != EmptyCell && Normalizer.NormalizeDate(parse, dates[i]).Some? ==>
      r[i] == Normalizer.NormalizeDate(parse, dates[i]).value
  {
    seq(|dates|, i requires 0 <= i < |dates|
                   => FixUp.FixRow(dates[i], Normalizer.NormalizeDate(parse, dates[i])))
  }

  /** The statistics of one pass over all rows as a single chunk. */
  function OnePass(parse: Normalizer.Parser, rows: seq<Cell>): Report.Stats {
    Report.Fold(Report.Initial.(total := |rows|), Zip(rows, Column(parse, rows)))
  }

  /** One append to the output file. */
  datatype Write = Write(header: bool, rows: seq<string>)

  function WrittenRows(writes: seq<Write>): (r: seq<string>) {
    if writes == [] then [] else WrittenRows(writes[..|writes| - 1]) + writes[|writes| - 1].rows
  }

  /** The body of the chunk loop for one chunk: normalise, fix up, update the
      statistics. The fixed column has one cell per row, in row order, the total
      grows by the chunk's length, and converted + failed + empty cells keep
      pace with it. */
  method ProcessChunk(parse: Normalizer.Parser, st: Report.Stats, dates: seq<Cell>)
    returns (st': Report.Stats, fixed: seq<string>)
    ensures fixed == Column(parse, dates)
    ensures st' == Report.Fold(st.(total := st.total + |dates|), Zip(dates, fixed))
    ensures st'.total == st.total + |dates|
    ensures st'.converted + st'.failed + Report.Empties(Zip(dates, fixed))
         == st.converted + st.failed + |dates|
  {
    var norms := MapNormalize(parse, dates);
    fixed := FixUp.FixUpChunk(dates, norms);
    st' := Report.AccumulateChunk(st, dates, fixed);
    Report.FoldCounterSum(st.(total := st.total + |dates|), Zip(dates, fixed));
  }

  /** The appends the chunk loop makes for `chunks`: one per chunk, in
      order, each the chunk's output column, the header flag raised for chunk
      index 0 only. */
  function ChunkWrites(parse: Normalizer.Parser, chunks: seq<seq<Cell>>): (ws: seq<Write>)
    ensures |ws| == |chunks|
    ensures forall k :: 0 <= k < |ws| ==> (ws[k].header <==> k == 0)
    ensures forall k :: 0 <= k < |ws| ==> |ws[k].rows| == |chunks[k]|
  {
    seq(|chunks|, k requires 0 <= k < |chunks| => Write(k == 0, Column(parse, chunks[k])))
  }

  /** Together the writes are the whole input's output column, in order. */
  lemma {:induction false} ChunkWritesCoverInput(parse: Normalizer.Parser, chunks: seq<seq<Cell>>)
    ensures WrittenRows(ChunkWrites(parse, chunks)) == Column(parse, Flatten(chunks))
  {
    if chunks != [] {
      var n := |chunks| - 1;
      var init := chunks[..n];
      ChunkWritesCoverInput(parse, init);
      var ws := ChunkWrites(parse, chunks);
      assert ws[..n] == ChunkWrites(parse, init) by {
        forall j | 0 <= j < n
          ensures ws[..n][j] == ChunkWrites(parse, init)[j]
        {
          assert init[j] == chunks[j];
        }
      }
      SeenStep(chunks, n);
      assert chunks[..n + 1] == chunks;
      ColumnAppend(parse, Flatten(init), chunks[n]);
    }
  }

  /** The chunk loop of `main` over already-read chunks. One write per chunk,
      the header only on the first; the written rows are the whole input's
      output column, and the statistics are those of a single pass over all
      rows: for a column whose cells are already read, the cut between chunks
      changes nothing. */
  method RunChunks(parse: Normalizer.Parser, chunks: seq<seq<Cell>>)
    returns (stats: Report.Stats, writes: seq<Write>)
    ensures writes == ChunkWrites(parse, chunks)
    ensures |writes| == |chunks|
    ensures forall k :: 0 <= k < |writes| ==> (writes[k].header <==> k == 0)
    ensures forall k :: 0 <= k < |writes| ==> writes[k].rows == Column(parse, chunks[k])
    ensures WrittenRows(writes) == Column(parse, Flatten(chunks))
    ensures stats == OnePass(parse, Flatten(chunks))
  {
    stats := Report.Initial;
    writes := [];
    var k := 0;
    assert chunks[..0] == [];
    while k < |chunks|
      invariant k <= |chunks|
      invariant writes == ChunkWrites(parse, chunks[..k])
      invariant stats == OnePass(parse, Flatten(chunks[..k]))
    {
      var st', fixed := ProcessChunk(parse, stats, chunks[k]);
      OnePassStep(parse, Flatten(chunks[..k]), chunks[k], stats, st');
      SeenStep(chunks, k);
      ChunkWritesSnoc(parse, chunks, k);
      writes := writes + [Write(k == 0, fixed)];
      stats := st';
      k := k + 1;
    }
    assert chunks[..k] == chunks;
    ChunkWritesCoverInput(parse, chunks);
  }

  lemma ChunkWritesSnoc(parse: Normalizer.Parser, chunks: seq<seq<Cell>>, k: nat)
    requires k < |chunks|
    ensures ChunkWrites(parse, chunks[..k + 1])
         == ChunkWrites(parse, chunks[..k]) + [Write(k == 0, Column(parse, chunks[k]))]
  {
    var a, b := ChunkWrites(parse, chunks[..k + 1]),
                ChunkWrites(parse, chunks[..k]) + [Write(k == 0, Column(parse, chunks[k]))];
    forall j | 0 <= j < k + 1
      ensures a[j] == b[j]
    {
      assert chunks[..k + 1][j] == chunks[j];
      if j < k {
        assert chunks[..k][j] == chunks[j];
      }
    }
  }

  lemma SeenStep<T>(chunks: seq<seq<T>>, k: nat)
    requires k < |chunks|
    ensures Flatten(chunks[..k + 1]) == Flatten(chunks[..k]) + chunks[k]
  {
    FlattenAppend(chunks[..k], [chunks[k]]);
    assert chunks[..k + 1] == chunks[..k] + [chunks[k]];
    assert Flatten([chunks[k]]) == chunks[k] + Flatten([chunks[k]][1..]);
  }

  lemma ColumnAppend(parse: Normalizer.Parser, a: seq<Cell>, b: seq<Cell>)
    ensures Column(parse, a + b) == Column(parse, a) + Column(parse, b)
  {
    var l, r := Column(parse, a + b), Column(parse, a) + Column(parse, b);
    assert |l| == |r|;
    forall i | 0 <= i < |l|
      ensures l[i] == r[i]
    {
      if i < |a| {
        assert (a + b)[i] == a[i];
      } else {
        assert (a + b)[i] == b[i - |a|];
      }
    }
  }

  lemma OnePassStep(parse: Normalizer.Parser, seen: seq<Cell>, chunk: seq<Cell>,
                    st: Report.Stats, st': Report.Stats)
    requires st == OnePass(parse, seen)
    requires st' == Report.Fold(st.(total := st.total + |chunk|), Zip(chunk, Column(parse, chunk)))
    ensures st' == OnePass(parse, seen + chunk)
    ensures Column(parse, seen + chunk) == Column(parse, seen) + Column(parse, chunk)
  {
    assert st.total == |seen|;
    ChunkStep(parse, seen, chunk);
  }

  /** Adding a chunk to the rows seen so far extends the output column by the
      chunk's column and advances the one-pass statistics by that chunk. */
  lemma ChunkStep(parse: Normalizer.Parser, seen: seq<Cell>, chunk: seq<Cell>)
    ensures Column(parse, seen + chunk) == Column(parse, seen) + Column(parse, chunk)
    ensures OnePass(parse, seen + chunk)
         == Report.Fold(OnePass(parse, seen).(total := |seen| + |chunk|),
                        Zip(chunk, Column(parse, chunk)))
  {
    var cs, cc := Column(parse, seen), Column(parse, chunk);
    ColumnAppend(parse, seen, chunk);
    ZipAppend(seen, cs, chunk, cc);
    var t := |seen| + |chunk|;
    var base := Report.Initial.(total := |seen|);
    var whole := Report.Initial.(total := t);
    assert whole == base.(total := t);
    calc {
      OnePass(parse, seen + chunk);
      Report.Fold(whole, Zip(seen + chunk, cs + cc));
      Report.Fold(whole, Zip(seen, cs) + Zip(chunk, cc));
      { Report.FoldAppend(whole, Zip(seen, cs), Zip(chunk, cc)); }
      Report.Fold(Report.Fold(whole, Zip(seen, cs)), Zip(chunk, cc));
      { Report.FoldKeepsTotal(base, t, Zip(seen, cs)); }
      Report.Fold(OnePass(parse, seen).(total := t), Zip(chunk, cc));
    }
  }

  /** `main` from the CSV reader on: chunk the input column by `ChunkSize`
      rows and run the chunk loop. The output has one row per input row, in
      order; there are as many writes as chunks, with one header; an input
      without rows still gets its header; and the total is the number of rows. */
  method NormalizeColumn(parse: Normalizer.Parser, rows: seq<Cell>)
    returns (stats: Report.Stats, writes: seq<Write>)
    ensures WrittenRows(writes) == Column(parse, rows)
    ensures |writes| == if rows == [] then 1 else (|rows| + ChunkSize - 1) / ChunkSize
    ensures forall k :: 0 <= k < |writes| ==> (writes[k].header <==> k == 0)
    ensures rows == [] ==> writes == [Write(true, [])]
    ensures stats == OnePass(parse, rows)
    ensures stats.total == |rows|
    ensures stats.total == stats.converted + stats.failed + Report.Empties(Zip(rows, Column(parse, rows)))
  {
    stats, writes := RunChunks(parse, Chunks(rows));
    Report.FoldCounterSum(Report.Initial.(total := |rows|), Zip(rows, Column(parse, rows)));
  }

  /** 250,000 rows read by 100,000 come in three chunks, so the output file
      receives three appends and one header. */
  lemma QuarterMillionRows(parse: Normalizer.Parser, rows: seq<Cell>)
    requires |rows| == 250000
    ensures |Chunks(rows)| == 3
    ensures OnePass(parse, rows).total == 250000
  {
  }

  /** The one-pass statistics are the reference counts and the first five
      qualifying rows of the whole input. */
  lemma OnePassIsReference(parse: Normalizer.Parser, rows: seq<Cell>)
    ensures var out := Zip(rows, Column(parse, rows));
      OnePass(parse, rows) == Report.Stats(
        |rows|,
        Report.Converted(out),
        Report.Failed(out),
        Report.Cap(Report.ChangedRows(out)),
        Report.Cap(Report.FailedOriginals(out)))
  {
    var out := Zip(rows, Column(parse, rows));
    Report.FoldIsReference(Report.Initial.(total := |rows|), out);
    assert [] + Report.ChangedRows(out) == Report.ChangedRows(out);
    assert [] + Report.FailedOriginals(out) == Report.FailedOriginals(out);
  }
}
