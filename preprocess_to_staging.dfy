/**
 * The staging stage (src/preprocess_to_staging.py): download the raw text
 * object, split it into lines, keep the stripped non-blank lines, drop
 * repeated lines keeping the first occurrence, empty the `texts` table and
 * insert the lines in batches of 1000, committing after each batch.
 *
 * The MySQL server is the StagingTable class below; whether a statement
 * succeeds is decided by the server and the network, so it is a parameter.
 */
module PreprocessToStaging {
  import opened Wrappers
  import opened Text
  import opened Batching
  import opened ObjectStorage

  // ---- Order-preserving deduplication ----

  predicate NoDuplicates<T(==,!new)>(s: seq<T>)
  {
    forall i, j :: 0 <= i < j < |s| ==> s[i] != s[j]
  }

  /** The lines the dedup loop keeps: a line is appended unless an equal
      line was met earlier. */
  function Dedup<T(==,!new)>(xs: seq<T>): (unique: seq<T>)
    ensures NoDuplicates(unique)
    ensures forall x :: x in unique <==> x in xs
    ensures |unique| <= |xs|
  {
    if xs == [] then []
    else
      var init, last := xs[..|xs| - 1], xs[|xs| - 1];
      assert xs == init + [last];
      var d := Dedup(init);
      if last in d then d else d + [last]
  }

  /** The dedup loop: a `seen` set beside the growing list of unique lines. */
  method DedupLines<T(==,!new)>(lines: seq<T>) returns (unique: seq<T>)
    ensures unique == Dedup(lines)
  {
    var seen: set<T> := {};
    unique := [];
    for i := 0 to |lines|
      invariant unique == Dedup(lines[..i])
      invariant seen == set x | x in unique
    {
      assert lines[..i + 1][..i] == lines[..i];
      if lines[i] !in seen {
        seen := seen + {lines[i]};
        unique := unique + [lines[i]];
      }
    }
    assert lines[..|lines|] == lines;
  }

  /** `idx` places the elements of `a` at increasing positions of `b`:
      `a` is a subsequence of `b`. */
  predicate Embedding<T(==)>(a: seq<T>, b: seq<T>, idx: seq<nat>)
  {
    && |idx| == |a|
    && (forall k :: 0 <= k < |idx| ==> idx[k] < |b| && a[k] == b[idx[k]])
    && (forall k :: 0 < k < |idx| ==> idx[k - 1] < idx[k])
  }

  /** The unique lines are a subsequence of the cleaned lines in which every
      line sits at its first occurrence. */
  lemma {:induction false} DedupFirstOccurrences<T(!new)>(xs: seq<T>) returns (idx: seq<nat>)
    ensures Embedding(Dedup(xs), xs, idx)
    ensures forall k, j :: 0 <= k < |idx| && 0 <= j < idx[k] ==> xs[j] != Dedup(xs)[k]
  {
    if xs == [] {
      idx := [];
    } else {
      var init, last := xs[..|xs| - 1], xs[|xs| - 1];
      var d := Dedup(init);
      var prev := DedupFirstOccurrences(init);
      assert forall j :: 0 <= j < |init| ==> xs[j] == init[j];
      if last in d {
        assert Dedup(xs) == d;
        idx := prev;
      } else {
        assert Dedup(xs) == d + [last];
        idx := prev + [|xs| - 1];
        assert last !in init;
        forall k | 0 <= k < |idx|
          ensures idx[k] < |xs| && Dedup(xs)[k] == xs[idx[k]]
          ensures forall j :: 0 <= j < idx[k] ==> xs[j] != Dedup(xs)[k]
        {
          if k == |prev| {
            assert Dedup(xs)[k] == last;
            assert forall j :: 0 <= j < |init| ==> init[j] != last;
          } else {
            assert idx[k] == prev[k] && Dedup(xs)[k] == d[k];
          }
        }
      }
    }
  }

  /** A list without repeated lines is left as it is. */
  lemma {:induction false} DedupOfDistinct<T(!new)>(xs: seq<T>)
    requires NoDuplicates(xs)
    ensures Dedup(xs) == xs
  {
    if xs != [] {
      var init, last := xs[..|xs| - 1], xs[|xs| - 1];
      assert NoDuplicates(init) by {
        forall i, j | 0 <= i < j < |init|
          ensures init[i] != init[j]
        {
          assert init[i] == xs[i] && init[j] == xs[j];
        }
      }
      DedupOfDistinct(init);
      assert last !in init by {
        forall i | 0 <= i < |init|
          ensures init[i] != last
        {
          assert init[i] == xs[i];
        }
      }
      assert init + [last] == xs;
    }
  }

  /** Running the dedup loop on its own output changes nothing. */
  lemma DedupIdempotent<T(!new)>(xs: seq<T>)
    ensures Dedup(Dedup(xs)) == Dedup(xs)
  {
    DedupOfDistinct(Dedup(xs));
  }

  lemma DedupExample()
    ensures Dedup(["b", "a", "b", "c"]) == ["b", "a", "c"]
  {
    var xs := ["b", "a", "b", "c"];
    assert xs[..3] == ["b", "a", "b"] && xs[..3][..2] == ["b", "a"] && xs[..3][..2][..1] == ["b"];
    assert ["b"][..0] == [];
  }

  // ---- Cleaning ----

  /** The lines the stage loads: split on line feeds, stripped, non-blank,
      first occurrences only. */
  function StagedLines(raw: string): (lines: seq<string>)
    ensures NoDuplicates(lines)
  {
    Dedup(StripNonBlank(SplitLines(raw)))
  }

  // ---- The `texts` table ----

  /** A row of `texts`: its AUTO_INCREMENT id and its text. */
  datatype StagedRow = StagedRow(id: nat, text: string)

  /** The rows an insert of `texts` adds when the next id is `first`. */
  function NumberRows(texts: seq<string>, first: nat): seq<StagedRow>
  {
    seq(|texts|, k requires 0 <= k < |texts| => StagedRow(first + k, texts[k]))
  }

  /** SELECT text FROM texts, in insertion order. */
  function TextColumn(rows: seq<StagedRow>): seq<string>
  {
    seq(|rows|, k requires 0 <= k < |rows| => rows[k].text)
  }

  /** Ids increase along the table and stay below the next id to hand out. */
  ghost predicate IdsAscending(rows: seq<StagedRow>, nextId: nat)
  {
    && (forall k :: 0 <= k < |rows| ==> rows[k].id < nextId)
    && (forall k :: 0 < k < |rows| ==> rows[k - 1].id < rows[k].id)
  }

  class StagingTable {
    var rows: seq<StagedRow>
    var nextId: nat

    ghost predicate Valid()
      reads this
    {
      nextId >= 1 && IdsAscending(rows, nextId)
    }

    /** CREATE TABLE on a database where `texts` does not exist yet. */
    constructor ()
      ensures Valid() && rows == [] && nextId == 1
    {
      rows := [];
      nextId := 1;
    }

    /** TRUNCATE TABLE: every row goes and AUTO_INCREMENT starts again at 1;
        a failed truncate leaves the table as it was. */
    method Truncate(succeeds: bool) returns (ok: bool)
      requires Valid()
      modifies this
      ensures Valid() && ok == succeeds
      ensures ok ==> rows == [] && nextId == 1
      ensures !ok ==> rows == old(rows) && nextId == old(nextId)
    {
      ok := succeeds;
      if ok {
        rows := [];
        nextId := 1;
      }
    }

    /** executemany of one batch followed by commit, or rollback when the
        statement fails. Ids handed out to a rolled-back statement are not
        given back, so the next id only moves forward. */
    method InsertBatch(texts: seq<string>, succeeds: bool) returns (ok: bool)
      requires Valid()
      modifies this
      ensures Valid() && ok == succeeds
      ensures ok ==> rows == old(rows) + NumberRows(texts, old(nextId)) && nextId == old(nextId) + |texts|
      ensures !ok ==> rows == old(rows) && nextId >= old(nextId)
    {
      ok := succeeds;
      if ok {
        rows := rows + NumberRows(texts, nextId);
      }
      nextId := nextId + |texts|;
    }
  }

  lemma TextColumnAppend(rows: seq<StagedRow>, texts: seq<string>, first: nat)
    ensures TextColumn(rows + NumberRows(texts, first)) == TextColumn(rows) + texts
  {
  }

  /** Numbering a list in two parts: the second part's ids continue where
      the first part's stop. */
  lemma NumberRowsSplit(lines: seq<string>, i: nat, end: nat, first: nat)
    requires i <= end <= |lines|
    ensures NumberRows(lines[..i], first) + NumberRows(lines[i..end], first + i) == NumberRows(lines[..end], first)
  {
    var a, b, c := NumberRows(lines[..i], first), NumberRows(lines[i..end], first + i), NumberRows(lines[..end], first);
    assert |a + b| == |c|;
    forall k | 0 <= k < |c|
      ensures (a + b)[k] == c[k]
    {
      if k >= i {
        assert (a + b)[k] == b[k - i];
      }
    }
  }

  /** After a committed batch the table holds the rows it had before the
      load and the lines up to the end of that batch. */
  lemma CommittedBatch(before: seq<StagedRow>, rows: seq<StagedRow>, first: nat, lines: seq<string>, i: nat, end: nat)
    requires i <= end <= |lines|
    requires |before| <= |rows| && rows[..|before|] == before
    requires TextColumn(rows) == TextColumn(before) + lines[..i]
    ensures var after := rows + NumberRows(lines[i..end], first);
      && |before| <= |after| && after[..|before|] == before
      && TextColumn(after) == TextColumn(before) + lines[..end]
  {
    TextColumnAppend(rows, lines[i..end], first);
    assert lines[..end] == lines[..i] + lines[i..end];
  }

  /** Ascending ids are distinct ids: no two rows share a primary key. */
  lemma {:induction false} IdsDistinct(rows: seq<StagedRow>, nextId: nat)
    requires IdsAscending(rows, nextId)
    ensures forall i, j :: 0 <= i < j < |rows| ==> rows[i].id < rows[j].id
  {
    if rows != [] {
      var init := rows[..|rows| - 1];
      assert IdsAscending(init, rows[|rows| - 1].id) by {
        forall k | 0 <= k < |init|
          ensures init[k].id < rows[|rows| - 1].id
        {
          IdsBelowLast(rows, k);
        }
      }
      IdsDistinct(init, rows[|rows| - 1].id);
    }
  }

  lemma {:induction false} IdsBelowLast(rows: seq<StagedRow>, k: nat)
    requires forall i :: 0 < i < |rows| ==> rows[i - 1].id < rows[i].id
    requires k < |rows| - 1
    ensures rows[k].id < rows[|rows| - 1].id
    decreases |rows| - k
  {
    if k + 1 < |rows| - 1 {
      IdsBelowLast(rows, k + 1);
    }
  }

  // ---- The batched load ----

  const InsertBatchSize: nat := 1000

  datatype LoadResult = Loaded(total: nat) | BatchFailed(batch: nat)

  /** Where the insert loop stands: `i` lines in `done` batches are
      committed on top of the rows the table had before the load. */
  ghost predicate Loading(lines: seq<string>, i: nat, done: seq<seq<string>>, before: seq<StagedRow>, rows: seq<StagedRow>)
  {
    && i <= |lines|
    && (i == |lines| || i == |done| * InsertBatchSize)
    && Batches(lines, InsertBatchSize) == done + Batches(lines[i..], InsertBatchSize)
    && Flatten(done) == lines[..i]
    && |before| <= |rows| && rows[..|before|] == before
    && TextColumn(rows) == TextColumn(before) + lines[..i]
  }

  /** One turn of the insert loop: the batch it inserts is the next slice. */
  lemma NextBatch<T>(lines: seq<T>, i: nat, end: nat, done: seq<seq<T>>)
    requires i < |lines| && end == if i + InsertBatchSize < |lines| then i + InsertBatchSize else |lines|
    requires Batches(lines, InsertBatchSize) == done + Batches(lines[i..], InsertBatchSize)
    ensures |done| < |Batches(lines, InsertBatchSize)|
    ensures Batches(lines, InsertBatchSize) == (done + [lines[i..end]]) + Batches(lines[end..], InsertBatchSize)
  {
    BatchesFrom(lines, i, end, InsertBatchSize);
    AppendAssoc(done, [lines[i..end]], Batches(lines[end..], InsertBatchSize));
  }

  /** ... and the batches done so far cover the lines before the next one. */
  lemma NextPrefix<T>(lines: seq<T>, i: nat, end: nat, done: seq<seq<T>>)
    requires i <= end <= |lines| && Flatten(done) == lines[..i]
    ensures Flatten(done + [lines[i..end]]) == lines[..end]
  {
    FlattenAppend(done, [lines[i..end]]);
    assert Flatten([lines[i..end]]) == lines[i..end] + Flatten<T>([]);
    assert lines[..end] == lines[..i] + lines[i..end];
  }

  /** A committed batch moves the loop on by one slice. */
  lemma LoadingStep(lines: seq<string>, i: nat, end: nat, done: seq<seq<string>>,
                    before: seq<StagedRow>, rows: seq<StagedRow>, first: nat)
    requires Loading(lines, i, done, before, rows)
    requires i < |lines| && end == if i + InsertBatchSize < |lines| then i + InsertBatchSize else |lines|
    ensures Loading(lines, end, done + [lines[i..end]], before, rows + NumberRows(lines[i..end], first))
  {
    NextBatch(lines, i, end, done);
    NextPrefix(lines, i, end, done);
    CommittedBatch(before, rows, first, lines, i, end);
  }

  /** When batch |done| fails, exactly the batches before it are in. */
  lemma LoadingStopped(lines: seq<string>, i: nat, done: seq<seq<string>>, before: seq<StagedRow>, rows: seq<StagedRow>)
    requires Loading(lines, i, done, before, rows) && i < |lines|
    ensures var bs := Batches(lines, InsertBatchSize);
      && |done| < |bs| && |done| * InsertBatchSize < |lines|
      && TextColumn(rows) == TextColumn(before) + Flatten(bs[..|done|])
      && TextColumn(rows) == TextColumn(before) + lines[..|done| * InsertBatchSize]
  {
    var bs := Batches(lines, InsertBatchSize);
    assert lines[i..] != [];
    assert bs[..|done|] == done;
  }

  /** When every batch went in, all lines are in. */
  lemma LoadingFinished(lines: seq<string>, i: nat, done: seq<seq<string>>, before: seq<StagedRow>, rows: seq<StagedRow>)
    requires Loading(lines, i, done, before, rows) && i >= |lines|
    ensures |done| == |Batches(lines, InsertBatchSize)|
    ensures TextColumn(rows) == TextColumn(before) + lines
  {
    assert lines[i..] == [] && lines[..i] == lines;
  }

  /** The insert loop: one batch per i in range(0, len(lines), 1000),
      committed before the next is tried; the first failing batch is rolled
      back and ends the load. `fails(k)` says whether batch k's statement
      fails. */
  method LoadBatches(table: StagingTable, lines: seq<string>, fails: nat -> bool) returns (r: LoadResult)
    requires table.Valid()
    modifies table
    ensures table.Valid()
    ensures |old(table.rows)| <= |table.rows| && table.rows[..|old(table.rows)|] == old(table.rows)
    ensures var bs := Batches(lines, InsertBatchSize);
      match r
      case Loaded(total) =>
        && total == |lines|
        && (forall k :: 0 <= k < |bs| ==> !fails(k))
        && TextColumn(table.rows) == TextColumn(old(table.rows)) + lines
        && table.rows == old(table.rows) + NumberRows(lines, old(table.nextId))
        && table.nextId == old(table.nextId) + |lines|
      case BatchFailed(k) =>
        && k < |bs| && fails(k) && (forall j :: 0 <= j < k ==> !fails(j))
        && k * InsertBatchSize < |lines|
        && TextColumn(table.rows) == TextColumn(old(table.rows)) + Flatten(bs[..k])
        && TextColumn(table.rows) == TextColumn(old(table.rows)) + lines[..k * InsertBatchSize]
        && table.rows == old(table.rows) + NumberRows(lines[..k * InsertBatchSize], old(table.nextId))
        && table.nextId >= old(table.nextId) + k * InsertBatchSize
  {
    ghost var before, idStart := table.rows, table.nextId;
    ghost var done: seq<seq<string>> := [];
    var i, k, total := 0, 0, 0;
    assert Loading(lines, i, done, before, table.rows);
    assert before + NumberRows(lines[..0], idStart) == before;
    while i < |lines|
      invariant table.Valid() && k == |done| && total == i
      invariant Loading(lines, i, done, before, table.rows)
      invariant table.rows == before + NumberRows(lines[..i], idStart) && table.nextId == idStart + i
      invariant forall j :: 0 <= j < k ==> !fails(j)
      decreases |lines| - i
    {
      var end := if i + InsertBatchSize < |lines| then i + InsertBatchSize else |lines|;
      var batch := lines[i..end];
      ghost var rowsBefore, idBefore := table.rows, table.nextId;
      var ok := table.InsertBatch(batch, !fails(k));
      if !ok {
        LoadingStopped(lines, i, done, before, table.rows);
        assert i == k * InsertBatchSize;
        return BatchFailed(k);
      }
      LoadingStep(lines, i, end, done, before, rowsBefore, idBefore);
      NumberRowsSplit(lines, i, end, idStart);
      AppendAssoc(before, NumberRows(lines[..i], idStart), NumberRows(batch, idBefore));
      done := done + [batch];
      i, k, total := end, k + 1, total + |batch|;
    }
    LoadingFinished(lines, i, done, before, table.rows);
    assert lines[..i] == lines;
    return Loaded(total);
  }

  // ---- The stage ----

  datatype StagingResult = DownloadFailed | DatabaseUnavailable | InsertFailed(batch: nat) | Staged(count: nat)

  /** preprocess_to_staging: download, clean, dedup, then (once connected
      and the table exists) truncate and load. A failed truncate is only a
      warning, so the lines go on top of the old rows; a failed batch ends
      the stage with the earlier batches committed. `connects` says whether
      connecting and CREATE TABLE IF NOT EXISTS succeed, `truncates` whether
      TRUNCATE does, `fails(k)` whether batch k's insert does not. */
  method PreprocessToStaging(store: ObjectStore, bucket: string, inputFile: string, table: StagingTable,
                             connects: bool, truncates: bool, fails: nat -> bool)
    returns (r: StagingResult)
    requires table.Valid()
    modifies table
    ensures table.Valid()
    ensures r.DownloadFailed? <==> ObjectKey(bucket, inputFile) !in store.objects
    ensures r.DatabaseUnavailable? <==> ObjectKey(bucket, inputFile) in store.objects && !connects
    ensures r.DownloadFailed? || r.DatabaseUnavailable? ==>
              table.rows == old(table.rows) && table.nextId == old(table.nextId)
    ensures ObjectKey(bucket, inputFile) in store.objects && connects ==>
      var lines := StagedLines(store.objects[ObjectKey(bucket, inputFile)]);
      var kept := if truncates then [] else TextColumn(old(table.rows));
      var keptRows := if truncates then [] else old(table.rows);
      var first := if truncates then 1 else old(table.nextId);
      match r
      case Staged(count) =>
        && count == |lines| && TextColumn(table.rows) == kept + lines
        && table.rows == keptRows + NumberRows(lines, first)
      case InsertFailed(k) =>
        && k < |Batches(lines, InsertBatchSize)| && fails(k) && (forall j :: 0 <= j < k ==> !fails(j))
        && k * InsertBatchSize < |lines|
        && TextColumn(table.rows) == kept + lines[..k * InsertBatchSize]
        && table.rows == keptRows + NumberRows(lines[..k * InsertBatchSize], first)
      case _ => false
  {
    var body := store.Get(ObjectKey(bucket, inputFile));
    if body.None? {
      return DownloadFailed;
    }
    var lines := SplitLines(body.value);
    var cleaned := StripNonBlank(lines);
    var unique := DedupLines(cleaned);
    if !connects {
      return DatabaseUnavailable;
    }
    var truncated := table.Truncate(truncates);
    var load := LoadBatches(table, unique, fails);
    match load {
      case Loaded(total) => r := Staged(total);
      case BatchFailed(k) => r := InsertFailed(k);
    }
  }

  // ---- Properties of the cleaned lines ----

  /** Every staged line is non-empty and equal to its own strip. */
  lemma StagedLinesClean(raw: string)
    ensures AllClean(StagedLines(raw))
  {
    var cleaned := StripNonBlank(SplitLines(raw));
    StripNonBlankClean(SplitLines(raw));
    var lines := StagedLines(raw);
    forall k | 0 <= k < |lines|
      ensures lines[k] != "" && IsStripped(lines[k])
    {
      assert lines[k] in cleaned;
      var j :| 0 <= j < |cleaned| && cleaned[j] == lines[k];
    }
  }

  /** A line is staged exactly when it is the non-blank strip of some piece
      of the raw text between line feeds. */
  lemma StagedLinesMembers(raw: string, t: string)
    ensures t in StagedLines(raw) <==>
            t != "" && exists k :: 0 <= k < |SplitLines(raw)| && Strip(SplitLines(raw)[k]) == t
  {
    var pieces := SplitLines(raw);
    var cleaned := StripNonBlank(pieces);
    assert t in StagedLines(raw) <==> t in cleaned;
    StripNonBlankMembers(pieces, t);
    if t in cleaned {
      var k :| 0 <= k < |pieces| && Strip(pieces[k]) == t;
      assert Strip(SplitLines(raw)[k]) == t;
    }
  }
}
