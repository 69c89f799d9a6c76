/**
 * The curated stage (src/process_to_curated.py): read the staged rows,
 * tokenize each text, build one document per row that tokenized, and write
 * the documents to a MongoDB collection that was emptied first, through a
 * buffer that is flushed with insert_many whenever it holds batch_size
 * documents, plus one final flush of whatever is left.
 *
 * The tokenizer and the clock are parameters: `tokenize(text)` is None when
 * the tokenizer raises on that text, and `now(j)` is the timestamp read
 * while building the document of the j-th row.
 */
module ProcessToCurated {
  import opened Wrappers
  import opened Batching
  import opened PreprocessToStaging

  datatype Metadata = Metadata(source: string, processedAt: string, tokenizer: string, tokenCount: nat)
  datatype Document = Document(id: nat, text: string, tokens: seq<int>, metadata: Metadata)

  const Source: string := "mysql"

  /** What every document promises about its own fields. */
  predicate WellFormed(d: Document, model: string)
  {
    && d.metadata.tokenCount == |d.tokens|
    && d.metadata.source == Source
    && d.metadata.tokenizer == model
  }

  /** The document built for one row and its tokens. */
  function MakeDocument(row: StagedRow, tokens: seq<int>, model: string, at: string): (d: Document)
    ensures WellFormed(d, model)
    ensures d.id == row.id && d.text == row.text && d.tokens == tokens
  {
    Document(row.id, row.text, tokens, Metadata(Source, at, model, |tokens|))
  }

  /** The documents the loop builds from the rows, in cursor order; a row
      whose tokenization raises is skipped. */
  function Documents(rows: seq<StagedRow>, tokenize: string -> Option<seq<int>>, model: string,
                     now: nat -> string): (docs: seq<Document>)
    ensures |docs| <= |rows|
  {
    if rows == [] then []
    else
      var n := |rows| - 1;
      var init := Documents(rows[..n], tokenize, model, now);
      match tokenize(rows[n].text)
      case None => init
      case Some(tokens) => init + [MakeDocument(rows[n], tokens, model, now(n))]
  }

  /** Every built document is well formed. */
  lemma {:induction false} DocumentsWellFormed(rows: seq<StagedRow>, tokenize: string -> Option<seq<int>>, model: string,
                                               now: nat -> string)
    ensures forall k :: 0 <= k < |Documents(rows, tokenize, model, now)| ==>
                          WellFormed(Documents(rows, tokenize, model, now)[k], model)
  {
    if rows != [] {
      var n := |rows| - 1;
      var init := Documents(rows[..n], tokenize, model, now);
      DocumentsWellFormed(rows[..n], tokenize, model, now);
      var docs := Documents(rows, tokenize, model, now);
      if tokenize(rows[n].text).Some? {
        var d := MakeDocument(rows[n], tokenize(rows[n].text).value, model, now(n));
        assert docs == init + [d];
        forall k | 0 <= k < |docs|
          ensures WellFormed(docs[k], model)
        {
          if k < |init| {
            assert docs[k] == init[k];
          } else {
            assert docs[k] == d;
          }
        }
      } else {
        assert docs == init;
      }
    }
  }

  /** One more row: its document is appended when it tokenizes, and
      nothing changes otherwise. */
  lemma DocumentsStep(rows: seq<StagedRow>, j: nat, tokenize: string -> Option<seq<int>>, model: string,
                      now: nat -> string)
    requires j < |rows|
    ensures var built := Documents(rows[..j], tokenize, model, now);
      Documents(rows[..j + 1], tokenize, model, now) ==
        if tokenize(rows[j].text).None? then built
        else built + [MakeDocument(rows[j], tokenize(rows[j].text).value, model, now(j))]
  {
    assert rows[..j + 1][..j] == rows[..j];
  }

  /** The number of rows the tokenizer accepts. */
  function Tokenized(rows: seq<StagedRow>, tokenize: string -> Option<seq<int>>): nat
  {
    if rows == [] then 0
    else (if tokenize(rows[0].text).Some? then 1 else 0) + Tokenized(rows[1..], tokenize)
  }

  /** The effective flush threshold: `len(batch) >= batch_size` holds after
      every append once batch_size is 1 or less. */
  function FlushSize(batchSize: int): nat
  {
    if batchSize < 1 then 1 else batchSize
  }

  // ---- Properties of the built documents ----

  lemma {:induction false} TokenizedAppend(a: seq<StagedRow>, b: seq<StagedRow>, tokenize: string -> Option<seq<int>>)
    ensures Tokenized(a + b, tokenize) == Tokenized(a, tokenize) + Tokenized(b, tokenize)
  {
    if a == [] {
      assert a + b == b;
    } else {
      assert (a + b)[0] == a[0] && (a + b)[1..] == a[1..] + b;
      TokenizedAppend(a[1..], b, tokenize);
    }
  }

  /** One document per row that tokenized, and none for the others. */
  lemma {:induction false} DocumentsCount(rows: seq<StagedRow>, tokenize: string -> Option<seq<int>>, model: string,
                                          now: nat -> string)
    ensures |Documents(rows, tokenize, model, now)| == Tokenized(rows, tokenize)
  {
    if rows != [] {
      var n := |rows| - 1;
      DocumentsCount(rows[..n], tokenize, model, now);
      TokenizedAppend(rows[..n], [rows[n]], tokenize);
      assert rows[..n] + [rows[n]] == rows;
      assert [rows[n]][1..] == [];
    }
  }

  /** The documents follow the rows that tokenized, in cursor order: the
      k-th document is built from row idx[k], the indices increase, and
      every row that tokenized has its document. */
  lemma {:induction false} DocumentsFromRows(rows: seq<StagedRow>, tokenize: string -> Option<seq<int>>, model: string,
                                             now: nat -> string) returns (idx: seq<nat>)
    ensures var docs := Documents(rows, tokenize, model, now);
      && |idx| == |docs|
      && (forall k :: 0 <= k < |idx| ==>
            && idx[k] < |rows| && tokenize(rows[idx[k]].text).Some?
            && docs[k] == MakeDocument(rows[idx[k]], tokenize(rows[idx[k]].text).value, model, now(idx[k])))
      && (forall k :: 0 < k < |idx| ==> idx[k - 1] < idx[k])
      && (forall j :: 0 <= j < |rows| && tokenize(rows[j].text).Some? ==> j in idx)
  {
    if rows == [] {
      idx := [];
    } else {
      var n := |rows| - 1;
      var init := rows[..n];
      var prev := DocumentsFromRows(init, tokenize, model, now);
      var docs := Documents(rows, tokenize, model, now);
      var before := Documents(init, tokenize, model, now);
      var extra := if tokenize(rows[n].text).Some? then [n] else [];
      idx := prev + extra;
      assert |docs| == |before| + |extra|;
      forall k | 0 <= k < |idx|
        ensures && idx[k] < |rows| && tokenize(rows[idx[k]].text).Some?
                && docs[k] == MakeDocument(rows[idx[k]], tokenize(rows[idx[k]].text).value, model, now(idx[k]))
      {
        if k < |prev| {
          assert idx[k] == prev[k] && docs[k] == before[k] && rows[idx[k]] == init[idx[k]];
        } else {
          assert idx[k] == n;
        }
      }
      forall k | 0 < k < |idx|
        ensures idx[k - 1] < idx[k]
      {
        assert idx[k - 1] == prev[k - 1];
        if k < |prev| {
          assert idx[k] == prev[k];
        }
      }
      forall j | 0 <= j < |rows| && tokenize(rows[j].text).Some?
        ensures j in idx
      {
        if j < n {
          assert rows[j] == init[j] && j in prev;
        } else {
          assert idx[|prev|] == n;
        }
      }
    }
  }

  /** Rows with distinct ids give documents with distinct ids. */
  lemma DocumentIdsDistinct(rows: seq<StagedRow>, tokenize: string -> Option<seq<int>>, model: string,
                            now: nat -> string)
    requires forall i, j :: 0 <= i < j < |rows| ==> rows[i].id != rows[j].id
    ensures var docs := Documents(rows, tokenize, model, now);
      forall i, j :: 0 <= i < j < |docs| ==> docs[i].id != docs[j].id
  {
    var idx := DocumentsFromRows(rows, tokenize, model, now);
    var docs := Documents(rows, tokenize, model, now);
    forall i, j | 0 <= i < j < |docs|
      ensures docs[i].id != docs[j].id
    {
      IncreasingApart(idx, i, j);
    }
  }

  lemma {:induction false} IncreasingApart(idx: seq<nat>, i: nat, j: nat)
    requires forall k :: 0 < k < |idx| ==> idx[k - 1] < idx[k]
    requires i < j < |idx|
    ensures idx[i] < idx[j]
    decreases j - i
  {
    if i + 1 < j {
      IncreasingApart(idx, i + 1, j);
    }
  }

  /** The documents of a prefix of the rows are a prefix of the documents. */
  lemma {:induction false} DocumentsPrefix(rows: seq<StagedRow>, j: nat, tokenize: string -> Option<seq<int>>,
                                           model: string, now: nat -> string)
    requires j <= |rows|
    ensures var docs := Documents(rows, tokenize, model, now);
      var head := Documents(rows[..j], tokenize, model, now);
      |head| <= |docs| && docs[..|head|] == head
    decreases |rows| - j
  {
    if j < |rows| {
      var n := |rows| - 1;
      assert rows[..n][..j] == rows[..j];
      DocumentsPrefix(rows[..n], j, tokenize, model, now);
    } else {
      assert rows[..j] == rows;
    }
  }

  // ---- The migration loop ----

  /** How many documents an ordered insert_many writes before it raises
      after `w` of them: never more than it was given. */
  function Written(w: nat, n: nat): nat
  {
    if w < n then w else n
  }

  datatype MigrateResult = SetupFailed | Migrated(total: nat) | FlushFailed(call: nat)

  /** The curated collection together with the loop's document buffer. */
  class Migrator {
    const batchSize: int
    const model: string
    /** The documents in the MongoDB collection, in insertion order. */
    var collection: seq<Document>
    /** documents_batch */
    var buffer: seq<Document>
    /** total_inserted */
    var totalInserted: nat
    /** How many insert_many calls the collection has received. */
    var insertCalls: nat
    /** The argument of each insert_many call, in order. */
    ghost var flushed: seq<seq<Document>>

    constructor (batchSize: int, model: string, existing: seq<Document>)
      ensures this.batchSize == batchSize && this.model == model && collection == existing
      ensures buffer == [] && totalInserted == 0 && insertCalls == 0 && flushed == []
    {
      this.batchSize := batchSize;
      this.model := model;
      collection := existing;
      buffer := [];
      totalInserted := 0;
      insertCalls := 0;
      flushed := [];
    }

    /** What holds between rows: the flushed batches and the buffer are the
        documents built so far, every flushed batch is full, the buffer is
        short of a batch, and the collection holds what was flushed. */
    ghost predicate Buffered(docs: seq<Document>)
      reads this
    {
      && Flatten(flushed) + buffer == docs
      && AllFull(flushed, FlushSize(batchSize)) && |buffer| < FlushSize(batchSize)
      && collection == Flatten(flushed) && totalInserted == |collection|
      && insertCalls == |flushed|
    }

    /** insert_many(documents_batch), then the count and the reset. The
        insert is ordered: when it raises after writing `w` documents
        (outcome Some(w)), those documents stay and the call is not
        counted in total_inserted. */
    method Flush(outcome: Option<nat>) returns (ok: bool)
      modifies this
      ensures ok == outcome.None?
      ensures insertCalls == old(insertCalls) + 1 && flushed == old(flushed) + [old(buffer)]
      ensures ok ==> && collection == old(collection) + old(buffer)
                     && totalInserted == old(totalInserted) + |old(buffer)| && buffer == []
      ensures !ok ==> && collection == old(collection) + old(buffer)[..Written(outcome.value, |old(buffer)|)]
                      && totalInserted == old(totalInserted) && buffer == old(buffer)
    {
      insertCalls := insertCalls + 1;
      flushed := flushed + [buffer];
      match outcome {
        case None =>
          collection := collection + buffer;
          totalInserted := totalInserted + |buffer|;
          buffer := [];
          ok := true;
        case Some(w) =>
          collection := collection + buffer[..Written(w, |buffer|)];
          ok := false;
      }
    }

    /** How a run that stopped at the c-th insert_many call leaves things:
        the calls before it went through, that call was given the c-th
        batch of `docs`, and the collection holds the earlier batches and
        what the failed call wrote of its own. */
    ghost predicate FailedAt(c: nat, docs: seq<Document>, outcome: nat -> Option<nat>)
      reads this
    {
      var bs := Batches(docs, FlushSize(batchSize));
      && c < |bs| && outcome(c).Some? && (forall j :: 0 <= j < c ==> outcome(j).None?)
      && flushed == bs[..c + 1]
      && collection == Flatten(bs[..c]) + bs[c][..Written(outcome(c).value, |bs[c]|)]
    }

    /** documents_batch.append(document), then a flush when the buffer has
        reached batch_size. `built` are the documents before this one and
        `docs` all the documents the run will build. */
    method AddDocument(document: Document, ghost built: seq<Document>, ghost docs: seq<Document>,
                       outcome: nat -> Option<nat>) returns (failed: Option<nat>)
      requires Buffered(built) && forall c :: 0 <= c < insertCalls ==> outcome(c).None?
      requires |built| < |docs| && docs[..|built| + 1] == built + [document]
      modifies this
      ensures failed.None? ==> Buffered(built + [document]) && forall c :: 0 <= c < insertCalls ==> outcome(c).None?
      ensures failed.Some? ==> FailedAt(failed.value, docs, outcome)
    {
      buffer := buffer + [document];
      assert Flatten(flushed) + buffer == built + [document];
      if |buffer| >= batchSize {
        ghost var before, pending, size := flushed, buffer, FlushSize(batchSize);
        NextFlush(docs, before, pending, size);
        var call := insertCalls;
        var ok := Flush(outcome(call));
        if !ok {
          assert Batches(docs, size)[..|before| + 1] == before + [pending];
          return Some(call);
        }
        FlattenAppend(before, [pending]);
        assert Flatten([pending]) == pending + Flatten<Document>([]);
      }
      failed := None;
    }

    /** `if documents_batch:` the last, short batch. */
    method FinalFlush(ghost docs: seq<Document>, outcome: nat -> Option<nat>) returns (r: MigrateResult)
      requires Buffered(docs) && forall c :: 0 <= c < insertCalls ==> outcome(c).None?
      modifies this
      ensures !r.SetupFailed?
      ensures r.Migrated? ==>
        var bs := Batches(docs, FlushSize(batchSize));
        && r.total == |docs| && collection == docs && flushed == bs
        && (forall c :: 0 <= c < |bs| ==> outcome(c).None?)
      ensures r.FlushFailed? ==> FailedAt(r.call, docs, outcome)
    {
      ghost var size := FlushSize(batchSize);
      if |buffer| > 0 {
        ghost var before, pending := flushed, buffer;
        NextFlush(docs, before, pending, size);
        var call := insertCalls;
        var ok := Flush(outcome(call));
        if !ok {
          assert Batches(docs, size)[..|before| + 1] == before + [pending];
          return FlushFailed(call);
        }
        BatchesAfterFull(before, pending, size);
        SingleBatch(pending, size);
      } else {
        BatchesAfterFull(flushed, [], size);
        assert Flatten(flushed) + [] == Flatten(flushed);
      }
      return Migrated(totalInserted);
    }

    /** process_to_curated from the clear on. `ready` says whether the
        connections, the query, the tokenizer load and delete_many succeed;
        `outcome(c)` is the outcome of the c-th insert_many call. */
    method Migrate(ready: bool, rows: seq<StagedRow>, tokenize: string -> Option<seq<int>>, now: nat -> string,
                   outcome: nat -> Option<nat>) returns (r: MigrateResult)
      requires buffer == [] && totalInserted == 0 && insertCalls == 0 && flushed == []
      modifies this
      ensures r.SetupFailed? <==> !ready
      ensures r.SetupFailed? ==> collection == old(collection)
      ensures r.Migrated? ==>
        var docs := Documents(rows, tokenize, model, now);
        var bs := Batches(docs, FlushSize(batchSize));
        && r.total == |docs| && collection == docs && flushed == bs
        && (forall c :: 0 <= c < |bs| ==> outcome(c).None?)
      ensures r.FlushFailed? ==> FailedAt(r.call, Documents(rows, tokenize, model, now), outcome)
    {
      if !ready {
        return SetupFailed;
      }
      collection := [];
      assert Buffered(Documents(rows[..0], tokenize, model, now));
      for j := 0 to |rows|
        invariant Buffered(Documents(rows[..j], tokenize, model, now))
        invariant forall c :: 0 <= c < insertCalls ==> outcome(c).None?
      {
        var failed := AddRow(rows, j, tokenize, now, outcome);
        if failed.Some? {
          return FlushFailed(failed.value);
        }
      }
      assert rows[..|rows|] == rows;
      r := FinalFlush(Documents(rows, tokenize, model, now), outcome);
    }

    /** One iteration: tokenize the j-th row's text, skip the row when the
        tokenizer raises, and otherwise build its document and add it. */
    method AddRow(rows: seq<StagedRow>, j: nat, tokenize: string -> Option<seq<int>>, now: nat -> string,
                  outcome: nat -> Option<nat>) returns (failed: Option<nat>)
      requires j < |rows|
      requires Buffered(Documents(rows[..j], tokenize, model, now))
      requires forall c :: 0 <= c < insertCalls ==> outcome(c).None?
      modifies this
      ensures failed.None? ==> && Buffered(Documents(rows[..j + 1], tokenize, model, now))
                               && forall c :: 0 <= c < insertCalls ==> outcome(c).None?
      ensures failed.Some? ==> FailedAt(failed.value, Documents(rows, tokenize, model, now), outcome)
    {
      ghost var built := Documents(rows[..j], tokenize, model, now);
      ghost var next := Documents(rows[..j + 1], tokenize, model, now);
      DocumentsStep(rows, j, tokenize, model, now);
      var row := rows[j];
      var tokens := tokenize(row.text);
      if tokens.None? {
        assert next == built;
        return None;
      }
      var document := MakeDocument(row, tokens.value, model, now(j));
      assert next == built + [document];
      ghost var docs := Documents(rows, tokenize, model, now);
      DocumentsPrefix(rows, j + 1, tokenize, model, now);
      assert docs[..|next|] == next;
      failed := AddDocument(document, built, docs, outcome);
    }
  }
}
