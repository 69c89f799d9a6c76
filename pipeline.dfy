/**
 * How the stages fit together: the text object written by the raw stage is
 * what the staging stage splits, and the staging table's rows are what the
 * curated stage reads.
 */
module Pipeline {
  import opened Wrappers
  import opened Text
  import opened UnpackToRaw
  import opened PreprocessToStaging
  import opened ProcessToCurated

  /** Texts that hold no line feed come back out of the text object as
      they went in, with repeats dropped: the staging stage's cleaning has
      nothing left to do on the raw stage's output. */
  lemma {:induction false} StagedFromSerialized(texts: seq<string>)
    requires AllClean(texts)
    requires forall k :: 0 <= k < |texts| ==> '\n' !in texts[k]
    ensures StagedLines(Serialized(texts)) == Dedup(texts)
  {
    SplitSerialized(texts);
    StripNonBlankAppend(texts, [""]);
    StripNonBlankOfClean(texts);
    assert StripNonBlank([""]) == [] by {
      assert Strip("") == "";
      assert [""][1..] == [];
    }
    assert texts + [] == texts;
  }

  /** The corpus the raw stage uploads reaches the staging table as its
      distinct texts in corpus order, provided no text holds a line feed. */
  lemma CorpusToStaging(root: InputDir)
    requires var texts := CorpusTexts(root); forall k :: 0 <= k < |texts| ==> '\n' !in texts[k]
    ensures StagedLines(Serialized(CorpusTexts(root))) == Dedup(CorpusTexts(root))
  {
    CorpusTextsClean(root);
    StagedFromSerialized(CorpusTexts(root));
  }

  /** The line feeds inside the texts themselves. */
  function EmbeddedLineFeeds(texts: seq<string>): nat
  {
    if texts == [] then 0 else CountChar(texts[0], '\n') + EmbeddedLineFeeds(texts[1..])
  }

  /** Splitting the text object gives one piece per text, one per line feed
      inside a text, and the empty piece after the last line feed: a text
      with a line feed inside reaches the staging stage as several lines. */
  lemma {:induction false} SerializedPieces(texts: seq<string>)
    ensures |SplitLines(Serialized(texts))| == |texts| + EmbeddedLineFeeds(texts) + 1
  {
    SerializedLineFeeds(texts);
  }

  lemma {:induction false} SerializedLineFeeds(texts: seq<string>)
    ensures CountChar(Serialized(texts), '\n') == |texts| + EmbeddedLineFeeds(texts)
  {
    if texts != [] {
      SerializedLineFeeds(texts[1..]);
      CountCharAppend(texts[0], "\n", '\n');
      CountCharAppend(texts[0] + "\n", Serialized(texts[1..]), '\n');
      assert CountChar("\n", '\n') == 1 by {
        assert "\n"[1..] == "";
      }
    }
  }

  /** A row that occurs at two positions occurs at least twice. */
  lemma {:induction false} RepeatedRow(s: seq<StagedRow>, i: nat, j: nat)
    requires i < j < |s| && s[i] == s[j]
    ensures multiset(s)[s[j]] >= 2
  {
    assert s == s[..j] + [s[j]] + s[j + 1..];
    assert s[i] in multiset(s[..j]) by {
      assert s[..j][i] == s[i];
    }
  }

  /** Rows whose ids are pairwise distinct each occur at most once. */
  lemma {:induction false} DistinctIdsOnce(s: seq<StagedRow>, r: StagedRow)
    requires forall i, j :: 0 <= i < j < |s| ==> s[i].id != s[j].id
    ensures multiset(s)[r] <= 1
  {
    if s != [] {
      assert s == [s[0]] + s[1..];
      DistinctIdsOnce(s[1..], r);
      if r == s[0] {
        assert r !in s[1..];
      }
    }
  }

  /** The cursor over `SELECT id, text FROM texts` returns the staging
      table's rows in some order (the query has no ORDER BY). Whatever that
      order, the rows' ids are pairwise distinct, because the table's ids
      are ascending. */
  lemma CursorIdsDistinct(tableRows: seq<StagedRow>, nextId: nat, cursor: seq<StagedRow>)
    requires IdsAscending(tableRows, nextId) && multiset(cursor) == multiset(tableRows)
    ensures forall i, j :: 0 <= i < j < |cursor| ==> cursor[i].id != cursor[j].id
  {
    IdsDistinct(tableRows, nextId);
    forall i, j | 0 <= i < j < |cursor|
      ensures cursor[i].id != cursor[j].id
    {
      if cursor[i] == cursor[j] {
        RepeatedRow(cursor, i, j);
        DistinctIdsOnce(tableRows, cursor[j]);
      } else {
        assert cursor[i] in multiset(tableRows) && cursor[j] in multiset(tableRows);
        var p :| 0 <= p < |tableRows| && tableRows[p] == cursor[i];
        var q :| 0 <= q < |tableRows| && tableRows[q] == cursor[j];
        assert p != q;
        assert tableRows[p].id != tableRows[q].id by {
          if p < q {
            assert tableRows[p].id < tableRows[q].id;
          } else {
            assert tableRows[q].id < tableRows[p].id;
          }
        }
      }
    }
  }

  /** The documents built from the staging table never share an id, in
      whatever order the cursor returns its rows. */
  lemma StagedDocumentIdsDistinct(tableRows: seq<StagedRow>, nextId: nat, cursor: seq<StagedRow>,
                                  tokenize: string -> Option<seq<int>>, model: string, now: nat -> string)
    requires IdsAscending(tableRows, nextId) && multiset(cursor) == multiset(tableRows)
    ensures var docs := Documents(cursor, tokenize, model, now);
      forall i, j :: 0 <= i < j < |docs| ==> docs[i].id != docs[j].id
  {
    CursorIdsDistinct(tableRows, nextId, cursor);
    DocumentIdsDistinct(cursor, tokenize, model, now);
  }
}
