/**
 * The raw-ingestion stage (build/unpack_to_raw.py): visit the `train`,
 * `test` and `dev` splits of an input directory, read the `text` column of
 * every Arrow or Parquet file found there, keep the non-blank values
 * stripped, and upload them as one newline-terminated text object.
 *
 * The Arrow and Parquet decoders are foreign code: what each of them makes
 * of a file is part of that file's description (Contents) rather than
 * something computed here.
 */
module UnpackToRaw {
  import opened Wrappers
  import opened Text
  import opened Batching
  import opened ObjectStorage

  /** What converting a decoded table to a data frame yields: the conversion
      raised, the frame has no `text` column, or that column's cells (None
      for a null cell). */
  datatype ParseResult = Fail | NoTextColumn | Column(values: seq<Option<string>>)

  /** One decoder's attempt at a file: it raised, or it produced a table. */
  datatype ReadAttempt = Unreadable | Table(parsed: ParseResult)

  /** What each decoder makes of one file's bytes: the Arrow IPC file
      reader, the Arrow IPC stream reader and the Parquet reader. */
  datatype Contents = Contents(ipcFile: ReadAttempt, ipcStream: ReadAttempt, parquet: ReadAttempt)

  /** An entry of a split's listing as os.path.isfile sees it: a regular
      file, or anything else (a subdirectory, a special file). */
  datatype EntryKind = RegularFile(contents: Contents) | NotRegularFile
  datatype Entry = Entry(name: string, kind: EntryKind)

  /** What is found at a split's path: a directory with its listing in
      os.listdir order, or something that is not a directory. */
  datatype SplitPath = Directory(listing: seq<Entry>) | NotDirectory

  /** The input directory: what each name in it refers to; a name that is
      not a key does not exist. */
  type InputDir = map<string, SplitPath>

  const Splits: seq<string> := ["train", "test", "dev"]
  const ArrowSuffix: string := ".arrow"
  const ParquetSuffix: string := ".parquet"

  /** str.endswith */
  predicate EndsWith(s: string, suffix: string)
  {
    |suffix| <= |s| && s[|s| - |suffix|..] == suffix
  }

  /** An .arrow file: read as an IPC file first; only if that raises, read it
      as an IPC stream; if both raise, the file is unreadable. */
  function ReadArrow(c: Contents): ParseResult
  {
    match c.ipcFile
    case Table(p) => p
    case Unreadable =>
      match c.ipcStream
      case Table(p) => p
      case Unreadable => Fail
  }

  /** A .parquet file: one reader, no fallback. */
  function ReadParquet(c: Contents): ParseResult
  {
    match c.parquet
    case Table(p) => p
    case Unreadable => Fail
  }

  /** The cells `text and ...` lets through: present and not the empty string. */
  function Present(values: seq<Option<string>>): (texts: seq<string>)
    ensures |texts| <= |values|
  {
    if values == [] then []
    else (if values[0].Some? && values[0].value != "" then [values[0].value] else []) + Present(values[1..])
  }

  /** [text.strip() for text in texts if text and text.strip()] */
  function CleanColumn(values: seq<Option<string>>): (texts: seq<string>)
    ensures |texts| <= |values|
  {
    StripNonBlank(Present(values))
  }

  /** The texts a parse result yields: none for a failure or a missing column. */
  function ParsedTexts(p: ParseResult): (texts: seq<string>)
  {
    if p.Column? then CleanColumn(p.values) else []
  }

  /** The texts one listing entry contributes. */
  function EntryTexts(e: Entry): (texts: seq<string>)
  {
    if !e.kind.RegularFile? then []
    else if EndsWith(e.name, ArrowSuffix) then ParsedTexts(ReadArrow(e.kind.contents))
    else if EndsWith(e.name, ParquetSuffix) then ParsedTexts(ReadParquet(e.kind.contents))
    else []
  }

  /** The texts of a directory listing, entry after entry. */
  function ListingTexts(listing: seq<Entry>): (texts: seq<string>)
  {
    if listing == [] then []
    else EntryTexts(listing[0]) + ListingTexts(listing[1..])
  }

  /** The texts of one split; a split that is missing or not a directory
      contributes nothing. */
  function SplitTexts(root: InputDir, split: string): (texts: seq<string>)
  {
    if split in root && root[split].Directory? then ListingTexts(root[split].listing) else []
  }

  /** The texts of the given splits, in the given order. */
  function SplitsTexts(root: InputDir, splits: seq<string>): (texts: seq<string>)
  {
    if splits == [] then []
    else SplitsTexts(root, splits[..|splits| - 1]) + SplitTexts(root, splits[|splits| - 1])
  }

  /** The whole corpus: train, then test, then dev. */
  function CorpusTexts(root: InputDir): (texts: seq<string>)
  {
    SplitTexts(root, "train") + SplitTexts(root, "test") + SplitTexts(root, "dev")
  }

  /** The text file's content: every text followed by a line feed. */
  function Serialized(texts: seq<string>): string
  {
    if texts == [] then "" else texts[0] + "\n" + Serialized(texts[1..])
  }

  /** The size of the text file: each text plus its line feed. */
  function TotalLineLength(texts: seq<string>): nat
  {
    if texts == [] then 0 else |texts[0]| + 1 + TotalLineLength(texts[1..])
  }

  /** The body of the listing loop for one entry: skip anything but a
      regular file, then read .arrow or .parquet files and keep their cleaned
      `text` column. `EntryTexts` is its definition; this method walks the
      same branches step by step. */
  method ReadEntry(entry: Entry) returns (texts: seq<string>)
    ensures texts == EntryTexts(entry)
  {
    texts := [];
    if !entry.kind.RegularFile? {
      return;
    }
    if EndsWith(entry.name, ArrowSuffix) {
      var parsed := ReadArrow(entry.kind.contents);
      if parsed.Column? {
        texts := CleanColumn(parsed.values);
      }
    } else if EndsWith(entry.name, ParquetSuffix) {
      var parsed := ReadParquet(entry.kind.contents);
      if parsed.Column? {
        texts := CleanColumn(parsed.values);
      }
    }
  }

  /** The collection loop: all_texts grows split by split and file by file,
      and each parsed file is appended as one block. */
  method CollectTexts(root: InputDir) returns (allTexts: seq<string>)
    ensures allTexts == CorpusTexts(root)
  {
    allTexts := [];
    for s := 0 to |Splits|
      invariant allTexts == SplitsTexts(root, Splits[..s])
    {
      SplitsStep(root, s);
      allTexts := CollectSplit(root, Splits[s], allTexts);
    }
    assert Splits[..|Splits|] == Splits;
    SplitsInOrder(root);
  }

  /** One split's pass: a split that is missing or not a directory is
      skipped, otherwise every entry of its listing is read in order. */
  method CollectSplit(root: InputDir, split: string, allTexts: seq<string>) returns (extended: seq<string>)
    ensures extended == allTexts + SplitTexts(root, split)
  {
    extended := allTexts;
    if !(split in root && root[split].Directory?) {
      assert allTexts + [] == allTexts;
      return;
    }
    var listing := root[split].listing;
    var collected: seq<string> := [];
    for j := 0 to |listing|
      invariant collected == ListingTexts(listing[..j])
    {
      var texts := ReadEntry(listing[j]);
      ListingPrefixStep(listing, j);
      collected := collected + texts;
    }
    assert listing[..|listing|] == listing;
    extended := extended + collected;
  }

  lemma SplitsStep(root: InputDir, s: nat)
    requires s < |Splits|
    ensures SplitsTexts(root, Splits[..s + 1]) == SplitsTexts(root, Splits[..s]) + SplitTexts(root, Splits[s])
  {
    assert Splits[..s + 1][..s] == Splits[..s];
  }

  /** Visiting Splits in order is train, then test, then dev. */
  lemma SplitsInOrder(root: InputDir)
    ensures SplitsTexts(root, Splits) == CorpusTexts(root)
  {
    var first, firstTwo := Splits[..1], Splits[..2];
    assert Splits[..2] == firstTwo && firstTwo[..1] == first && first[..0] == [];
    assert SplitsTexts(root, first) == SplitTexts(root, "train");
    assert SplitsTexts(root, firstTwo) == SplitTexts(root, "train") + SplitTexts(root, "test");
  }

  /** The write loop: one `text + '\n'` after another. */
  method WriteLines(texts: seq<string>) returns (content: string)
    ensures content == Serialized(texts)
  {
    content := "";
    for i := 0 to |texts|
      invariant content == Serialized(texts[..i])
    {
      SerializedAppend(texts[..i], [texts[i]]);
      assert texts[..i + 1] == texts[..i] + [texts[i]];
      assert Serialized([texts[i]]) == texts[i] + "\n" by {
        assert [texts[i]][1..] == [];
      }
      content := content + texts[i] + "\n";
    }
    assert texts[..|texts|] == texts;
  }

  datatype UnpackResult = NoTexts | Uploaded(count: nat) | UploadFailed

  /** unpack_data: collect, and upload only when something was collected.
      An upload failure is reported to the caller and leaves the store as
      it was. */
  method UnpackData(root: InputDir, store: ObjectStore, bucket: string, name: string, uploadSucceeds: bool)
    returns (r: UnpackResult)
    modifies store
    ensures var texts := CorpusTexts(root);
      && (r.NoTexts? <==> texts == [])
      && (r.NoTexts? ==> store.objects == old(store.objects))
      && (r.Uploaded? ==> uploadSucceeds && r.count == |texts| &&
                          store.objects == old(store.objects)[ObjectKey(bucket, name) := Serialized(texts)])
      && (r.UploadFailed? ==> texts != [] && !uploadSucceeds && store.objects == old(store.objects))
  {
    var texts := CollectTexts(root);
    if texts == [] {
      return NoTexts;
    }
    var content := WriteLines(texts);
    var ok := store.Put(ObjectKey(bucket, name), content, uploadSucceeds);
    if ok {
      r := Uploaded(|texts|);
    } else {
      r := UploadFailed;
    }
  }

  // ---- Properties ----

  /** The texts of two listings one after the other. */
  lemma {:induction false} ListingTextsAppend(a: seq<Entry>, b: seq<Entry>)
    ensures ListingTexts(a + b) == ListingTexts(a) + ListingTexts(b)
  {
    if a == [] {
      assert a + b == b;
    } else {
      assert (a + b)[0] == a[0] && (a + b)[1..] == a[1..] + b;
      ListingTextsAppend(a[1..], b);
    }
  }

  lemma ListingPrefixStep(listing: seq<Entry>, j: nat)
    requires j < |listing|
    ensures ListingTexts(listing[..j + 1]) == ListingTexts(listing[..j]) + EntryTexts(listing[j])
  {
    assert listing[..j + 1] == listing[..j] + [listing[j]];
    ListingTextsAppend(listing[..j], [listing[j]]);
    ListingTextsSingle(listing[j]);
  }

  lemma ListingTextsSingle(e: Entry)
    ensures ListingTexts([e]) == EntryTexts(e)
  {
    assert [e][1..] == [];
  }

  /** Each file's texts form one contiguous block, between the texts of the
      files listed before it and those of the files listed after it. */
  lemma EntryBlock(listing: seq<Entry>, j: nat)
    requires j < |listing|
    ensures ListingTexts(listing) ==
            ListingTexts(listing[..j]) + EntryTexts(listing[j]) + ListingTexts(listing[j + 1..])
  {
    SplitAt(listing, j);
    ListingTextsAppend(listing[..j], listing[j..]);
    ListingSuffixStep(listing, j);
    AppendAssoc(ListingTexts(listing[..j]), EntryTexts(listing[j]), ListingTexts(listing[j + 1..]));
  }

  lemma ListingSuffixStep(listing: seq<Entry>, j: nat)
    requires j < |listing|
    ensures ListingTexts(listing[j..]) == EntryTexts(listing[j]) + ListingTexts(listing[j + 1..])
  {
    assert listing[j..][0] == listing[j] && listing[j..][1..] == listing[j + 1..];
  }

  lemma SplitAt<T>(s: seq<T>, j: nat)
    requires j <= |s|
    ensures s == s[..j] + s[j..]
  {
  }

  /** An entry that contributes nothing (not a regular file, an unsupported
      name, an unreadable file, no `text` column) can be taken out of the
      listing without changing the result: skipping it does not abort the run. */
  lemma SilentEntryIgnored(listing: seq<Entry>, j: nat)
    requires j < |listing| && EntryTexts(listing[j]) == []
    ensures ListingTexts(listing[..j] + listing[j + 1..]) == ListingTexts(listing)
  {
    var before, after := ListingTexts(listing[..j]), ListingTexts(listing[j + 1..]);
    EntryBlock(listing, j);
    ListingTextsAppend(listing[..j], listing[j + 1..]);
    assert before + EntryTexts(listing[j]) == before;
  }

  /** Which entries can contribute at all: regular files whose name ends in
      .arrow or .parquet and whose reading produced a `text` column. */
  lemma EntryTextsSource(e: Entry)
    ensures EntryTexts(e) != [] ==>
      && e.kind.RegularFile?
      && (EndsWith(e.name, ArrowSuffix) || EndsWith(e.name, ParquetSuffix))
      && (EndsWith(e.name, ArrowSuffix) ==> ReadArrow(e.kind.contents).Column?)
      && (!EndsWith(e.name, ArrowSuffix) ==> ReadParquet(e.kind.contents).Column?)
  {
  }

  /** The stream reader is consulted only when the IPC file reader raised. */
  lemma StreamOnlyAfterFileFailure(c: Contents, other: ReadAttempt)
    requires c.ipcFile.Table?
    ensures ReadArrow(c) == ReadArrow(c.(ipcStream := other)) == c.ipcFile.parsed
  {
  }

  /** A split that is missing or not a directory is treated as an empty one. */
  lemma MissingSplitIsEmpty(root: InputDir, split: string)
    requires split !in root || !root[split].Directory?
    ensures CorpusTexts(root) == CorpusTexts(root[split := Directory([])])
  {
  }

  /** A kept cell is the stripped form of a non-blank cell of the column,
      and every non-blank cell is kept. */
  lemma {:induction false} CleanColumnMembers(values: seq<Option<string>>, t: string)
    ensures t in CleanColumn(values) <==>
            exists k :: 0 <= k < |values| && values[k].Some? && Strip(values[k].value) == t && t != ""
  {
    if values != [] {
      CleanColumnMembers(values[1..], t);
      var v := values[0];
      var head := if v.Some? && v.value != "" then [v.value] else [];
      assert Present(values) == head + Present(values[1..]);
      StripNonBlankAppend(head, Present(values[1..]));
      if head != [] {
        assert StripNonBlank(head) == (if Strip(v.value) != "" then [Strip(v.value)] else []) by {
          assert head[1..] == [];
        }
      }
      assert CleanColumn(values) == StripNonBlank(head) + CleanColumn(values[1..]);
      if t in CleanColumn(values[1..]) {
        var k :| 0 <= k < |values[1..]| && values[1..][k].Some? && Strip(values[1..][k].value) == t && t != "";
        assert values[k + 1] == values[1..][k];
      }
      if exists k :: 0 <= k < |values| && values[k].Some? && Strip(values[k].value) == t && t != "" {
        var k :| 0 <= k < |values| && values[k].Some? && Strip(values[k].value) == t && t != "";
        if k > 0 {
          assert values[1..][k - 1] == values[k];
        } else {
          assert v.value != "";
        }
      }
    }
  }

  lemma {:induction false} SerializedAppend(a: seq<string>, b: seq<string>)
    ensures Serialized(a + b) == Serialized(a) + Serialized(b)
  {
    if a == [] {
      assert a + b == b;
    } else {
      assert (a + b)[0] == a[0] && (a + b)[1..] == a[1..] + b;
      SerializedAppend(a[1..], b);
    }
  }

  /** The file holds the sum over all texts of |text| + 1 characters. */
  lemma {:induction false} SerializedLength(texts: seq<string>)
    ensures |Serialized(texts)| == TotalLineLength(texts)
  {
    if texts != [] {
      SerializedLength(texts[1..]);
    }
  }

  /** Writing `text + '\n'` per text is joining the texts and one final
      empty line with line feeds. */
  lemma {:induction false} SerializedIsJoin(texts: seq<string>)
    ensures Serialized(texts) == JoinLines(texts + [""])
  {
    if texts != [] {
      SerializedIsJoin(texts[1..]);
      assert (texts + [""])[1..] == texts[1..] + [""];
      assert (texts + [""])[0] == texts[0];
    }
  }

  /** Splitting the file on line feeds gives back the texts and one trailing
      empty string, as long as no text holds a line feed. */
  lemma SplitSerialized(texts: seq<string>)
    requires forall k :: 0 <= k < |texts| ==> '\n' !in texts[k]
    ensures SplitLines(Serialized(texts)) == texts + [""]
  {
    SerializedIsJoin(texts);
    SplitJoin(texts + [""]);
  }

  /** Every collected text is non-empty and stripped. */
  lemma {:induction false} ListingTextsClean(listing: seq<Entry>)
    ensures AllClean(ListingTexts(listing))
  {
    if listing != [] {
      var e := listing[0];
      if e.kind.RegularFile? {
        ParsedTextsClean(ReadArrow(e.kind.contents));
        ParsedTextsClean(ReadParquet(e.kind.contents));
      }
      ListingTextsClean(listing[1..]);
      AllCleanAppend(EntryTexts(listing[0]), ListingTexts(listing[1..]));
    }
  }

  lemma ParsedTextsClean(p: ParseResult)
    ensures AllClean(ParsedTexts(p))
  {
    if p.Column? {
      StripNonBlankClean(Present(p.values));
    }
  }

  lemma CorpusTextsClean(root: InputDir)
    ensures AllClean(CorpusTexts(root))
  {
    forall split: string
      ensures AllClean(SplitTexts(root, split))
    {
      if split in root && root[split].Directory? {
        ListingTextsClean(root[split].listing);
      }
    }
    AllCleanAppend(SplitTexts(root, "train"), SplitTexts(root, "test"));
    AllCleanAppend(SplitTexts(root, "train") + SplitTexts(root, "test"), SplitTexts(root, "dev"));
  }
}
