/**
 * Indexing PDF pages into a vector collection (`BuildEmbeddings` in `index_chroma.py`).
 *
 * Files are chosen by extension, each PDF's pages are read, pages whose text is empty
 * after stripping are skipped, and every remaining page becomes one record: an id
 * "<rel>::page:<n>", the text, and metadata naming the file and page. Records are
 * buffered and handed to the collection in batches of `batch_size`, and the buffer's
 * remainder is handed over at the end.
 *
 * The file system and the PDF reader are inputs: a file arrives with its relative path,
 * its base name and either the texts of its pages or the fact that it could not be
 * opened. The collection is the log of batches it received.
 */
module IndexChroma {
  import opened Wrappers
  import opened PyText
  import opened Chunks

  // ---------------------------------------------------------------- ids and metadata

  /** `_page_key`: "<rel>::page:<n>". */
  function PageKey(rel: string, page: nat): string {
    rel + "::page:" + NatToString(page)
  }

  datatype PageMetadata = PageMetadata(source: string, file: string, page: nat, filePage: string, uri: string)

  /** `_page_metadata`: relative path, base name, page, "<base>_<n>" and "<rel>#page=<n>". */
  function PageMetadataOf(rel: string, base: string, page: nat): (m: PageMetadata)
    ensures m.source == rel && m.file == base && m.page == page
    ensures StartsWith(m.filePage, base) && StartsWith(m.uri, rel)
  {
    PageMetadata(rel, base, page, base + "_" + NatToString(page), rel + "#page=" + NatToString(page))
  }

  /** The number of digits at the end of `s`. */
  function TrailingDigits(s: string): (n: nat)
    ensures n <= |s|
    decreases |s|
  {
    if s == [] || !IsDigit(s[|s| - 1]) then 0 else 1 + TrailingDigits(s[..|s| - 1])
  }

  /** After a tag that ends in a non-digit, the trailing digits are exactly the digits appended. */
  lemma {:induction false} TrailingDigitsAfterTag(a: string, tag: string, d: string)
    requires tag != [] && !IsDigit(tag[|tag| - 1]) && AllDigits(d)
    ensures TrailingDigits(a + tag + d) == |d|
    decreases |d|
  {
    var s := a + tag + d;
    if d == [] {
      assert s[|s| - 1] == tag[|tag| - 1];
    } else {
      var d' := d[..|d| - 1];
      assert s[..|s| - 1] == a + tag + d';
      TrailingDigitsAfterTag(a, tag, d');
    }
  }

  /**
   * A text followed by a tag that ends in a non-digit and then a number determines
   * both: the number is the digit run after the tag.
   */
  lemma TaggedNumberInjective(a1: string, a2: string, tag: string, n1: nat, n2: nat)
    requires tag != [] && !IsDigit(tag[|tag| - 1])
    requires a1 + tag + NatToString(n1) == a2 + tag + NatToString(n2)
    ensures a1 == a2 && n1 == n2
  {
    var d1 := NatToString(n1);
    var d2 := NatToString(n2);
    var s := a1 + tag + d1;
    TrailingDigitsAfterTag(a1, tag, d1);
    TrailingDigitsAfterTag(a2, tag, d2);
    assert d1 == s[|s| - |d1|..] == d2;
    NatToStringInjective(n1, n2);
    assert a1 + tag == s[..|s| - |d1|] == a2 + tag;
    assert a1 == (a1 + tag)[..|a1|];
  }

  /** Different (file, page) pairs get different ids, so no upsert overwrites another page. */
  lemma PageKeyInjective(rel1: string, page1: nat, rel2: string, page2: nat)
    requires PageKey(rel1, page1) == PageKey(rel2, page2)
    ensures rel1 == rel2 && page1 == page2
  {
    TaggedNumberInjective(rel1, rel2, "::page:", page1, page2);
  }

  /** The uri and the file_page label identify the page in the same way. */
  lemma PageMetadataIdentifies(rel1: string, base1: string, page1: nat, rel2: string, base2: string, page2: nat)
    requires PageMetadataOf(rel1, base1, page1).uri == PageMetadataOf(rel2, base2, page2).uri
    requires PageMetadataOf(rel1, base1, page1).filePage == PageMetadataOf(rel2, base2, page2).filePage
    ensures rel1 == rel2 && base1 == base2 && page1 == page2
  {
    TaggedNumberInjective(rel1, rel2, "#page=", page1, page2);
    TaggedNumberInjective(base1, base2, "_", page1, page2);
  }

  // ---------------------------------------------------------------- files and pages

  /**
   * What the PDF reader gives for a file: it cannot be opened, or the text of each page
   * after `extract_text() or ""` (a page whose extraction fails reads as "").
   */
  datatype PdfDoc = Unreadable | Readable(pageTexts: seq<string>)

  /** A file to index, with `os.path.relpath` and `os.path.basename` of its path. */
  datatype SourceFile = SourceFile(path: string, rel: string, base: string, doc: PdfDoc)

  /**
   * The pages whose text is not empty once cleaned, as (1-based page number, cleaned
   * text), in page order.
   */
  function NonBlankPages(texts: seq<string>, clean: string -> string): (r: seq<(nat, string)>)
    ensures |r| <= |texts|
    decreases |texts|
  {
    if texts == [] then []
    else
      var n := |texts|;
      var t := clean(texts[n - 1]);
      NonBlankPages(texts[..n - 1], clean) + if t != [] then [(n, t)] else []
  }

  /** `_iter_pages`: the pages whose stripped text is not empty, with that text. */
  function PagesOf(texts: seq<string>): seq<(nat, string)> {
    NonBlankPages(texts, Strip)
  }

  /** Every page yielded is numbered within the document and carries that page's non-empty cleaned text. */
  lemma {:induction false} PagesOfSound(texts: seq<string>, clean: string -> string)
    ensures forall k :: 0 <= k < |NonBlankPages(texts, clean)| ==>
              var p := NonBlankPages(texts, clean)[k];
              1 <= p.0 <= |texts| && p.1 == clean(texts[p.0 - 1]) && p.1 != []
    decreases |texts|
  {
    if texts != [] {
      var n := |texts|;
      var prev := texts[..n - 1];
      PagesOfSound(prev, clean);
      var rp := NonBlankPages(prev, clean);
      var t := clean(texts[n - 1]);
      var r := NonBlankPages(texts, clean);
      assert r == rp + if t != [] then [(n, t)] else [];
      forall k | 0 <= k < |r|
        ensures 1 <= r[k].0 <= n && r[k].1 == clean(texts[r[k].0 - 1]) && r[k].1 != []
      {
        if k < |rp| {
          var p := rp[k].0;
          assert 1 <= p <= n - 1 && rp[k].1 == clean(prev[p - 1]) && rp[k].1 != [];
          assert prev[p - 1] == texts[p - 1];
          assert r[k] == rp[k];
        } else {
          assert r[k] == (n, t);
        }
      }
    }
  }

  /** Pages are yielded in increasing page order. */
  lemma {:induction false} PagesOfOrdered(texts: seq<string>, clean: string -> string)
    ensures forall k, l :: 0 <= k < l < |NonBlankPages(texts, clean)| ==>
              NonBlankPages(texts, clean)[k].0 < NonBlankPages(texts, clean)[l].0
    decreases |texts|
  {
    if texts != [] {
      var n := |texts|;
      var prev := texts[..n - 1];
      PagesOfOrdered(prev, clean);
      PagesOfSound(prev, clean);
      var rp := NonBlankPages(prev, clean);
      var t := clean(texts[n - 1]);
      var r := NonBlankPages(texts, clean);
      assert r == rp + if t != [] then [(n, t)] else [];
      forall k, l | 0 <= k < l < |r|
        ensures r[k].0 < r[l].0
      {
        assert r[k] == rp[k];
        if l < |rp| {
          assert r[l] == rp[l];
        } else {
          assert r[l] == (n, t);
          assert rp[k].0 <= n - 1;
        }
      }
    }
  }

  /** The position at which a page with text is yielded. */
  lemma {:induction false} PageYieldedAt(texts: seq<string>, clean: string -> string, i: nat) returns (k: nat)
    requires i < |texts| && clean(texts[i]) != []
    ensures k < |NonBlankPages(texts, clean)| && NonBlankPages(texts, clean)[k] == (i + 1, clean(texts[i]))
    decreases |texts|
  {
    var n := |texts|;
    var prev := texts[..n - 1];
    var rp := NonBlankPages(prev, clean);
    var t := clean(texts[n - 1]);
    assert NonBlankPages(texts, clean) == rp + if t != [] then [(n, t)] else [];
    if i == n - 1 {
      k := |rp|;
    } else {
      assert prev[i] == texts[i];
      k := PageYieldedAt(prev, clean, i);
      assert NonBlankPages(texts, clean)[k] == rp[k];
    }
  }

  /** Every page whose cleaned text is not empty is yielded, with its number and that text. */
  lemma PagesOfComplete(texts: seq<string>, clean: string -> string)
    ensures forall i :: 0 <= i < |texts| && clean(texts[i]) != [] ==>
              (i + 1, clean(texts[i])) in NonBlankPages(texts, clean)
  {
    forall i | 0 <= i < |texts| && clean(texts[i]) != []
      ensures (i + 1, clean(texts[i])) in NonBlankPages(texts, clean)
    {
      var k := PageYieldedAt(texts, clean, i);
    }
  }

  /** `_count_total_pages`: every page of every file that opens, empty pages included. */
  function TotalPages(files: seq<SourceFile>): nat
    decreases |files|
  {
    if files == [] then 0
    else
      var f := files[|files| - 1];
      TotalPages(files[..|files| - 1]) + if f.doc.Readable? then |f.doc.pageTexts| else 0
  }

  // ---------------------------------------------------------------- records

  /** One buffered record: id, document text and metadata. */
  datatype Record = Record(id: string, doc: string, meta: PageMetadata)

  function RecordOf(f: SourceFile, page: (nat, string)): Record {
    Record(PageKey(f.rel, page.0), page.1, PageMetadataOf(f.rel, f.base, page.0))
  }

  function RecordsOf(f: SourceFile, pages: seq<(nat, string)>): (r: seq<Record>)
    ensures |r| == |pages|
    decreases |pages|
  {
    if pages == [] then [] else RecordsOf(f, pages[..|pages| - 1]) + [RecordOf(f, pages[|pages| - 1])]
  }

  /** The records of one file: one per page with text, or none when it does not open. */
  function FileRecords(f: SourceFile): (r: seq<Record>)
    ensures |r| == if f.doc.Readable? then |PagesOf(f.doc.pageTexts)| else 0
  {
    if f.doc.Readable? then RecordsOf(f, PagesOf(f.doc.pageTexts)) else []
  }

  /** The concatenation of `f(x)` for each `x` of `xs`, in order. */
  function FlatMap<S, T>(xs: seq<S>, f: S -> seq<T>): seq<T>
    decreases |xs|
  {
    if xs == [] then [] else FlatMap(xs[..|xs| - 1], f) + f(xs[|xs| - 1])
  }

  /** Taking one more element appends its image. */
  lemma FlatMapLast<S, T>(xs: seq<S>, f: S -> seq<T>, n: nat)
    requires n < |xs|
    ensures FlatMap(xs[..n + 1], f) == FlatMap(xs[..n], f) + f(xs[n])
  {
    assert xs[..n + 1][..n] == xs[..n];
  }

  /** A shorter prefix of the elements concatenates to a prefix of the concatenation. */
  lemma {:induction false} FlatMapPrefix<S, T>(xs: seq<S>, f: S -> seq<T>, m: nat, n: nat)
    requires m <= n <= |xs|
    ensures FlatMap(xs[..m], f) <= FlatMap(xs[..n], f)
    decreases n
  {
    if m < n {
      FlatMapPrefix(xs, f, m, n - 1);
      FlatMapLast(xs, f, n - 1);
    }
  }

  /** The records of a list of files: each file's records in turn. */
  function AllRecords(files: seq<SourceFile>): seq<Record> {
    FlatMap(files, FileRecords)
  }

  /** There is at most one record per page that has text: never more than the page count. */
  lemma {:induction false} RecordsWithinPages(files: seq<SourceFile>)
    ensures |AllRecords(files)| <= TotalPages(files)
    decreases |files|
  {
    if files != [] {
      var n := |files| - 1;
      RecordsWithinPages(files[..n]);
      FlatMapLast(files, FileRecords, n);
      assert files[..n + 1] == files;
      if files[n].doc.Readable? {
        assert |PagesOf(files[n].doc.pageTexts)| <= |files[n].doc.pageTexts|;
      }
    }
  }

  // ---------------------------------------------------------------- batches

  /** The three parallel lists one `_flush_batch` call receives. */
  datatype Batch = Batch(ids: seq<string>, docs: seq<string>, metas: seq<PageMetadata>)

  predicate Aligned(b: Batch) {
    |b.ids| == |b.docs| == |b.metas|
  }

  function Ids(rs: seq<Record>): (r: seq<string>)
    ensures |r| == |rs|
    ensures forall k :: 0 <= k < |rs| ==> r[k] == rs[k].id
    decreases |rs|
  {
    if rs == [] then [] else Ids(rs[..|rs| - 1]) + [rs[|rs| - 1].id]
  }

  function Docs(rs: seq<Record>): (r: seq<string>)
    ensures |r| == |rs|
    ensures forall k :: 0 <= k < |rs| ==> r[k] == rs[k].doc
    decreases |rs|
  {
    if rs == [] then [] else Docs(rs[..|rs| - 1]) + [rs[|rs| - 1].doc]
  }

  function Metas(rs: seq<Record>): (r: seq<PageMetadata>)
    ensures |r| == |rs|
    ensures forall k :: 0 <= k < |rs| ==> r[k] == rs[k].meta
    decreases |rs|
  {
    if rs == [] then [] else Metas(rs[..|rs| - 1]) + [rs[|rs| - 1].meta]
  }

  function BatchOf(rs: seq<Record>): Batch {
    Batch(Ids(rs), Docs(rs), Metas(rs))
  }

  function BatchesOf(chunks: seq<seq<Record>>): (r: seq<Batch>)
    ensures |r| == |chunks|
    ensures forall c :: 0 <= c < |chunks| ==> r[c] == BatchOf(chunks[c])
    decreases |chunks|
  {
    if chunks == [] then [] else [BatchOf(chunks[0])] + BatchesOf(chunks[1..])
  }

  /** The records a received batch stands for, read back from its parallel lists. */
  function Unbatch(b: Batch): (rs: seq<Record>)
    requires Aligned(b)
    ensures |rs| == |b.ids|
  {
    seq(|b.ids|, k requires 0 <= k < |b.ids| => Record(b.ids[k], b.docs[k], b.metas[k]))
  }

  /** Everything a sequence of batches delivers to the collection, in order. */
  function Delivered(bs: seq<Batch>): seq<Record>
    requires forall c :: 0 <= c < |bs| ==> Aligned(bs[c])
    decreases |bs|
  {
    if bs == [] then [] else Unbatch(bs[0]) + Delivered(bs[1..])
  }

  /** A batch built from records reads back as those records. */
  lemma UnbatchOf(rs: seq<Record>)
    ensures Aligned(BatchOf(rs)) && Unbatch(BatchOf(rs)) == rs
  {
    var u := Unbatch(BatchOf(rs));
    assert forall k :: 0 <= k < |rs| ==> u[k] == rs[k];
  }

  /** Batches built from consecutive runs deliver the runs, concatenated. */
  lemma {:induction false} DeliveredBatches(chunks: seq<seq<Record>>)
    ensures forall c :: 0 <= c < |chunks| ==> Aligned(BatchesOf(chunks)[c])
    ensures Delivered(BatchesOf(chunks)) == Flatten(chunks)
    decreases |chunks|
  {
    forall c | 0 <= c < |chunks|
      ensures Aligned(BatchesOf(chunks)[c])
    {
      UnbatchOf(chunks[c]);
    }
    if chunks != [] {
      DeliveredBatches(chunks[1..]);
      UnbatchOf(chunks[0]);
      assert BatchesOf(chunks)[1..] == BatchesOf(chunks[1..]);
    }
  }

  lemma BatchOfSnoc(rs: seq<Record>, rec: Record)
    ensures BatchOf(rs + [rec]) == Batch(Ids(rs) + [rec.id], Docs(rs) + [rec.doc], Metas(rs) + [rec.meta])
  {
    assert (rs + [rec])[..|rs|] == rs;
  }

  lemma BatchesOfAppend(cs: seq<seq<Record>>, ds: seq<seq<Record>>)
    ensures BatchesOf(cs + ds) == BatchesOf(cs) + BatchesOf(ds)
  {
    var l := BatchesOf(cs + ds);
    var r := BatchesOf(cs) + BatchesOf(ds);
    assert forall c :: 0 <= c < |l| ==> l[c] == r[c];
  }

  /**
   * One more record: when it fills the buffer, the buffer's batch is handed over and
   * the buffer starts again empty; otherwise nothing is handed over.
   */
  lemma AcceptStep(done: seq<Record>, rec: Record, k: nat)
    requires k >= 1
    ensures var buffer := Rest(done, k) + [rec];
            if |buffer| == k then
              BatchesOf(FullChunks(done + [rec], k)) == BatchesOf(FullChunks(done, k)) + [BatchOf(buffer)]
              && Rest(done + [rec], k) == []
            else
              BatchesOf(FullChunks(done + [rec], k)) == BatchesOf(FullChunks(done, k))
              && Rest(done + [rec], k) == buffer
  {
    Push(done, rec, k);
    var buffer := Rest(done, k) + [rec];
    if |buffer| == k {
      BatchesOfAppend(FullChunks(done, k), [buffer]);
    }
  }

  // ---------------------------------------------------------------- build outcome

  /** The buffer size that makes `len(docs) >= batch_size` flush: a negative size flushes every record. */
  function FlushSize(batchSize: int): nat {
    if batchSize >= 1 then batchSize else 1
  }

  /** Where the pass over the files stands: why it stopped, if it did, and the records produced. */
  datatype Pass = Pass(stop: Option<PyError>, records: seq<Record>)

  /**
   * The pass of `build` over the files, one file after the other. It stops at a file
   * that cannot be opened, and, when the batch size is 0, at the first page with text
   * (`done % batch_size` divides by zero); once stopped, later files are not looked at.
   */
  function IndexPass(files: seq<SourceFile>, batchSize: int): Pass
    decreases |files|
  {
    if files == [] then Pass(None, [])
    else
      var p := IndexPass(files[..|files| - 1], batchSize);
      var f := files[|files| - 1];
      if p.stop.Some? then p
      else if f.doc.Unreadable? then Pass(Some(ReadError), p.records)
      else if batchSize == 0 && PagesOf(f.doc.pageTexts) != [] then Pass(Some(ZeroDivisionError), p.records)
      else Pass(None, p.records + FileRecords(f))
  }

  /**
   * What `build` returns: 0 when there is no page at all (before any file is read for
   * its text); the error the pass stopped on; otherwise the number of records.
   */
  function BuildResult(files: seq<SourceFile>, batchSize: int): Result<nat, PyError> {
    var p := IndexPass(files, batchSize);
    if TotalPages(files) == 0 then Ok(0)
    else if p.stop.Some? then Err(p.stop.value)
    else Ok(|p.records|)
  }

  /**
   * The batches `build` hands to the collection: none when there is no page; the full
   * batches of the records produced before the pass stopped; otherwise every batch,
   * the buffer's remainder last.
   */
  function BuildFlushes(files: seq<SourceFile>, batchSize: int): seq<Batch> {
    var p := IndexPass(files, batchSize);
    var k := FlushSize(batchSize);
    if TotalPages(files) == 0 then []
    else if p.stop.Some? then BatchesOf(FullChunks(p.records, k))
    else BatchesOf(Batches(p.records, k))
  }

  /** One file more: the pass over a prefix extended by the next file. */
  lemma IndexPassStep(files: seq<SourceFile>, batchSize: int, n: nat)
    requires n < |files|
    ensures var p := IndexPass(files[..n], batchSize);
            var f := files[n];
            IndexPass(files[..n + 1], batchSize)
            == if p.stop.Some? then p
               else if f.doc.Unreadable? then Pass(Some(ReadError), p.records)
               else if batchSize == 0 && PagesOf(f.doc.pageTexts) != [] then Pass(Some(ZeroDivisionError), p.records)
               else Pass(None, p.records + FileRecords(f))
  {
    assert files[..n + 1][..n] == files[..n];
  }

  /** Once the pass has stopped, the files after that do not change its outcome. */
  lemma {:induction false} IndexPassSticky(files: seq<SourceFile>, batchSize: int, m: nat, n: nat)
    requires m <= n <= |files| && IndexPass(files[..m], batchSize).stop.Some?
    ensures IndexPass(files[..n], batchSize) == IndexPass(files[..m], batchSize)
    decreases n
  {
    if m < n {
      IndexPassSticky(files, batchSize, m, n - 1);
      IndexPassStep(files, batchSize, n - 1);
    }
  }

  /**
   * When the pass runs to the end, every file opened and, for a batch size of 0, no
   * page had text; it produced the records of every file.
   */
  lemma {:induction false} IndexPassCompletes(files: seq<SourceFile>, batchSize: int)
    requires IndexPass(files, batchSize).stop.None?
    ensures forall j :: 0 <= j < |files| ==> files[j].doc.Readable?
    ensures IndexPass(files, batchSize).records == AllRecords(files)
    ensures batchSize == 0 ==> AllRecords(files) == []
    decreases |files|
  {
    if files != [] {
      var n := |files| - 1;
      var prev := files[..n];
      IndexPassCompletes(prev, batchSize);
      assert forall j :: 0 <= j < n ==> prev[j] == files[j];
    }
  }

  /**
   * Conversely, when every file opens and, for a batch size of 0, no page has text,
   * the pass runs to the end.
   */
  lemma {:induction false} IndexPassRunsThrough(files: seq<SourceFile>, batchSize: int)
    requires forall j :: 0 <= j < |files| ==> files[j].doc.Readable?
    requires batchSize == 0 ==> AllRecords(files) == []
    ensures IndexPass(files, batchSize).stop.None?
    decreases |files|
  {
    if files != [] {
      var n := |files| - 1;
      var prev := files[..n];
      assert forall j :: 0 <= j < n ==> prev[j] == files[j];
      IndexPassRunsThrough(prev, batchSize);
    }
  }

  /**
   * When the pass stops, it stops at file `at`: every file before it opens and their
   * records are those produced; on a read error file `at` does not open, and on a
   * division by zero the batch size is 0, file `at` opens and has a page with text,
   * and no record came before it.
   */
  lemma {:induction false} IndexPassStops(files: seq<SourceFile>, batchSize: int) returns (at: nat)
    requires IndexPass(files, batchSize).stop.Some?
    ensures at < |files| && forall j :: 0 <= j < at ==> files[j].doc.Readable?
    ensures IndexPass(files, batchSize).records == AllRecords(files[..at])
    ensures IndexPass(files, batchSize).stop == Some(ReadError) || IndexPass(files, batchSize).stop == Some(ZeroDivisionError)
    ensures IndexPass(files, batchSize).stop == Some(ReadError) ==> files[at].doc.Unreadable?
    ensures IndexPass(files, batchSize).stop == Some(ZeroDivisionError) ==>
              batchSize == 0 && files[at].doc.Readable? && PagesOf(files[at].doc.pageTexts) != []
              && IndexPass(files, batchSize).records == []
    decreases |files|
  {
    var n := |files| - 1;
    var prev := files[..n];
    assert forall j :: 0 <= j < n ==> prev[j] == files[j];
    if IndexPass(prev, batchSize).stop.Some? {
      at := IndexPassStops(prev, batchSize);
      assert prev[..at] == files[..at];
    } else {
      at := n;
      IndexPassCompletes(prev, batchSize);
    }
  }

  /**
   * When `build` returns normally, the batches handed over, read back and concatenated,
   * are exactly the records of the pages with text, in file and page order.
   */
  lemma BuildDeliversEveryPage(files: seq<SourceFile>, batchSize: int)
    requires BuildResult(files, batchSize).Ok?
    ensures forall c :: 0 <= c < |BuildFlushes(files, batchSize)| ==> Aligned(BuildFlushes(files, batchSize)[c])
    ensures Delivered(BuildFlushes(files, batchSize)) == AllRecords(files)
  {
    var k := FlushSize(batchSize);
    if TotalPages(files) == 0 {
      RecordsWithinPages(files);
    } else {
      IndexPassCompletes(files, batchSize);
      var records := AllRecords(files);
      DeliveredBatches(Batches(records, k));
      BatchesFlatten(records, k);
    }
  }

  /**
   * When `build` raises, what the collection received is a prefix of the records, in
   * full batches only: the buffer's contents are lost.
   */
  lemma BuildFailureDeliversPrefix(files: seq<SourceFile>, batchSize: int)
    requires BuildResult(files, batchSize).Err?
    ensures forall c :: 0 <= c < |BuildFlushes(files, batchSize)| ==> Aligned(BuildFlushes(files, batchSize)[c])
    ensures forall c :: 0 <= c < |BuildFlushes(files, batchSize)| ==> |BuildFlushes(files, batchSize)[c].docs| == FlushSize(batchSize)
    ensures Delivered(BuildFlushes(files, batchSize)) <= AllRecords(files)
  {
    var k := FlushSize(batchSize);
    var at := IndexPassStops(files, batchSize);
    var records := AllRecords(files[..at]);
    DeliveredBatches(FullChunks(records, k));
    FullChunksThenRest(records, k);
    FlatMapPrefix(files, FileRecords, at, |files|);
    assert files[..|files|] == files;
  }

  /**
   * For a batch size of at least 1: every batch handed over is non-empty and at most
   * `batch_size` long, and all but the last hold exactly `batch_size` records.
   */
  lemma BuildBatchSizes(files: seq<SourceFile>, batchSize: int)
    requires batchSize >= 1
    ensures var b := BuildFlushes(files, batchSize);
            (forall c :: 0 <= c < |b| ==> 0 < |b[c].docs| <= batchSize)
            && (forall c :: 0 <= c < |b| - 1 ==> |b[c].docs| == batchSize)
  {
    BatchesSizes(IndexPass(files, batchSize).records, batchSize);
  }

  /** The count `build` returns never exceeds the page count it printed progress against. */
  lemma BuildCountWithinPages(files: seq<SourceFile>, batchSize: int)
    requires BuildResult(files, batchSize).Ok?
    ensures BuildResult(files, batchSize).value <= TotalPages(files)
  {
    if TotalPages(files) > 0 {
      IndexPassCompletes(files, batchSize);
      RecordsWithinPages(files);
    }
  }

  // ---------------------------------------------------------------- extension filter

  /** `os.path.join(r, f)` for POSIX paths. */
  function PathJoin(dir: string, name: string): string {
    if StartsWith(name, "/") then name
    else if dir == [] || EndsWith(dir, "/") then dir + name
    else dir + "/" + name
  }

  /**
   * `os.path.splitext(name)[1]` for a bare file name: from the last "." to the end,
   * unless only dots precede it (".bashrc" and "..pdf" have no extension).
   */
  function Extension(name: string): (e: string)
    ensures e == [] || (e[0] == '.' && EndsWith(name, e) && |e| < |name|)
    ensures forall i :: 1 <= i < |e| ==> e[i] != '.'
  {
    match LastIndex(name, '.')
    case None => ""
    case Some(d) =>
      if exists i :: 0 <= i < d && name[i] != '.' then
        assert name[d..] == name[|name| - (|name| - d)..];
        name[d..]
      else ""
  }

  /** `s.lower()` over ASCII letters. */
  function Lower(s: string): string
  {
    seq(|s|, i requires 0 <= i < |s| => AsciiLower(s[i]))
  }

  /** A file name `_iter_files` keeps: its lower-cased extension is allowed. */
  predicate AllowedName(name: string, allowed: set<string>) {
    Lower(Extension(name)) in allowed
  }

  /** The entries whose file name passes `keep`, each joined to its directory, in order. */
  function PathsWhere(entries: seq<(string, string)>, keep: string -> bool): (r: seq<string>)
    ensures |r| <= |entries|
    decreases |entries|
  {
    if entries == [] then []
    else
      var e := entries[|entries| - 1];
      PathsWhere(entries[..|entries| - 1], keep) + if keep(e.1) then [PathJoin(e.0, e.1)] else []
  }

  /** The paths `_iter_files` yields for a listing of (directory, file name) entries. */
  function AllowedPaths(entries: seq<(string, string)>, allowed: set<string>): seq<string> {
    PathsWhere(entries, name => AllowedName(name, allowed))
  }

  /** The entry a yielded path comes from. */
  lemma {:induction false} PathOrigin(entries: seq<(string, string)>, keep: string -> bool, k: nat) returns (j: nat)
    requires k < |PathsWhere(entries, keep)|
    ensures j < |entries| && keep(entries[j].1)
    ensures PathsWhere(entries, keep)[k] == PathJoin(entries[j].0, entries[j].1)
    decreases |entries|
  {
    var prev := entries[..|entries| - 1];
    var rp := PathsWhere(prev, keep);
    if k < |rp| {
      j := PathOrigin(prev, keep, k);
      assert PathsWhere(entries, keep)[k] == rp[k];
      assert prev[j] == entries[j];
    } else {
      j := |entries| - 1;
    }
  }

  /** The position at which an entry that passes is yielded. */
  lemma {:induction false} PathFound(entries: seq<(string, string)>, keep: string -> bool, j: nat) returns (k: nat)
    requires j < |entries| && keep(entries[j].1)
    ensures k < |PathsWhere(entries, keep)| && PathsWhere(entries, keep)[k] == PathJoin(entries[j].0, entries[j].1)
    decreases |entries|
  {
    var prev := entries[..|entries| - 1];
    if j == |entries| - 1 {
      k := |PathsWhere(prev, keep)|;
    } else {
      assert prev[j] == entries[j];
      k := PathFound(prev, keep, j);
      assert PathsWhere(entries, keep)[k] == PathsWhere(prev, keep)[k];
    }
  }

  /** `path` is an entry with an allowed extension, joined to its directory. */
  predicate FromAllowedEntry(entries: seq<(string, string)>, allowed: set<string>, path: string) {
    exists j :: 0 <= j < |entries| && AllowedName(entries[j].1, allowed) && path == PathJoin(entries[j].0, entries[j].1)
  }

  /** Every yielded path is an entry with an allowed extension, joined to its directory. */
  lemma AllowedPathsSound(entries: seq<(string, string)>, allowed: set<string>)
    ensures forall k :: 0 <= k < |AllowedPaths(entries, allowed)| ==>
              FromAllowedEntry(entries, allowed, AllowedPaths(entries, allowed)[k])
  {
    var keep := name => AllowedName(name, allowed);
    forall k | 0 <= k < |PathsWhere(entries, keep)|
      ensures FromAllowedEntry(entries, allowed, PathsWhere(entries, keep)[k])
    {
      var j := PathOrigin(entries, keep, k);
    }
  }

  /** Every entry with an allowed extension is yielded, joined to its directory. */
  lemma AllowedPathsComplete(entries: seq<(string, string)>, allowed: set<string>)
    ensures forall j :: 0 <= j < |entries| && AllowedName(entries[j].1, allowed) ==>
              PathJoin(entries[j].0, entries[j].1) in AllowedPaths(entries, allowed)
  {
    var keep := name => AllowedName(name, allowed);
    forall j | 0 <= j < |entries| && AllowedName(entries[j].1, allowed)
      ensures PathJoin(entries[j].0, entries[j].1) in PathsWhere(entries, keep)
    {
      var k := PathFound(entries, keep, j);
    }
  }

  /** A dot-free extension after a stem that is not all dots is what `splitext` returns. */
  lemma ExtensionAfterStem(stem: string, ext: string)
    requires exists i :: 0 <= i < |stem| && stem[i] != '.'
    requires forall i :: 0 <= i < |ext| ==> ext[i] != '.'
    ensures Extension(stem + "." + ext) == "." + ext
  {
    var name := stem + "." + ext;
    assert forall i :: 0 <= i < |ext| ==> name[|stem| + 1 + i] == ext[i];
    LastIndexAt(name, '.', |stem|);
    var i :| 0 <= i < |stem| && stem[i] != '.';
    assert name[i] != '.';
    assert name[|stem|..] == "." + ext;
  }

  /**
   * With the default `{".pdf"}`, the extension is matched ignoring case: a name with
   * something other than dots before its last "." and "pdf" in any case after it is kept.
   */
  lemma DefaultKeepsPdf(stem: string, ext: string)
    requires exists i :: 0 <= i < |stem| && stem[i] != '.'
    requires Lower(ext) == "pdf"
    ensures AllowedName(stem + "." + ext, {".pdf"})
  {
    assert forall i :: 0 <= i < |ext| ==> ext[i] != '.' by {
      forall i | 0 <= i < |ext| ensures ext[i] != '.' {
        assert AsciiLower(ext[i]) == "pdf"[i];
      }
    }
    ExtensionAfterStem(stem, ext);
    var e := "." + ext;
    assert Lower(e) == ".pdf" by {
      assert forall i :: 1 <= i < |e| ==> Lower(e)[i] == Lower(ext)[i - 1];
    }
  }

  /** With the default `{".pdf"}`, any other extension is dropped. */
  lemma DefaultDropsOtherExtension(stem: string, ext: string)
    requires exists i :: 0 <= i < |stem| && stem[i] != '.'
    requires forall i :: 0 <= i < |ext| ==> ext[i] != '.'
    requires Lower(ext) != "pdf"
    ensures !AllowedName(stem + "." + ext, {".pdf"})
  {
    ExtensionAfterStem(stem, ext);
    var e := "." + ext;
    assert Lower(e)[1..] == Lower(ext);
    assert ".pdf"[1..] == "pdf";
  }

  /** A name whose every "." comes before all its other characters has no extension: ".pdf" is not kept. */
  lemma DefaultDropsDotfile(name: string)
    requires forall i, j :: 0 <= i < j < |name| && name[j] == '.' ==> name[i] == '.'
    ensures !AllowedName(name, {".pdf"})
  {
  }

  // ---------------------------------------------------------------- the builder

  class BuildEmbeddings {
    const batchSize: int
    const allowedExt: set<string>
    /** Every batch the collection has received, in order. */
    var flushed: seq<Batch>

    constructor(batchSize: int, allowedExt: set<string>)
      ensures this.batchSize == batchSize && this.allowedExt == allowedExt && flushed == []
    {
      this.batchSize := batchSize;
      this.allowedExt := allowedExt;
      flushed := [];
    }

    /** `_iter_files` over a listing of (directory, file name) entries. */
    method IterFiles(entries: seq<(string, string)>) returns (paths: seq<string>)
      ensures paths == AllowedPaths(entries, allowedExt)
    {
      paths := [];
      for i := 0 to |entries|
        invariant paths == AllowedPaths(entries[..i], allowedExt)
      {
        var dir := entries[i].0;
        var f := entries[i].1;
        assert entries[..i + 1][..i] == entries[..i];
        if Lower(Extension(f)) in allowedExt {
          paths := paths + [PathJoin(dir, f)];
        }
      }
      assert entries[..|entries|] == entries;
    }

    /** `_count_total_pages`: a file that does not open counts as no pages. */
    method CountTotalPages(files: seq<SourceFile>) returns (total: nat)
      ensures total == TotalPages(files)
    {
      total := 0;
      for i := 0 to |files|
        invariant total == TotalPages(files[..i])
      {
        assert files[..i + 1][..i] == files[..i];
        match files[i].doc
        case Unreadable =>
        case Readable(texts) =>
          total := total + |texts|;
      }
      assert files[..|files|] == files;
    }

    /** `_iter_pages` for a file that opened. */
    method IterPages(texts: seq<string>) returns (pages: seq<(nat, string)>)
      ensures pages == PagesOf(texts)
    {
      pages := [];
      for i := 0 to |texts|
        invariant pages == PagesOf(texts[..i])
      {
        assert texts[..i + 1][..i] == texts[..i];
        var text := Strip(texts[i]);
        if text != [] {
          pages := pages + [(i + 1, text)];
        }
      }
      assert texts[..|texts|] == texts;
    }

    /** `_flush_batch`: the collection receives one more batch. */
    method FlushBatch(ids: seq<string>, docs: seq<string>, metas: seq<PageMetadata>)
      modifies this
      ensures flushed == old(flushed) + [Batch(ids, docs, metas)]
    {
      flushed := flushed + [Batch(ids, docs, metas)];
    }

    /**
     * Appends one record to the buffer and flushes the buffer when it reaches the
     * batch size: the buffer stays the rest of the records so far, and the collection
     * has received exactly their full batches.
     */
    method Accept(ghost done: seq<Record>, ghost before: seq<Batch>, rec: Record,
                  ids: seq<string>, docs: seq<string>, metas: seq<PageMetadata>)
      returns (ids': seq<string>, docs': seq<string>, metas': seq<PageMetadata>)
      requires batchSize != 0
      requires flushed == before + BatchesOf(FullChunks(done, FlushSize(batchSize)))
      requires BatchOf(Rest(done, FlushSize(batchSize))) == Batch(ids, docs, metas)
      modifies this
      ensures flushed == before + BatchesOf(FullChunks(done + [rec], FlushSize(batchSize)))
      ensures BatchOf(Rest(done + [rec], FlushSize(batchSize))) == Batch(ids', docs', metas')
    {
      ghost var k := FlushSize(batchSize);
      ghost var buffer := Rest(done, k);
      AcceptStep(done, rec, k);
      BatchOfSnoc(buffer, rec);
      ids', docs', metas' := ids + [rec.id], docs + [rec.doc], metas + [rec.meta];
      if |docs'| >= batchSize {
        AppendAssoc(before, BatchesOf(FullChunks(done, k)), [BatchOf(buffer + [rec])]);
        FlushBatch(ids', docs', metas');
        ids', docs', metas' := [], [], [];
      }
    }

    /**
     * The inner loop of `build` for one file that opened: each page's record joins the
     * buffer, which is flushed whenever it reaches the batch size.
     */
    method AddPages(file: SourceFile, pages: seq<(nat, string)>, ghost before: seq<Batch>, ghost sofar: seq<Record>,
                    done: nat, ids: seq<string>, docs: seq<string>, metas: seq<PageMetadata>)
      returns (done': nat, ids': seq<string>, docs': seq<string>, metas': seq<PageMetadata>)
      requires batchSize != 0 && done == |sofar|
      requires flushed == before + BatchesOf(FullChunks(sofar, FlushSize(batchSize)))
      requires BatchOf(Rest(sofar, FlushSize(batchSize))) == Batch(ids, docs, metas)
      modifies this
      ensures done' == |sofar + RecordsOf(file, pages)|
      ensures flushed == before + BatchesOf(FullChunks(sofar + RecordsOf(file, pages), FlushSize(batchSize)))
      ensures BatchOf(Rest(sofar + RecordsOf(file, pages), FlushSize(batchSize))) == Batch(ids', docs', metas')
    {
      ghost var k := FlushSize(batchSize);
      ghost var cur := sofar;
      done', ids', docs', metas' := done, ids, docs, metas;
      for j := 0 to |pages|
        invariant cur == sofar + RecordsOf(file, pages[..j]) && done' == |cur|
        invariant flushed == before + BatchesOf(FullChunks(cur, k))
        invariant BatchOf(Rest(cur, k)) == Batch(ids', docs', metas')
      {
        var rec := RecordOf(file, pages[j]);
        ids', docs', metas' := Accept(cur, before, rec, ids', docs', metas');
        RecordsOfSnoc(file, pages, j);
        AppendAssoc(sofar, RecordsOf(file, pages[..j]), [rec]);
        cur := cur + [rec];
        done' := done' + 1;
      }
      assert pages[..|pages|] == pages;
    }

    /**
     * The pass of `build` over the files: it ends as IndexPass does, having flushed the
     * full batches of the records produced and holding the rest in its buffer.
     */
    method IndexFiles(files: seq<SourceFile>, ghost before: seq<Batch>)
      returns (stop: Option<PyError>, done: nat, ids: seq<string>, docs: seq<string>, metas: seq<PageMetadata>)
      requires flushed == before
      modifies this
      ensures stop == IndexPass(files, batchSize).stop
      ensures done == |IndexPass(files, batchSize).records|
      ensures flushed == before + BatchesOf(FullChunks(IndexPass(files, batchSize).records, FlushSize(batchSize)))
      ensures BatchOf(Rest(IndexPass(files, batchSize).records, FlushSize(batchSize))) == Batch(ids, docs, metas)
    {
      ghost var k := FlushSize(batchSize);
      done, ids, docs, metas := 0, [], [], [];
      ghost var sofar: seq<Record> := [];
      for fi := 0 to |files|
        invariant IndexPass(files[..fi], batchSize) == Pass(None, sofar) && done == |sofar|
        invariant flushed == before + BatchesOf(FullChunks(sofar, k))
        invariant BatchOf(Rest(sofar, k)) == Batch(ids, docs, metas)
      {
        IndexPassStep(files, batchSize, fi);
        var file := files[fi];
        if file.doc.Unreadable? {
          IndexPassSticky(files, batchSize, fi + 1, |files|);
          assert files[..|files|] == files;
          return Some(ReadError), done, ids, docs, metas;
        }
        var pages := IterPages(file.doc.pageTexts);
        if batchSize == 0 && pages != [] {
          IndexPassSticky(files, batchSize, fi + 1, |files|);
          assert files[..|files|] == files;
          return Some(ZeroDivisionError), done, ids, docs, metas;
        }
        if batchSize != 0 {
          done, ids, docs, metas := AddPages(file, pages, before, sofar, done, ids, docs, metas);
          sofar := sofar + RecordsOf(file, pages);
        } else {
          assert sofar + RecordsOf(file, pages) == sofar;
        }
      }
      assert files[..|files|] == files;
      stop := None;
    }

    /**
     * `build`: the return value is BuildResult, and the collection receives exactly
     * BuildFlushes, in order.
     */
    method Build(files: seq<SourceFile>) returns (r: Result<nat, PyError>)
      modifies this
      ensures r == BuildResult(files, batchSize)
      ensures flushed == old(flushed) + BuildFlushes(files, batchSize)
    {
      var total := CountTotalPages(files);
      if total == 0 {
        return Ok(0);
      }
      var stop, done, ids, docs, metas := IndexFiles(files, flushed);
      if stop.Some? {
        return Err(stop.value);
      }
      ghost var records := IndexPass(files, batchSize).records;
      FinalFlush(records, FlushSize(batchSize), ids, docs, metas);
      if docs != [] {
        AppendAssoc(old(flushed), BatchesOf(FullChunks(records, FlushSize(batchSize))), [Batch(ids, docs, metas)]);
        FlushBatch(ids, docs, metas);
      }
      return Ok(done);
    }
  }

  // ---------------------------------------------------------------- helpers for Build

  /** The batches of all records are the full ones, then the buffer's contents if any. */
  lemma FinalFlush(records: seq<Record>, k: nat, ids: seq<string>, docs: seq<string>, metas: seq<PageMetadata>)
    requires k >= 1 && BatchOf(Rest(records, k)) == Batch(ids, docs, metas)
    ensures docs == [] ==> BatchesOf(Batches(records, k)) == BatchesOf(FullChunks(records, k))
    ensures docs != [] ==> BatchesOf(Batches(records, k)) == BatchesOf(FullChunks(records, k)) + [Batch(ids, docs, metas)]
  {
    BatchesOfAppend(FullChunks(records, k), if Rest(records, k) == [] then [] else [Rest(records, k)]);
  }

  lemma RecordsOfSnoc(f: SourceFile, pages: seq<(nat, string)>, j: nat)
    requires j < |pages|
    ensures RecordsOf(f, pages[..j + 1]) == RecordsOf(f, pages[..j]) + [RecordOf(f, pages[j])]
  {
    assert pages[..j + 1][..j] == pages[..j];
  }
}
