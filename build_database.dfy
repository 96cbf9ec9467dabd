/**
 * The database build (build_database.py): each readable PDF text is cut into
 * overlapping fixed-size windows, every window is prefixed with the paper's
 * title, and the enriched chunks are numbered and handed to the vector store
 * in batches of 500.
 *
 * Reading the PDFs, computing the embeddings and the store's persistence are
 * not modelled: a file arrives as its name and its text (`None` when it could
 * not be read), and the store keeps the ids, documents and metadata it is given.
 */
module BuildDatabase {
  import opened Wrappers
  import opened Text
  import opened Sequences
  import TitleExtraction

  // ---------------------------------------------------------------------------
  // Chunking
  // ---------------------------------------------------------------------------

  const ChunkSize: nat := 3000
  const Overlap: nat := 200

  /**
   * The windows `xs[i:i+size]` for `i` in `range(start, len(xs), step)`;
   * Python's slice clips the end at the length of the list.
   */
  function Windows<T>(xs: seq<T>, size: nat, step: nat, start: nat): seq<seq<T>>
    requires step > 0
    decreases |xs| - start
  {
    if start >= |xs| then []
    else [xs[start..Min(start + size, |xs|)]] + Windows(xs, size, step, start + step)
  }

  /** `chunking(full_text, chunk_size, overlap)`: windows of `size` characters, `size - overlap` apart. */
  function Chunking(text: string, size: nat, overlap: nat): seq<string>
    requires overlap < size
  {
    Windows(text, size, size - overlap, 0)
  }

  /**
   * The number `n` of windows from `start` on is the least with
   * `start + n * step >= |xs|`.
   */
  lemma {:induction false} WindowsCount<T>(xs: seq<T>, size: nat, step: nat, start: nat)
    requires step > 0
    ensures var n := |Windows(xs, size, step, start)|;
      (start >= |xs| ==> n == 0) &&
      (start < |xs| ==> n >= 1 && start + (n - 1) * step < |xs| <= start + n * step)
    decreases |xs| - start
  {
    if start < |xs| {
      WindowsCount(xs, size, step, start + step);
      var m := |Windows(xs, size, step, start + step)|;
      assert m * step == (m - 1) * step + step;
    }
  }

  /** Window `k` from `start` is the slice from `start + k * step` of length `size`, or up to the end of the list. */
  lemma {:induction false} WindowsAt<T>(xs: seq<T>, size: nat, step: nat, start: nat, k: nat)
    requires step > 0
    requires k < |Windows(xs, size, step, start)|
    ensures start + k * step < |xs|
    ensures Windows(xs, size, step, start)[k] == xs[start + k * step..Min(start + k * step + size, |xs|)]
    ensures size > 0 ==> 0 < |Windows(xs, size, step, start)[k]| <= size
    decreases k
  {
    if k > 0 {
      WindowsAt(xs, size, step, start + step, k - 1);
      assert start + step + (k - 1) * step == start + k * step;
    }
  }

  /**
   * The number of chunks is the ceiling of `|text| / (size - overlap)`; empty
   * text gives no chunks.
   */
  lemma ChunkingCount(text: string, size: nat, overlap: nat)
    requires overlap < size
    ensures var n := |Chunking(text, size, overlap)|;
      var step := size - overlap;
      n == (|text| + step - 1) / step &&
      (n == 0 <==> text == [])
  {
    var step := size - overlap;
    var n := |Chunking(text, size, overlap)|;
    WindowsCount(text, size, step, 0);
    if text != [] {
      var r := |text| + step - 1 - n * step;
      assert 0 <= r < step;
      assert |text| + step - 1 == n * step + r;
      DivUnique(|text| + step - 1, step, n, r);
    }
  }

  lemma MulStrict(x: int, y: int, b: int)
    requires b > 0
    ensures x < y ==> x * b + b <= y * b
  {
    if x < y {
      var d := y - x;
      assert y * b == x * b + d * b;
      assert d * b >= b;
    }
  }

  lemma DivUnique(a: int, b: int, q: int, r: int)
    requires b > 0 && 0 <= r < b && a == q * b + r
    ensures a / b == q
  {
    var q' := a / b;
    assert a == q' * b + a % b;
    MulStrict(q, q', b);
    MulStrict(q', q, b);
  }

  /** Chunk `k` is `text[k*step : k*step + size]`, clipped at the end of the text. */
  lemma ChunkAt(text: string, size: nat, overlap: nat, k: nat)
    requires overlap < size
    requires k < |Chunking(text, size, overlap)|
    ensures var step := size - overlap;
      k * step < |text| &&
      Chunking(text, size, overlap)[k] == text[k * step..Min(k * step + size, |text|)]
  {
    WindowsAt(text, size, size - overlap, 0, k);
  }

  /** Every chunk is non-empty and at most `size` characters long. */
  lemma ChunkLength(text: string, size: nat, overlap: nat, k: nat)
    requires overlap < size
    requires k < |Chunking(text, size, overlap)|
    ensures 0 < |Chunking(text, size, overlap)[k]| <= size
  {
    WindowsAt(text, size, size - overlap, 0, k);
  }

  /** Every character of the text lies in some chunk. */
  lemma ChunkingCovers(text: string, size: nat, overlap: nat, i: nat)
    requires overlap < size && i < |text|
    ensures var step := size - overlap;
      exists k :: 0 <= k < |Chunking(text, size, overlap)| && k * step <= i < k * step + size
  {
    var step := size - overlap;
    var n := |Chunking(text, size, overlap)|;
    WindowsCount(text, size, step, 0);
    var k := WindowCovering(i, step, size, n);
  }

  /** A position below `n * step` lies in one of the first `n` windows of `size` that start `step` apart. */
  lemma WindowCovering(i: nat, step: nat, size: nat, n: nat) returns (k: nat)
    requires 0 < step <= size && i < n * step
    ensures k < n && k * step <= i < k * step + size
  {
    k := i / step;
    DivBounds(i, step, n);
  }

  /** Below `n * step`, the quotient by `step` is below `n` and brackets the dividend. */
  lemma DivBounds(i: nat, step: nat, n: nat)
    requires step > 0 && i < n * step
    ensures i / step < n && (i / step) * step <= i < (i / step) * step + step
  {
    var k := i / step;
    assert i == k * step + i % step;
    MulStrict(n - 1, k, step);
    assert n * step == (n - 1) * step + step;
  }

  /** The last chunk runs to the end of the text. */
  lemma LastChunkEnds(text: string, size: nat, overlap: nat)
    requires overlap < size && text != []
    ensures var cs := Chunking(text, size, overlap);
      var step := size - overlap;
      cs != [] && (|cs| - 1) * step < |text| && cs[|cs| - 1] == text[(|cs| - 1) * step..]
  {
    var step := size - overlap;
    var cs := Chunking(text, size, overlap);
    WindowsCount(text, size, step, 0);
    var n := |cs|;
    WindowsAt(text, size, step, 0, n - 1);
    assert n * step == (n - 1) * step + step;
  }

  /** Consecutive windows `step` apart share `size - step` elements when the first has full length. */
  lemma WindowsOverlap<T>(xs: seq<T>, size: nat, step: nat, start: nat, k: nat)
    requires 0 < step <= size
    requires k + 1 < |Windows(xs, size, step, start)|
    requires |Windows(xs, size, step, start)[k]| == size
    ensures var cs := Windows(xs, size, step, start);
      size - step <= |cs[k + 1]| && cs[k][step..] == cs[k + 1][..size - step]
  {
    var cs := Windows(xs, size, step, start);
    WindowsAt(xs, size, step, start, k);
    WindowsAt(xs, size, step, start, k + 1);
    MulSucc(k, step);
    var a := start + k * step;
    SliceOverlap(xs, a, step, size);
  }

  lemma MulSucc(k: nat, step: nat)
    ensures 0 <= k * step && (k + 1) * step == k * step + step
  {
  }

  /** A full slice of `size` from `a`, less its first `step` elements, begins the slice from `a + step`. */
  lemma SliceOverlap<T>(xs: seq<T>, a: int, step: nat, size: nat)
    requires 0 <= a && step <= size && a + size <= |xs|
    ensures var next := xs[a + step..Min(a + step + size, |xs|)];
      size - step <= |next| && xs[a..a + size][step..] == next[..size - step]
  {
    var e := Min(a + step + size, |xs|);
    assert a + size <= e;
    var next := xs[a + step..e];
    assert xs[a..a + size][step..] == xs[a + step..a + size];
    assert next[..size - step] == xs[a + step..a + size];
  }

  /**
   * A chunk of full length shares its last `overlap` characters with the
   * first `overlap` characters of the next chunk.
   */
  lemma ChunkOverlap(text: string, size: nat, overlap: nat, k: nat)
    requires overlap < size
    requires k + 1 < |Chunking(text, size, overlap)|
    requires |Chunking(text, size, overlap)[k]| == size
    ensures var cs := Chunking(text, size, overlap);
      overlap <= |cs[k + 1]| && cs[k][size - overlap..] == cs[k + 1][..overlap]
  {
    WindowsOverlap(text, size, size - overlap, 0, k);
  }

  /**
   * When the chunk before the last already runs to the end of the text, the
   * last chunk lies wholly inside it, as its tail past the first
   * `size - overlap` characters: a 2900-character text gives `text[0:2900]`
   * and `text[2800:2900]`.
   */
  lemma LastChunkInside(text: string, size: nat, overlap: nat, k: nat)
    requires overlap < size && k + 2 == |Chunking(text, size, overlap)|
    requires |text| <= k * (size - overlap) + size
    ensures var cs, step := Chunking(text, size, overlap), size - overlap;
      k * step + step <= |text| && cs[k] == text[k * step..] && cs[k + 1] == cs[k][step..]
  {
    var cs, step := Chunking(text, size, overlap), size - overlap;
    ChunkAt(text, size, overlap, k);
    LastChunkEnds(text, size, overlap);
    MulSucc(k, step);
    assert Min(k * step + size, |text|) == |text|;
  }

  // ---------------------------------------------------------------------------
  // Enrichment and the ingestion loop
  // ---------------------------------------------------------------------------

  /** An entry of the title cache: the JSON object stored for a file, with or without a `title` key. */
  datatype CacheEntry = CacheEntry(title: Option<string>)

  /** A PDF file of the folder: its name and its text, `None` when it could not be read. */
  datatype PdfFile = PdfFile(name: string, text: Option<string>)

  /** The metadata stored beside each chunk. */
  datatype Metadata = Metadata(source: string, title: string)

  /** `titles_cache.get(pdf_file, {}).get('title', pdf_file)`: the cached title, else the file name. */
  function TitleFor(cache: map<string, CacheEntry>, file: string): string {
    if file in cache && cache[file].title.Some? then cache[file].title.value else file
  }

  /**
   * `paper_titles.json` as the title run leaves it, read back: every file's
   * record, whose `title` key the lookup reads.
   */
  function CacheOf(titles: map<string, TitleExtraction.TitleRecord>): (cache: map<string, CacheEntry>)
    ensures cache.Keys == titles.Keys
  {
    map f | f in titles :: CacheEntry(Some(titles[f].title))
  }

  /**
   * With the cache the title run over `papers` writes, a file gets the title
   * resolved for its last occurrence in that run.
   */
  lemma TitleForExtracted(papers: seq<TitleExtraction.Paper>, resolve: TitleExtraction.Paper -> TitleExtraction.Titled, i: nat)
    requires i < |papers|
    requires forall j :: i < j < |papers| ==> papers[j].filename != papers[i].filename
    ensures TitleFor(CacheOf(TitleExtraction.TitleMap(papers, resolve)), papers[i].filename) == resolve(papers[i]).title
  {
    TitleExtraction.TitleMapLastWins(papers, resolve, i);
  }

  /** A file the title run did not see is titled by its own name. */
  lemma TitleForUnlisted(papers: seq<TitleExtraction.Paper>, resolve: TitleExtraction.Paper -> TitleExtraction.Titled, file: string)
    requires forall j :: 0 <= j < |papers| ==> papers[j].filename != file
    ensures TitleFor(CacheOf(TitleExtraction.TitleMap(papers, resolve)), file) == file
  {
    TitleExtraction.TitleMapSpec(papers, resolve);
  }

  const TitlePrefix: string := "Paper Title: "
  const TitleSeparator: string := "\n\n"

  /** `f"Paper Title: {title}\n\n{chunk}"` */
  function Enrich(title: string, chunk: string): string {
    TitlePrefix + title + TitleSeparator + chunk
  }

  /**
   * An enriched chunk is the prefix, the title, a blank line and the chunk,
   * so the title and the chunk can be read back from it.
   */
  lemma EnrichParts(title: string, chunk: string)
    ensures var e := Enrich(title, chunk);
      var n := |TitlePrefix| + |title|;
      |e| == n + 2 + |chunk| &&
      e[..|TitlePrefix|] == TitlePrefix && e[|TitlePrefix|..n] == title &&
      e[n..n + 2] == TitleSeparator && e[n + 2..] == chunk
  {
    var e := Enrich(title, chunk);
    assert e == ((TitlePrefix + title) + TitleSeparator) + chunk;
  }

  /** Under one title, distinct chunks give distinct enriched chunks. */
  lemma EnrichInjective(title: string, c1: string, c2: string)
    requires Enrich(title, c1) == Enrich(title, c2)
    ensures c1 == c2
  {
    EnrichParts(title, c1);
    EnrichParts(title, c2);
  }

  /** The chunks of a file: none when its text is missing or empty (`if document_text:`). */
  function FileChunks(f: PdfFile): seq<string> {
    if f.text.Some? && f.text.value != [] then Chunking(f.text.value, ChunkSize, Overlap) else []
  }

  /** A file with a chunk has a non-empty text. */
  lemma ChunksOfReadable(f: PdfFile)
    requires FileChunks(f) != []
    ensures f.text.Some? && f.text.value != []
  {
  }

  /** The enriched chunks of one file, in order. */
  function EnrichAll(title: string, chunks: seq<string>): (r: seq<string>)
    ensures |r| == |chunks|
    ensures forall k :: 0 <= k < |chunks| ==> r[k] == Enrich(title, chunks[k])
  {
    if chunks == [] then []
    else EnrichAll(title, chunks[..|chunks| - 1]) + [Enrich(title, chunks[|chunks| - 1])]
  }

  /** `n` copies of `x`. */
  function Copies<T>(x: T, n: nat): (r: seq<T>)
    ensures |r| == n
    ensures forall k :: 0 <= k < n ==> r[k] == x
  {
    if n == 0 then [] else Copies(x, n - 1) + [x]
  }

  /** The enriched chunks one file contributes. */
  function FileEntries(cache: map<string, CacheEntry>, f: PdfFile): seq<string> {
    EnrichAll(TitleFor(cache, f.name), FileChunks(f))
  }

  /** The metadata records one file contributes, one per chunk. */
  function FileMetadata(cache: map<string, CacheEntry>, f: PdfFile): seq<Metadata> {
    Copies(Metadata(f.name, TitleFor(cache, f.name)), |FileChunks(f)|)
  }

  function EntriesOf(cache: map<string, CacheEntry>): PdfFile -> seq<string> {
    f => FileEntries(cache, f)
  }

  function MetadataOf(cache: map<string, CacheEntry>): PdfFile -> seq<Metadata> {
    f => FileMetadata(cache, f)
  }

  /** `all_chunks` after the loop over the files. */
  function AllChunks(files: seq<PdfFile>, cache: map<string, CacheEntry>): seq<string> {
    Gather(files, EntriesOf(cache))
  }

  /** `metadatas` after the loop over the files. */
  function AllMetadata(files: seq<PdfFile>, cache: map<string, CacheEntry>): seq<Metadata> {
    Gather(files, MetadataOf(cache))
  }

  /** The inner loop of `__main__`: one enriched chunk and one metadata record per chunk of a file. */
  method EnrichFile(name: string, title: string, chunks: seq<string>)
    returns (enriched: seq<string>, metas: seq<Metadata>)
    ensures enriched == EnrichAll(title, chunks)
    ensures metas == Copies(Metadata(name, title), |chunks|)
  {
    enriched := [];
    metas := [];
    for k := 0 to |chunks|
      invariant enriched == EnrichAll(title, chunks[..k])
      invariant metas == Copies(Metadata(name, title), k)
    {
      assert chunks[..k + 1][..k] == chunks[..k];
      enriched := enriched + [Enrich(title, chunks[k])];
      metas := metas + [Metadata(name, title)];
    }
    assert chunks[..|chunks|] == chunks;
  }

  /** The loop of `__main__` that chunks every readable file and records each chunk with its metadata. */
  method Ingest(files: seq<PdfFile>, cache: map<string, CacheEntry>)
    returns (allChunks: seq<string>, metadatas: seq<Metadata>)
    ensures allChunks == AllChunks(files, cache)
    ensures metadatas == AllMetadata(files, cache)
  {
    allChunks := [];
    metadatas := [];
    for i := 0 to |files|
      invariant allChunks == AllChunks(files[..i], cache)
      invariant metadatas == AllMetadata(files[..i], cache)
    {
      assert files[..i + 1][..i] == files[..i];
      var f := files[i];
      if f.text.Some? && f.text.value != [] {
        var chunks := Chunking(f.text.value, ChunkSize, Overlap);
        var title := TitleFor(cache, f.name);
        var enriched, metas := EnrichFile(f.name, title, chunks);
        allChunks := allChunks + enriched;
        metadatas := metadatas + metas;
      }
    }
    assert files[..|files|] == files;
  }

  /**
   * Entry `j` of the two lists came from chunk `k` of file `i`, a file whose
   * text was read and is not empty: the chunk is that chunk enriched with the
   * file's title, and the metadata names the file and that title.
   */
  predicate Origin(files: seq<PdfFile>, cache: map<string, CacheEntry>,
                   chunks: seq<string>, metas: seq<Metadata>, j: int, i: int, k: int)
  {
    0 <= i < |files| && files[i].text.Some? && files[i].text.value != [] &&
    0 <= k < |FileChunks(files[i])| &&
    0 <= j < |chunks| && j < |metas| &&
    chunks[j] == Enrich(TitleFor(cache, files[i].name), FileChunks(files[i])[k]) &&
    metas[j] == Metadata(files[i].name, TitleFor(cache, files[i].name))
  }

  /** The chunk list and the metadata list stay in lockstep. */
  lemma IngestLockstep(files: seq<PdfFile>, cache: map<string, CacheEntry>)
    ensures |AllChunks(files, cache)| == |AllMetadata(files, cache)|
  {
    var p, q := EntriesOf(cache), MetadataOf(cache);
    forall i | 0 <= i < |files| ensures |p(files[i])| == |q(files[i])| {
      assert p(files[i]) == FileEntries(cache, files[i]);
      assert q(files[i]) == FileMetadata(cache, files[i]);
    }
    GatherLockstep(files, p, q);
  }

  /** Chunk `k` of file `i`, enriched, follows the enriched chunks of the files before it. */
  lemma ChunkEntryAt(files: seq<PdfFile>, cache: map<string, CacheEntry>, i: nat, k: nat)
    requires i < |files| && k < |FileChunks(files[i])|
    ensures var j := |AllChunks(files[..i], cache)| + k;
      j < |AllChunks(files, cache)| &&
      AllChunks(files, cache)[j] == Enrich(TitleFor(cache, files[i].name), FileChunks(files[i])[k])
  {
    var f, p := files[i], EntriesOf(cache);
    var j := |AllChunks(files[..i], cache)| + k;
    FileEntryAt(cache, f, k);
    assert AllChunks(files[..i], cache) == Gather(files[..i], p);
    assert AllChunks(files, cache) == Gather(files, p);
    GatherAt(files, p, i, k);
    assert AllChunks(files, cache)[j] == p(f)[k];
  }

  /** A file's contribution to the chunk list is its enriched chunks. */
  lemma FileEntryAt(cache: map<string, CacheEntry>, f: PdfFile, k: nat)
    requires k < |FileChunks(f)|
    ensures k < |EntriesOf(cache)(f)| && EntriesOf(cache)(f)[k] == Enrich(TitleFor(cache, f.name), FileChunks(f)[k])
  {
    assert EntriesOf(cache)(f) == EnrichAll(TitleFor(cache, f.name), FileChunks(f));
  }

  /** A file's contribution to the metadata list is one record per chunk. */
  lemma FileMetadataAt(cache: map<string, CacheEntry>, f: PdfFile, k: nat)
    requires k < |FileChunks(f)|
    ensures k < |MetadataOf(cache)(f)| && MetadataOf(cache)(f)[k] == Metadata(f.name, TitleFor(cache, f.name))
  {
    assert MetadataOf(cache)(f) == Copies(Metadata(f.name, TitleFor(cache, f.name)), |FileChunks(f)|);
  }

  /** The metadata of chunk `k` of file `i` follows the metadata of the files before it. */
  lemma MetadataEntryAt(files: seq<PdfFile>, cache: map<string, CacheEntry>, i: nat, k: nat)
    requires i < |files| && k < |FileChunks(files[i])|
    ensures var j := |AllMetadata(files[..i], cache)| + k;
      j < |AllMetadata(files, cache)| &&
      AllMetadata(files, cache)[j] == Metadata(files[i].name, TitleFor(cache, files[i].name))
  {
    var f, q := files[i], MetadataOf(cache);
    var j := |AllMetadata(files[..i], cache)| + k;
    FileMetadataAt(cache, f, k);
    assert AllMetadata(files[..i], cache) == Gather(files[..i], q);
    assert AllMetadata(files, cache) == Gather(files, q);
    GatherAt(files, q, i, k);
    assert AllMetadata(files, cache)[j] == q(f)[k];
  }

  /** Chunk `k` of file `i` is entry `j` of both lists, where `j` counts the chunks of the files before it. */
  lemma IngestAt(files: seq<PdfFile>, cache: map<string, CacheEntry>, i: nat, k: nat)
    requires i < |files| && k < |FileChunks(files[i])|
    ensures Origin(files, cache, AllChunks(files, cache), AllMetadata(files, cache),
                   |AllChunks(files[..i], cache)| + k, i, k)
  {
    ChunkEntryAt(files, cache, i, k);
    MetadataEntryAt(files, cache, i, k);
    IngestLockstep(files[..i], cache);
    ChunksOfReadable(files[i]);
  }

  /** Every entry comes from a chunk of a readable file and carries that file's name and title. */
  lemma IngestPairing(files: seq<PdfFile>, cache: map<string, CacheEntry>, j: nat)
    requires j < |AllChunks(files, cache)|
    ensures exists i, k :: Origin(files, cache, AllChunks(files, cache), AllMetadata(files, cache), j, i, k)
  {
    GatherSource(files, EntriesOf(cache), j);
    var i, k :| GatheredFrom(files, EntriesOf(cache), j, i, k);
    OriginOfGathered(files, cache, j, i, k);
  }

  /** An entry of the chunk list gathered from chunk `k` of file `i` has that origin. */
  lemma OriginOfGathered(files: seq<PdfFile>, cache: map<string, CacheEntry>, j: int, i: int, k: int)
    requires GatheredFrom(files, EntriesOf(cache), j, i, k)
    ensures Origin(files, cache, AllChunks(files, cache), AllMetadata(files, cache), j, i, k)
  {
    assert EntriesOf(cache)(files[i]) == FileEntries(cache, files[i]);
    IngestAt(files, cache, i, k);
  }

  /** Every chunk of every readable file is in the lists, beside its metadata. */
  lemma IngestComplete(files: seq<PdfFile>, cache: map<string, CacheEntry>, i: nat, k: nat)
    requires i < |files| && k < |FileChunks(files[i])|
    ensures exists j :: Origin(files, cache, AllChunks(files, cache), AllMetadata(files, cache), j, i, k)
  {
    IngestAt(files, cache, i, k);
  }

  // ---------------------------------------------------------------------------
  // Ids, batches and the vector store
  // ---------------------------------------------------------------------------

  /** No element occurs twice. */
  predicate Distinct<T(==)>(xs: seq<T>) {
    forall a, b :: 0 <= a < |xs| && 0 <= b < |xs| && a != b ==> xs[a] != xs[b]
  }

  /**
   * `[str(i) for i in range(n)]`: one id per chunk, id `a` the decimal
   * numeral of `a`, so the ids are pairwise distinct.
   */
  function ChunkIds(n: nat): (ids: seq<string>)
    ensures |ids| == n
    ensures forall a :: 0 <= a < n ==> AllDigits(ids[a]) && DecimalValue(ids[a]) == a
    ensures Distinct(ids)
  {
    NatToStringValues();
    seq(n, i requires 0 <= i < n => NatToString(i))
  }

  const BatchSize: nat := 500

  /** The slices `xs[i:i+500]` for `i` in `range(0, len(xs), 500)`. */
  function Batches<T>(xs: seq<T>): seq<seq<T>> {
    Windows(xs, BatchSize, BatchSize, 0)
  }

  function Concat<T>(parts: seq<seq<T>>): seq<T> {
    if parts == [] then [] else parts[0] + Concat(parts[1..])
  }

  /** Windows as far apart as they are long cut the list into consecutive pieces. */
  lemma {:induction false} WindowsPartition<T>(xs: seq<T>, size: nat, start: nat)
    requires size > 0 && start <= |xs|
    ensures Concat(Windows(xs, size, size, start)) == xs[start..]
    decreases |xs| - start
  {
    if start < |xs| {
      var ws := Windows(xs, size, size, start);
      if start + size < |xs| {
        WindowsPartition(xs, size, start + size);
        assert ws[1..] == Windows(xs, size, size, start + size);
        assert xs[start..] == xs[start..start + size] + xs[start + size..];
      } else {
        assert ws[1..] == Windows(xs, size, size, start + size) == [];
        assert Min(start + size, |xs|) == |xs|;
        assert ws[0] == xs[start..];
        assert Concat(ws) == ws[0] + Concat(ws[1..]);
      }
    }
  }

  /**
   * The batches partition the list in order: their concatenation is the list,
   * there are `ceil(n / 500)` of them, and each holds between 1 and 500 elements,
   * batch `b` starting at `500 * b`.
   */
  lemma BatchesPartition<T>(xs: seq<T>)
    ensures Concat(Batches(xs)) == xs
    ensures |Batches(xs)| == (|xs| + BatchSize - 1) / BatchSize
    ensures forall b :: 0 <= b < |Batches(xs)| ==>
      b * BatchSize < |xs| &&
      Batches(xs)[b] == xs[b * BatchSize..Min(b * BatchSize + BatchSize, |xs|)] &&
      0 < |Batches(xs)[b]| <= BatchSize
  {
    WindowsPartition(xs, BatchSize, 0);
    WindowsCount(xs, BatchSize, BatchSize, 0);
    var n := |Batches(xs)|;
    if xs != [] {
      var r := |xs| + BatchSize - 1 - n * BatchSize;
      DivUnique(|xs| + BatchSize - 1, BatchSize, n, r);
    }
    forall b | 0 <= b < n
      ensures b * BatchSize < |xs|
      ensures Batches(xs)[b] == xs[b * BatchSize..Min(b * BatchSize + BatchSize, |xs|)]
      ensures 0 < |Batches(xs)[b]| <= BatchSize
    {
      WindowsAt(xs, BatchSize, BatchSize, 0, b);
    }
  }

  /** No element of `ys` occurs in `xs`. */
  predicate Disjoint<T(==)>(ys: seq<T>, xs: seq<T>) {
    forall k :: 0 <= k < |ys| ==> ys[k] !in xs
  }

  /** Appending fresh elements without repeats to a list without repeats leaves none. */
  lemma DistinctAppend<T>(xs: seq<T>, ys: seq<T>)
    requires Distinct(xs) && Distinct(ys) && Disjoint(ys, xs)
    ensures Distinct(xs + ys)
  {
    var zs := xs + ys;
    forall a, b | 0 <= a < |zs| && 0 <= b < |zs| && a != b ensures zs[a] != zs[b] {
      if a < |xs| && b >= |xs| {
        assert zs[b] == ys[b - |xs|];
      } else if a >= |xs| && b < |xs| {
        assert zs[a] == ys[a - |xs|];
      }
    }
  }

  /** A longer prefix is the shorter one followed by the slice between them. */
  lemma PrefixExtend<T>(xs: seq<T>, i: nat, end: nat)
    requires i <= end <= |xs|
    ensures xs[..end] == xs[..i] + xs[i..end]
  {
  }

  /**
   * A batch `ids[i..end]` of ids without repeats, none of them stored before,
   * is free of repeats and disjoint from what the earlier batches stored.
   */
  lemma FreshBatch<T>(stored: seq<T>, ids: seq<T>, i: nat, end: nat)
    requires Distinct(ids) && Disjoint(ids, stored)
    requires i <= end <= |ids|
    ensures Distinct(ids[i..end])
    ensures Disjoint(ids[i..end], stored + ids[..i])
  {
    forall k | 0 <= k < end - i ensures ids[i..end][k] !in stored + ids[..i] {
      assert ids[i..end][k] == ids[i + k];
    }
  }

  /**
   * The vector store's collection: what `add` has been given. Embeddings are
   * not modelled.
   */
  class Collection {
    var ids: seq<string>
    var documents: seq<string>
    var metadatas: seq<Metadata>

    /** The three lists describe the same entries, and no id names two of them. */
    predicate Valid()
      reads this
    {
      |ids| == |documents| == |metadatas| && Distinct(ids)
    }

    constructor ()
      ensures Valid() && ids == [] && documents == [] && metadatas == []
    {
      ids, documents, metadatas := [], [], [];
    }

    /** `collection.add(ids=..., documents=..., metadatas=...)` with distinct ids the collection does not hold yet */
    method Add(newIds: seq<string>, docs: seq<string>, metas: seq<Metadata>)
      requires Valid() && |newIds| == |docs| == |metas|
      requires Distinct(newIds) && Disjoint(newIds, ids)
      modifies this
      ensures Valid()
      ensures ids == old(ids) + newIds && documents == old(documents) + docs && metadatas == old(metadatas) + metas
    {
      DistinctAppend(ids, newIds);
      ids := ids + newIds;
      documents := documents + docs;
      metadatas := metadatas + metas;
    }
  }

  /**
   * The loop over `range(0, len(all_chunks), 500)` that adds one slice of the
   * ids, documents and metadata per step; it returns the number of batches.
   */
  method AddInBatches(c: Collection, ids: seq<string>, docs: seq<string>, metas: seq<Metadata>)
    returns (batches: nat)
    requires c.Valid() && |ids| == |docs| == |metas|
    requires Distinct(ids) && Disjoint(ids, c.ids)
    modifies c
    ensures c.Valid()
    ensures c.ids == old(c.ids) + ids
    ensures c.documents == old(c.documents) + docs
    ensures c.metadatas == old(c.metadatas) + metas
    ensures batches == |Batches(docs)|
  {
    var n := |docs|;
    var i := 0;
    batches := 0;
    while i < n
      invariant i <= n || (n > 0 && i < n + BatchSize)
      invariant c.Valid()
      invariant Disjoint(ids, old(c.ids))
      invariant c.ids == old(c.ids) + ids[..Min(i, n)]
      invariant c.documents == old(c.documents) + docs[..Min(i, n)]
      invariant c.metadatas == old(c.metadatas) + metas[..Min(i, n)]
      invariant |Batches(docs)| == batches + |Windows(docs, BatchSize, BatchSize, i)|
      decreases n - i
    {
      var end := Min(i + BatchSize, n);
      FreshBatch(old(c.ids), ids, i, end);
      c.Add(ids[i..end], docs[i..end], metas[i..end]);
      PrefixExtend(ids, i, end);
      PrefixExtend(docs, i, end);
      PrefixExtend(metas, i, end);
      i := i + BatchSize;
      batches := batches + 1;
      assert Min(i, n) == end;
    }
    assert ids[..n] == ids && docs[..n] == docs && metas[..n] == metas;
  }

  /**
   * `__main__` after the titles are loaded: ingest the files, number the
   * chunks and add everything to the collection in batches.
   */
  method Build(files: seq<PdfFile>, cache: map<string, CacheEntry>, c: Collection)
    requires c.Valid()
    requires forall a :: 0 <= a < |AllChunks(files, cache)| ==> NatToString(a) !in c.ids
    modifies c
    ensures c.Valid()
    ensures c.documents == old(c.documents) + AllChunks(files, cache)
    ensures c.metadatas == old(c.metadatas) + AllMetadata(files, cache)
    ensures c.ids == old(c.ids) + ChunkIds(|AllChunks(files, cache)|)
  {
    var allChunks, metadatas := Ingest(files, cache);
    IngestLockstep(files, cache);
    var chunkIds := ChunkIds(|allChunks|);
    var batches := AddInBatches(c, chunkIds, allChunks, metadatas);
  }
}
