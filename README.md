# AI Research Assistant — a Dafny model of its title, ingestion and retrieval logic

The repository is a retrieval-augmented question-answering service over a folder of
research papers. This project models its three pieces of sequential logic and proves
what they promise:

- **Title resolution** (`title_extraction.py`, module `TitleExtraction`). Each PDF
  gets a title from the first strategy that succeeds:
  - the arXiv id at the start of the file name, looked up in arXiv;
  - the PDF metadata title, within a length window;
  - the largest, highest span on the first page, possibly replaced by the title a
    Semantic Scholar search returns for it;
  - a title-cased version of the file name.

  The batch run records each title with its provenance and a manual-review flag, and
  tallies the provenances.
- **Database build** (`build_database.py`, module `BuildDatabase`). The text of each
  readable PDF is:
  - cut into 3000-character windows that overlap by 200;
  - prefixed with `Paper Title: <title>` and a blank line, the title coming from the
    title cache or else the file name;
  - paired with its metadata, numbered `"0"`, `"1"`, …;
  - added to the vector store in batches of 500.
- **Answering a question** (`app.py`, `answer_question`, module `App`):
  - the retrieved chunks are sorted by distance;
  - they are taken greedily, in order, while the estimated tokens (`len // 4`) stay
    below 4000, stopping at the first chunk that does not fit;
  - the kept texts are joined with blank lines into the context of a fixed prompt;
  - the model's reply comes back with the number of chunks used, or the error
    becomes an HTTP 500 whose detail starts `LLM Error: `.

Modules `Text` (ASCII versions of the `str` operations used:
strip, split, join, capitalize, lower, replace, `str(n)`), `Sequences` (lists
built by loops that extend a list by a part per element) and `Wrappers`
(`Option`, `Result`) support the three.

Everything the program obtains from outside becomes an input of the model:

- what the PDF library reads (the metadata title; the first page's
  blocks, lines and spans with font size and y position; the full text);
- the title cache;
- the documents and distances of the index query.

The arXiv lookup, the Semantic Scholar search and the language model are oracle
functions passed as parameters. The vector store is a class holding the ids,
documents and metadata it was given.

Where the loops of the source change state, the model has methods with loops:

- `CollectCandidates` with `CollectFromLines` and `CollectFromLine` (the three
  nested span loops, one method per level);
- `ExtractAll`, `Ingest` with `EnrichFile`, `AddInBatches`, and `SelectWithinBudget`.

Each of them except `AddInBatches` is proved equal to a specification function, and
the properties are proved as lemmas about that function. `AddInBatches` states the
store's new contents in terms of its old ones. Pure expressions of the source (filename cleanup, the
metadata check, `chunking`, `sorted`, the join, the prompt) are functions.

When cleanup leaves nothing, `clean_filename_as_title` returns the raw stem
(title_extraction.py:121-124). So the fallback title is not always non-empty and
underscore-free:

- `.pdf` gives the empty title (`CleanFilenameNonEmpty`);
- `__.pdf` gives `__` (`FilenameFallbackKeepsUnderscores`).

A chunk of a text whose length falls just past a multiple of the step can lie wholly
inside the chunk before it: a 2900-character text gives `text[0:2900]` and
`text[2800:2900]` (`LastChunkInside`).

## Model

| member | source | states |
|---|---|---|
| TitleExtraction.ArxivId | title_extraction.py:11-15 | a found id is 4 digits, `.`, 4 or 5 digits, a prefix of the name, without any `vN`; it has 5 final digits whenever the name has a digit there |
| TitleExtraction.ArxivIdComplete | title_extraction.py:11-14 | whenever the name starts with an arXiv id, an id is found |
| TitleExtraction.ArxivIdLongest | title_extraction.py:11-15 | when the name starts with an id that the greedy pattern matches in full, that id is the one found |
| TitleExtraction.ArxivTitleSpec | title_extraction.py:10-23 | no title, whatever the lookup, when the stem (name without `.pdf`) does not start with 4 digits, `.`, 4-5 digits; otherwise a title iff the lookup of exactly that greedy prefix (without `vN`) succeeds, and then it is the looked-up title with provenance `arxiv` |
| TitleExtraction.MetadataTitle | title_extraction.py:32-35 | accepted iff a title is present and its stripped length is strictly between 10 and 200; the value is the stripped title with provenance `pdf_metadata`, never empty |
| TitleExtraction.FirstBest | title_extraction.py:79-83 | the chosen index has the largest size, the smallest y among that size, and every earlier candidate sorts strictly after it (the element a stable sort by `(-size, y)` puts first) |
| TitleExtraction.CollectFromLine | title_extraction.py:56-71 | the inner loop collects exactly the qualifying spans of a line, in order |
| TitleExtraction.CollectFromLines | title_extraction.py:55-71 | the middle loop collects the candidates of every line of a block, in order |
| TitleExtraction.CollectCandidates | title_extraction.py:49-71 | the nested loops produce the candidate list of the first 15 blocks, skipping blocks without lines |
| TitleExtraction.ExtractTextTitle | title_extraction.py:40-89 | the layout-scan method returns the specified text title |
| Sequences.GatherMember | title_extraction.py:51-71 | what a span, line or block contributes ends up in the collected list |
| Sequences.GatherWitness | title_extraction.py:51-71 | everything in the collected list was contributed by some span, line or block |
| TitleExtraction.CandidatesExact | title_extraction.py:51-71 | a candidate is exactly a span among the first 15 blocks with lines whose stripped text has 15 < length < 200, is not all digits, and starts with neither `http` nor (case-insensitively) `abstract` |
| TitleExtraction.TextTitleSpec | title_extraction.py:75-84 | no title iff no candidate; otherwise the title is the text of a candidate of maximum size and minimum y among that size, the first such in page order, with newlines made spaces and stripped, and it is not empty |
| TitleExtraction.CleanFilename | title_extraction.py:110-124 | the provenance is always `filename` |
| TitleExtraction.StripNumberPrefixCuts | title_extraction.py:114 | a leading run of digits and the underscore after it are removed, leaving exactly the rest |
| TitleExtraction.StripNumberPrefixKeeps | title_extraction.py:114 | a name that does not start with digits followed by an underscore is unchanged |
| TitleExtraction.StripArxivPrefixVersion | title_extraction.py:115 | the greedily matched arXiv id, `v` and the whole digit run after it are removed, leaving exactly the rest |
| TitleExtraction.StripArxivPrefixNoVersion | title_extraction.py:115 | the greedily matched arXiv id with no `v`+digit after it is removed, leaving exactly the rest |
| TitleExtraction.StripArxivPrefixKeeps | title_extraction.py:115 | a name that starts with no arXiv id is unchanged |
| TitleExtraction.CapitalizeWord | title_extraction.py:122 | `capitalize` of a word without whitespace or underscore keeps its length and its letters up to case, starts with no lower-case letter and continues with no upper-case one |
| TitleExtraction.JoinTitleCase | title_extraction.py:122 | joining capitalized words with single spaces gives title case |
| TitleExtraction.CleanFilenameTitleCase | title_extraction.py:113-122 | when the cleaned name is not empty, the title is single-space-separated capitalized words with no underscore and no other whitespace, and its words are the words of the cleaned name, one for one and in order, equal up to letter case |
| TitleExtraction.CleanFilenameNonEmpty | title_extraction.py:113-124 | the fallback title is non-empty iff the file name minus `.pdf` is non-empty |
| TitleExtraction.FilenameFallbackKeepsUnderscores | title_extraction.py:121-124 | `__.pdf` gives the title `__`: an underscore can survive when cleanup leaves nothing |
| TitleExtraction.FirstSuccess | title_extraction.py:135-171 | the result is the first attempt with a non-empty title, or the fallback when there is none |
| TitleExtraction.Resolve | title_extraction.py:125-171 | provenance `arxiv` iff arXiv succeeds, and the title is arXiv's; `pdf_metadata` iff arXiv fails and metadata succeeds, with the metadata title; `semantic_scholar` iff both fail, the layout scan succeeds and the search on its text finds a non-empty title, which is the result; `pdf_text` iff both fail, the layout scan succeeds and the search does not, with the scanned title; `filename` iff all three fail, with the cleaned file name; every title not from the file name is non-empty |
| TitleExtraction.ResolveIsFirstSuccess | title_extraction.py:135-171 | the chain equals the first success among arXiv, metadata and the Semantic-Scholar-upgraded text title, falling back on the file name |
| TitleExtraction.GetPaperTitle | title_extraction.py:125-171 | the method with early returns yields the chain's result |
| TitleExtraction.ExtractAll | title_extraction.py:179-200 | the loop leaves the record map and the tally the specification functions give |
| TitleExtraction.ExtractStep | title_extraction.py:194-200 | one more file sets its own record and adds one to its provenance's count, giving the maps for the longer prefix |
| TitleExtraction.TitleMapSpec | title_extraction.py:194-198 | every record's review flag is `source == filename`, and the recorded names are exactly the input file names |
| TitleExtraction.TitleMapLastWins | title_extraction.py:194-198 | a file's record is the resolution of its last occurrence |
| TitleExtraction.TallyKeys | title_extraction.py:180-186 | the tally has an entry for each of the five provenances |
| TitleExtraction.TallyStep | title_extraction.py:200 | one more file adds one to its provenance's count and changes nothing else |
| TitleExtraction.TallyTotal | title_extraction.py:180-200 | the five counts add up to the number of files |
| BuildDatabase.WindowsCount | build_database.py:19 | the number of windows from `start` is the least `n` with `start + n*step >= len` |
| BuildDatabase.WindowsAt | build_database.py:19 | window `k` is the slice from `start + k*step` of length `size`, clipped at the end, and is non-empty |
| BuildDatabase.ChunkingCount | build_database.py:18-19 | there are `ceil(L / (C - O))` chunks; none exactly for empty text |
| BuildDatabase.ChunkAt | build_database.py:19 | chunk `k` is `text[k*(C-O) : min(k*(C-O)+C, L)]` |
| BuildDatabase.ChunkLength | build_database.py:19 | each chunk has between 1 and `C` characters |
| BuildDatabase.ChunkingCovers | build_database.py:19 | every character position lies in some chunk |
| BuildDatabase.LastChunkEnds | build_database.py:19 | the last chunk runs to the end of the text |
| BuildDatabase.WindowsOverlap | build_database.py:19 | consecutive windows share `size - step` elements when the first is full |
| BuildDatabase.ChunkOverlap | build_database.py:18-19 | a full chunk's last `O` characters are the next chunk's first `O` |
| BuildDatabase.LastChunkInside | build_database.py:19 | when the chunk before the last already reaches the end of the text, the last chunk is that chunk less its first `C - O` characters |
| BuildDatabase.TitleForExtracted | build_database.py:45 | with the cache the title run writes, a file's chunks carry the title resolved for that file (its last occurrence in the run) |
| BuildDatabase.TitleForUnlisted | build_database.py:45 | a file the title run did not record is titled by its own file name |
| BuildDatabase.EnrichParts | build_database.py:50 | an enriched chunk is `Paper Title: `, the title, a blank line and the chunk, each at known offsets |
| BuildDatabase.EnrichInjective | build_database.py:50 | under one title, distinct chunks give distinct enriched chunks |
| BuildDatabase.EnrichAll | build_database.py:49-51 | one enriched chunk per chunk, in order |
| BuildDatabase.EnrichFile | build_database.py:49-52 | the inner loop yields the enriched chunks and one metadata record per chunk |
| Sequences.GatherAt | build_database.py:37-52 | item `k` of file `i`'s contribution sits in the extended list right after everything the earlier files contributed |
| Sequences.GatherSource | build_database.py:37-52 | every item of the extended list is some item of some file's contribution |
| Sequences.GatherLockstep | build_database.py:49-52 | two lists extended per file by contributions of equal length stay equally long |
| BuildDatabase.Ingest | build_database.py:37-52 | the file loop leaves the chunk and metadata lists the specification functions give |
| BuildDatabase.IngestLockstep | build_database.py:49-52 | the chunk list and the metadata list have the same length |
| BuildDatabase.IngestPairing | build_database.py:37-52 | entry `j` is chunk `k` of a file with non-empty text, enriched with that file's title, and its metadata names that file and title |
| BuildDatabase.IngestAt | build_database.py:37-52 | chunk `k` of file `i` is stored at the position after the chunks of the earlier files, enriched with that file's title, beside metadata naming that file and title |
| BuildDatabase.IngestComplete | build_database.py:37-52 | every chunk of every such file appears, beside its metadata |
| BuildDatabase.ChunkIds | build_database.py:72 | one id per chunk; id `a` is a digit string whose decimal value is `a`; the ids are pairwise distinct |
| BuildDatabase.WindowsPartition | build_database.py:76-81 | windows as far apart as they are long concatenate back to the list |
| BuildDatabase.BatchesPartition | build_database.py:75-83 | the batches concatenate to the list in order, number `ceil(n/500)`, each has 1 to 500 elements and batch `b` starts at `500*b` |
| BuildDatabase.Collection.Add | build_database.py:78-83 | `add` of distinct ids the store does not hold appends the given ids, documents and metadata, keeping the three lists in step and every id unique |
| BuildDatabase.AddInBatches | build_database.py:75-84 | after the batch loop the collection holds its old entries followed by all ids, documents and metadata, in order, after `ceil(n/500)` calls |
| BuildDatabase.Build | build_database.py:34-83 | given a store that holds none of the new ids, it ends up with its old entries followed by the enriched chunks, their metadata and ids `"0"`… in order, every id unique |
| App.Zip | app.py:79 | pairs documents with distances, as many as the shorter list |
| App.InsertPermutes | app.py:79 | insertion adds exactly the inserted hit |
| App.InsertSorted | app.py:79 | insertion into a sorted list keeps it sorted |
| App.InsertStable | app.py:79 | the inserted hit goes before the hits at its distance |
| App.SortByDistanceSpec | app.py:79 | the sorted hits are a permutation of the input, by non-decreasing distance, with equal distances in retrieval order |
| App.SelectWithinBudget | app.py:80-90 | the budget loop keeps the specified hits and its running total is their token sum |
| App.SumTokensAppend | app.py:85-88 | the token sum of two lists is the sum of their sums |
| App.BudgetedSpec | app.py:84-90 | the kept hits are a prefix; a prefix stays within budget iff it is no longer than the kept one |
| App.BudgetedPrefix | app.py:84-90 | the kept hits are a prefix of the hits, and starting under budget they keep the running total under it |
| App.BudgetedWithin | app.py:84-90 | with `spent` tokens already used, adding the first `m` hits stays under budget iff `m` is at most the number kept and, for `m = 0`, `spent` itself is under budget |
| App.SelectedSpec | app.py:84-90 | the kept hits are a prefix of the sorted hits, their tokens total less than 4000, the first hit left out would reach 4000, and nothing after it is taken |
| App.HaltsAtFirstOverflow | app.py:86-90 | costs 1000, 3500, 200 keep only the first chunk, although the first and third together would fit |
| App.ContextSpec | app.py:100-101 | empty for an empty selection; otherwise the first text starts the context, each text is followed by exactly a blank line and the next text, and the last one ends the context |
| App.PromptOrder | app.py:108-119 | the prompt holds the refusal phrase, the context and the question verbatim, in that order |
| App.AnswerQuestion | app.py:59-133 | on a reply the outcome is the reply with the number of selected chunks; on a model error it is status 500 with `LLM Error: ` and the message |
| App.ChunksUsedBound | app.py:131 | the reported count never exceeds the number of retrieved chunks |
| Text.LeadingSpacesSpec | title_extraction.py:57 | the counted leading characters are whitespace and the next one is not |
| Text.TrailingSpacesSpec | title_extraction.py:57 | the counted trailing characters are whitespace and the one before is not |
| Text.StripSpec | title_extraction.py:57 | `strip` returns the slice between leading and trailing whitespace; it neither starts nor ends with whitespace |
| Text.StripNonEmpty | title_extraction.py:83 | a string with a non-whitespace character does not strip to empty |
| Text.StripKeepsAbsent | title_extraction.py:118 | stripping introduces no character |
| Text.WordLengthSpec | title_extraction.py:122 | the measured word holds no whitespace and ends at whitespace or the end |
| Text.SplitWords | title_extraction.py:122 | `split()` yields non-empty whitespace-free words, and the string is exactly these words in order separated by non-empty whitespace runs (with optional whitespace at either end), so they are its maximal non-whitespace runs |
| Text.SplitJoin | title_extraction.py:122 | splitting words joined by single spaces gives the words back |
| Text.SplitNonEmpty | title_extraction.py:122 | a string with a non-whitespace character splits into at least one word |
| Text.JoinAt | app.py:101 | `join` places each word at its offset in order, with the separator between consecutive words |
| Text.NatToString | build_database.py:72 | `str(n)` is a non-empty digit string |
| Text.NatToStringValue | build_database.py:72 | `str(n)` denotes `n` in decimal and has no leading zero |
| Text.NatToStringInjective | build_database.py:72 | distinct numbers have distinct decimal strings |

## Left out

- The PDF library is not modelled: opening files, reading metadata, the page's text
  dictionary and the full text. Their results are inputs. A file that cannot be opened, or
  any exception inside a strategy, is modelled as its "no result" value.
- The arXiv client, the Semantic Scholar HTTP request, its 5-second timeout and the JSON
  decode are oracle functions. A failed request is the oracle's `None`.
- The embeddings (float vectors), the ChromaDB client (`query`, `count`, persistence)
  and the `embeddings=` argument of `add` are not modelled. The query result is given as
  the documents and distances lists. Running `query` again after a build is not modelled.
- The FastAPI routes, CORS, the pydantic length limits on the question, `/health`,
  serving `index.html` and the `answer_question` wrapper endpoint are not modelled; they
  are HTTP plumbing.
- Not modelled as effects: reading and writing `paper_titles.json`, `os.listdir` with its
  `.pdf` filter (the model gets the list of PDF files), `print`, `time.sleep` rate
  limiting and timing. These are I/O.
- Distances, font sizes and y positions are integers; only their order is used. Float
  semantics such as NaN ordering are left out.
- The regular expressions are written out by hand for the three fixed patterns.
- `str.isspace`, `isnumeric`, `\d`, `lower` and `capitalize` are ASCII-only. Unicode
  digits, whitespace and case mappings are not modelled.
- Cache entries whose `title` is JSON `null` or not a string are not modelled. The model
  distinguishes only a present string title from a missing key.
- BuildDatabase.Chunking: requires `overlap < size`. With `chunk_size <= overlap`, Python
  `range` raises or yields nothing; the program only ever calls it with 3000 and 200.
- TitleExtraction.FirstBest: the in-place `list.sort` is not modelled as a rearrangement of
  the candidate list. Only the element a stable sort puts at index 0 is, which is all the
  program reads.
- TitleExtraction.ExtractAll: a file name listed twice keeps its last record. Each
  resolution is counted in the tally, the same as `sources_count` does.
- BuildDatabase.Build: requires the store to hold none of the ids `"0"`… yet. A rebuild
  over a store opened with `get_or_create_collection` that already holds them, where
  `add` meets ids it already has, is not modelled.
- The `answer_question` language-model call's parameters (model name, `max_tokens`) are
  not modelled. They are fixed arguments to the oracle.
