# RGPD segmentation and indexing, modelled in Dafny

This project models the two scripts at the heart of a small retrieval pipeline
over the French text of the GDPR (RGPD):

- `decouper_rgpd` (`01_chunking.py`). It cuts the regulation's page text into
  chunks.
  - Each recital ("considérant") whose body is longer than 50 characters
    becomes one chunk.
  - Each article becomes one chunk. Duplicates are resolved by keeping the
    strictly longer body. A specially searched "Article 1" body is tried first.
  - The chunks are sorted: recitals first, then articles, each group by number.
  - Article numbers below 100 that are absent are reported.
- `indexer_rgpd` (`02_embeddings.py`). It turns the chunk list into three
  aligned lists (documents, metadatas, ids). It then drops and recreates the
  vector collection with cosine distance and adds those records to it.

Modules:

| file | module | what it holds |
|---|---|---|
| `wrappers.dfy` | `Wrappers` | `Option` and `Result` |
| `text.dfy` | `Text` | Python's `str.isspace` set, `re.sub(r'\s+', ' ', ·)`, `str.strip`, and decimal rendering of numbers |
| `chunks.dfy` | `Chunks` | the chunk record, and how its title and id derive from its kind and number |
| `recitals.dfy` | `Recitals` | the recital loop |
| `articles.dfy` | `Articles` | the Article 1 pattern loop, and the `articles_dict` merge with Python dict insertion order |
| `sorting.dfy` | `Sorting` | the stable two-key sort |
| `segmenter.dfy` | `Segmenter` | `decouper_rgpd` end to end |
| `embeddings.dfy` | `Embeddings` | the record loop, and a vector store with delete, create and add |

The regular expressions are not modelled as regular expressions.

- A `Segmenter.Engine` value supplies, for each `re.search` and `re.finditer`
  call of the source, what that call returns on the text it is given: the
  numbers and raw bodies of the matches, or a match position.
- What the source does with those results is modelled:
  - stripping;
  - the strict `> 50` filters;
  - the first-hit pattern loop with `break`;
  - the longest-wins merge, including the insertion order of a Python dict;
  - the sort;
  - the two places where `max()`/`min()` of an empty list raise.

In two places the code behaves differently from what a reader might expect, and the model follows the code:

- Recitals are not deduplicated. Two recital matches with the same number give
  two chunks with the same id (`Recitals.RecitalsNotDeduplicated`).
  Indexing such a list fails, because the store refuses duplicate ids
  (`Embeddings.IndexingSucceedsIff`).
- The function is not "never fatal". `max()` over no recitals (on the path
  without a chapter marker) raises. So does `min()` over no articles. The model
  returns `Failure(NoRecitalForFallback)` or `Failure(NoArticles)` in exactly
  those cases.

## Model

| member | source | states |
|---|---|---|
| Text.IsSpace | 01_chunking.py:14-23 | the whitespace set of `\s` and `str.strip()` on `str`: U+0009–U+000D, U+001C–U+0020, U+0085, U+00A0, U+1680, U+2000–U+200A, U+2028, U+2029, U+202F, U+205F and U+3000, and nothing else |
| Text.Collapse | 01_chunking.py:14 | `re.sub(r'\s+', ' ', …)`: each maximal run of Python whitespace becomes one space; the result is never longer than the input, and the lemmas below characterise it |
| Text.CollapseNormalizes | 01_chunking.py:14 | after the whitespace collapse, every whitespace character is a plain space and no two are adjacent |
| Text.CollapseKeepsText | 01_chunking.py:14 | the collapse keeps every non-whitespace character, in order |
| Text.CollapseRun | 01_chunking.py:14 | one maximal whitespace run becomes exactly one space, and the text on either side is collapsed independently |
| Text.CollapseIdempotent | 01_chunking.py:14 | collapsing twice is the same as collapsing once |
| Text.TrimStart | 01_chunking.py:23 | `lstrip()`: drops leading whitespace and never lengthens; `Text.TrimStartSpec` states it removes exactly the leading whitespace run |
| Text.TrimEnd | 01_chunking.py:23 | `rstrip()`: drops trailing whitespace and never lengthens; `Text.TrimEndSpec` states it removes exactly the trailing whitespace run |
| Text.Strip | 01_chunking.py:23 | `strip()`, applied to every match body (also at lines 86 and 99); never lengthens, and `Text.StripSpec` below states what it keeps |
| Text.StripSpec | 01_chunking.py:23 | `strip()` returns the infix between leading and trailing whitespace; only whitespace is removed, and the result neither starts nor ends with whitespace |
| Text.StripTrimmed | 01_chunking.py:23 | a body that neither starts nor ends with whitespace is its own strip |
| Text.NatToString | 01_chunking.py:29-31 | `f"{numero}"` (also at lines 107 and 109): at least one character, all decimal digits, a single digit exactly for numbers below 10, and no leading zero for a positive number |
| Text.NatToStringInjective | 01_chunking.py:29-31 | distinct numbers render as distinct decimal strings |
| Chunks.RecitalChunk | 01_chunking.py:26-32 | the recital record: kind recital, the match number, the stripped body, title `Considérant n`, id `considerant_n` |
| Chunks.ArticleChunk | 01_chunking.py:104-110 | the article record: kind article, the match number, the stripped body, title `Article n`, id `article_n` |
| Chunks.IdDeterminesKindAndNumber | 01_chunking.py:26-32 | two chunks built by the source have the same id exactly when they have the same kind and number |
| Recitals.LongEnough | 01_chunking.py:25 | the `len(contenu) > 50` test on the stripped body: strictly more than 50 characters |
| Recitals.KeptRecitals | 01_chunking.py:21-32 | the recital chunks the loop appends, as a function of the matches; `Recitals.KeptRecitalsSelect` characterises it |
| Recitals.ExtractRecitals | 01_chunking.py:21-32 | the recital loop appends exactly the chunk list `KeptRecitals` |
| Recitals.KeptRecitalsSelect | 01_chunking.py:21-32 | the kept recitals are, in match order and one per match, exactly the matches whose stripped body is longer than 50 characters; each carries that match's number and stripped body |
| Recitals.KeptRecitalsWellFormed | 01_chunking.py:25-32 | every kept recital has kind recital, a body longer than 50 characters, and the title and id of its number |
| Recitals.RecitalsNotDeduplicated | 01_chunking.py:21-32 | two long matches with the same number both survive, under the same id |
| Articles.FirstArticleOne | 01_chunking.py:64-69 | no body is found exactly when every pattern misses; a found body comes from some pattern, and every earlier pattern missed |
| Articles.FindArticleOne | 01_chunking.py:57-69 | the loop returns the first hit in the fixed pattern order and stops there; every pattern before the last one tried missed; all four are tried when none hits; the order is that of `patterns_art1` (lines 57-62), held in the constant `Articles.ArticleOnePatterns`: "Article premier", "ARTICLE PREMIER", "Article 1er", "Article 1" |
| Articles.Writes | 01_chunking.py:101-103 | the condition under which a candidate writes its number: stripped body longer than 50, and the number absent or the new body strictly longer |
| Articles.Put | 01_chunking.py:101-110 | one merge step: writes the article chunk when `Writes` holds; a new number is appended to the insertion order, an existing one keeps its place |
| Articles.Merge | 01_chunking.py:97-110 | the dictionary after merging the candidates in order, starting empty; `Articles.MergeValid`, `MergeKeys`, `MergeKeepsLongest` and `MergeKeepsEarliest` characterise it |
| Articles.Candidates | 01_chunking.py:85-99 | the merge candidates: the Article 1 body as number 1 when one was found, then the article matches in order; `Articles.CandidatesStep` and `SeedStep` relate it to the seed step |
| Articles.Values | 01_chunking.py:112 | `articles_dict.values()`; `Articles.ValuesOfSpec` states it lists one entry per key in insertion order |
| Articles.ValuesOf | 01_chunking.py:112 | the entries of a map listed along an order; `Articles.ValuesOfSpec` states its contents |
| Articles.MergeArticles | 01_chunking.py:82-112 | the seed and the match loop build exactly the dictionary `Merge(Candidates(seed, matches))`, and its values are listed in insertion order |
| Articles.SeedStep | 01_chunking.py:85-94 | the literal Article 1 record (`'Article 1'`, `'article_1'`) is the article chunk of number 1, and it is written only when its stripped body is longer than 50 characters |
| Articles.MergeValid | 01_chunking.py:97-110 | no key is inserted twice; keys and insertion order agree; every entry is the article chunk of its own number, with a body longer than 50 characters |
| Articles.MergeKeys | 01_chunking.py:101-103 | a number has an entry exactly when some candidate with that number has a stripped body longer than 50 characters |
| Articles.MergeKeepsLongest | 01_chunking.py:102-110 | the body kept for a number is at least as long as every candidate body for that number |
| Articles.MergeKeepsEarliest | 01_chunking.py:102-110 | the kept body is the body of some candidate, and every earlier candidate for that number is strictly shorter: on ties the first one stays |
| Articles.ValuesOfSpec | 01_chunking.py:112 | `values()` lists one entry per key, in insertion order |
| Articles.ArticleIdsDistinct | 01_chunking.py:82-112 | no two merged articles share a number or an id |
| Articles.LongerDuplicateWins | 01_chunking.py:103 | of two long matches with one number, a strictly longer later body replaces the earlier one |
| Articles.SeedWinsTies | 01_chunking.py:85-110 | the specially found Article 1 body is replaced only by a strictly longer match numbered 1 |
| Sorting.Rank | 01_chunking.py:116 | the first sort key component: 0 for a recital, 1 for an article |
| Sorting.KeyLe | 01_chunking.py:116 | the tuple order of the keys, compared lexicographically; `Sorting.SortedIffGrouped` states what sorting by it means |
| Sorting.Insert | 01_chunking.py:116 | inserting into a sorted list gives a sorted list holding the same elements plus the new one |
| Sorting.SortChunks | 01_chunking.py:116 | the sort result is sorted by (recital before article, number) and is a permutation of its input |
| Sorting.SortStable | 01_chunking.py:116 | the sort is stable: for every key, the chunks with that key keep their relative order |
| Sorting.InsertWithKey | 01_chunking.py:116 | an inserted element goes ahead of the elements with an equal key, and other keys are untouched |
| Sorting.SortedIffGrouped | 01_chunking.py:116 | sorted by the key means recitals before articles, each group ascending by number |
| Segmenter.Suffix | 01_chunking.py:43-51 | Python's `s[p:]` on a position: a suffix of `s`, of length `len(s) - p` when `p` is in range |
| Segmenter.ArticleRegion | 01_chunking.py:40-53 | the article text is a suffix of the collapsed page text. With a chapter marker it starts at the marker. Without one it fails exactly when there is no recital; otherwise it starts at the end of the match anchored on the largest recital number (`Segmenter.MaxNumero`), or is the whole text when that match fails |
| Segmenter.MaxNumero | 01_chunking.py:47 | the largest recital number is carried by some recital and bounds them all |
| Segmenter.SearchIn | 01_chunking.py:64-66 | the `re.search` of each Article 1 pattern over the article region |
| Segmenter.ArticleTable | 01_chunking.py:57-110 | the article dictionary built over the region: `Merge` of the candidates, seeded with the first Article 1 hit; `Segmenter.Segment` is stated against it |
| Segmenter.ArticleNumbers | 01_chunking.py:119-120 | a number is listed exactly when some article carries it |
| Segmenter.Missing | 01_chunking.py:127 | exactly the numbers in 1..99 absent from the list, strictly ascending; nothing from 100 up |
| Segmenter.MissingArticles | 01_chunking.py:119-127 | the reported numbers are, in ascending order, exactly those in 1..99 that no article carries |
| Segmenter.Segment | 01_chunking.py:10-135 | the whole pipeline; see the list below |
| Segmenter.HasArticleIff | 01_chunking.py:112-124 | the sorted list holds an article exactly when the article dictionary is non-empty |
| Segmenter.ValuesWellFormed | 01_chunking.py:97-112 | the dictionary's values are well-formed articles, at most one per number, and there are some exactly when the dictionary is non-empty |
| Segmenter.OutputWellFormed | 01_chunking.py:112-116 | recitals plus merged articles, once sorted, are grouped and well-formed; ids are shared only by recitals of the same number |
| Segmenter.NoArticleNumbers | 01_chunking.py:120-124 | the number list is empty exactly when the chunk list holds no article; this is the `min()` failure |
| Embeddings.Document | 02_embeddings.py:45 | the embedded text `titre + "\n\n" + contenu`; `Embeddings.RecordRoundTrip` states the body is recovered from it |
| Embeddings.MetadataOf | 02_embeddings.py:49-53 | the metadata: exactly the type, number and title |
| Embeddings.BuildRecords | 02_embeddings.py:39-55 | see the list below |
| Embeddings.RecordRoundTrip | 02_embeddings.py:45-55 | a chunk is recovered from its document, metadata and id |
| Embeddings.Embed | 02_embeddings.py:59 | `model.encode(documents)`: one vector per document, in order, each the encoding of its document |
| Embeddings.RecordsOf | 02_embeddings.py:63-68 | the stored records are keyed by exactly the given ids; with distinct ids, each id holds its own document, embedding and metadata |
| Embeddings.KeepExisting | 02_embeddings.py:63-68 | after an add, ids already present keep their record and new ids get theirs |
| Embeddings.Store.DeleteCollection | 02_embeddings.py:25-28 | it reports whether the collection existed, and afterwards the collection is gone; a missing collection is not an error for the caller |
| Embeddings.Store.CreateCollection | 02_embeddings.py:31-34 | an empty collection with the given distance is created exactly when the name is free |
| Embeddings.Store.Add | 02_embeddings.py:63-68 | the add succeeds exactly when the collection exists, the lists are aligned and the ids are distinct; otherwise nothing changes |
| Embeddings.IndexRgpd | 02_embeddings.py:20-73 | see the list below |
| Embeddings.RecordOf | 02_embeddings.py:45-59 | the record stored for one chunk: its document, that document's embedding, its metadata |
| Embeddings.Ids | 02_embeddings.py:55 | the id list: one id per chunk, in order, each the chunk's id |
| Embeddings.Indexed | 02_embeddings.py:39-68 | for chunks with distinct ids, the map from each chunk's id to its record |
| Embeddings.IndexedRecords | 02_embeddings.py:39-68 | with distinct ids, the records added are exactly the chunks' records, keyed by id |
| Embeddings.IndexingSucceedsIff | 02_embeddings.py:63-68 | on a segmenter output, indexing succeeds exactly when no two recitals carry the same number |

`Segmenter.Segment` states:

- It fails with `NoRecitalForFallback` exactly when the article region cannot
  be computed.
- Otherwise it fails with `NoArticles` exactly when the article dictionary is
  empty.
- On success:
  - the chunks are a permutation of the kept recitals followed by the
    dictionary's values;
  - every key keeps its relative order;
  - the output is grouped and well-formed;
  - the missing list is exactly the numbers in 1..99 that no article carries,
    in ascending order.

`Embeddings.BuildRecords` states:

- The three lists have one entry per chunk, in chunk order.
- Each document is `titre + "\n\n" + contenu`.
- Each metadata holds exactly `type`, `numero` and `titre`.
- Each id is the chunk's id.
- Each chunk is recovered from its three entries.

`Embeddings.IndexRgpd` states:

- Other collections are untouched.
- The named collection exists afterwards, with cosine distance.
- Indexing succeeds exactly when the chunk ids are distinct (in the model this includes an empty chunk list; see "## Left out").
- On success, the collection holds exactly this run's records, none from an
  earlier run.
- On failure, the collection is empty.

## Left out

- The regular expressions (lazy `.*?`, lookaheads, `DOTALL`, `IGNORECASE`). Their results are inputs, supplied by `Segmenter.Engine`. One consequence is not captured: under `IGNORECASE`, "ARTICLE PREMIER" can never be the first spelling to match, because "Article premier" already matches the same texts.
- HTML parsing with BeautifulSoup, `get_text`, and the file reads and writes (the HTML input, `rgpd_chunks.json`). These are a foreign library and I/O. The page text is a parameter of `Segmenter.Segment`. Chunks pass from one script to the other as values, not through JSON.
- All `print` diagnostics, including the first 500 characters of the region printed when Article 1 is not found. The missing-number list, which the source only prints, is returned.
- The embedding model (`SentenceTransformer`, `model.encode`). It is a function parameter from a document to its vector. Floating point is not modelled: vectors are sequences of `real`.
- The vector store's internals: persistence on disk, the index, and the cosine search. A collection is modelled as its distance setting and a map from id to record.
- Embeddings.Store.Add: it models only the store behaviour `indexer_rgpd` relies on. Mismatched lengths and duplicate ids are refused. An id already present keeps its record. Other validation by the real client (empty batches, metadata value types) is not modelled. In particular `Embeddings.IndexRgpd` on an empty chunk list succeeds in the model, where the real `collection.add` raises; `Segmenter.Segment` never returns an empty chunk list on success, because it fails with `NoArticles` when there is no article.
- `indexer_rgpd` returns the collection object; the model returns whether the add succeeded and exposes the store's state.
- The other scripts (`03_view_chromadb.py`, `04_recherche.py`, `05_ollama_integration.py`): display, similarity search with floating-point scores, random sampling, and HTTP calls to a language model.
- The `sorted(...)` around the article numbers (01_chunking.py:120) is not modelled: `Segmenter.ArticleNumbers` keeps chunk order. The list is only tested for emptiness (line 124) and membership (line 127), neither of which depends on its order.
- Match positions from `re.search` are natural numbers, because negative positions cannot occur. Python slicing past the end is modelled as an empty suffix.
