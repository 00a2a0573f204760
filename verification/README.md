# Document loading, batched indexing and the movie corpus join

A Dafny model of the sequential core of a retrieval-augmented chatbot's
data pipeline:

- **Movie corpus join** (`movie_parser.py`). Three inputs are joined by movie id:
  - the metadata rows, which create one record per id;
  - the character rows, which append actor names;
  - the plot lines, which supply summaries.

  Every record then gets a summary, or `"Summary not available"`.
- **Document loaders** (`vector_space.py`). `create_documents` turns a prefix of the loaded JSON records into `Document`s. The book and movie loaders render five fields each, separated by single spaces. List fields are joined by single spaces. A record that cannot be rendered aborts the whole load.
- **Batched index construction** (`vector_space.py`). `create_vector_space` seeds an index with the first two documents. It then builds a transient index from each further slice of at most 100 documents and merges it in, advancing a progress counter.

The index is abstracted to the sequence of documents it holds. Building an
index from documents keeps them in order, and `merge_from` appends. Building
an index from zero documents is an error; this happens only for an empty
input, whose seed is empty.

Modules:

- `Wrappers` (wrappers.dfy): `Option`, `Result`, and `MapAll`, the first-failure list comprehension.
- `Text` (text.dfy): Python's `sep.join` and `strip` with the `str.isspace` character set.
- `Documents` (documents.dfy): JSON values, `get_page_content` for the three loaders, and `create_documents`.
- `VectorSpace` (vector_space.dfy): the batching loop and the facts about its batches.
- `MovieParser` (movie_parser.dfy): the metadata, character, plot and summary passes over already-read rows.
- `MovieCorpus` (movie_corpus.dfy): the joined movies written as JSON and read back by the movie loader.

Two behaviours worth knowing:

- The progress counter counts only merged batches. It ends at `n - min(n, 2)`, not at the number of documents indexed.
- A record missing a field raises Python's `KeyError`, modelled as `MissingKey`. A field that `' '.join` cannot handle raises `TypeError`. There is no separate data-format error.

## Model

| member | source | states |
|---|---|---|
| VectorSpace.CreateVectorSpace | vector_space.py:21-32 | The result holds exactly the input documents, in order, as if indexed in one step. It fails exactly when the input is empty. The slices it merges are exactly `documents[i:i+100]` for `i` in `range(2, n, 100)`, in order, so the facts about those slices below describe this loop. It makes `ceil((n-2)/100)` merges for `n > 2` and none otherwise. The progress counter ends at `n - min(n,2)`, so for `n >= 1` it stays below the bar's total `n`. |
| VectorSpace.SeedAndBatchesPartition | vector_space.py:22-29 | For any seed size and batch size, `docs[:seed]` followed by every slice `docs[i:i+size]` for `i` in `range(seed, n, size)` is exactly `docs`: nothing dropped, nothing repeated, order kept. |
| VectorSpace.BatchesCoverSuffix | vector_space.py:26-27 | The slices taken from position `start` on, laid end to end, are exactly `docs[start:]`. |
| VectorSpace.BatchesBounded | vector_space.py:25-27 | Every slice passed to the merge is non-empty and holds at most `size` documents. Every slice but the last holds exactly `size`. |
| VectorSpace.BatchCountBounds | vector_space.py:26 | The number of slices is the least `c` with `c * size >= n - start` when `start < n`, and zero otherwise. |
| VectorSpace.BatchCount | vector_space.py:25-29 | With seed 2 and batch size 100, the number of merges is `ceil((n-2)/100)` for `n > 2` and zero for `n <= 2`. |
| VectorSpace.MergeAllAppends | vector_space.py:28-29 | Building a transient index from each non-empty slice and merging it in appends the slices' documents to the running index. |
| VectorSpace.BatchSizeInvariance | vector_space.py:21-32 | For any batch size and any non-empty seed, the batched build equals the index built from all documents at once. An empty seed makes it fail. |
| Wrappers.MapAll | vector_space.py:57-63 | A comprehension whose element expression may raise: either every element succeeds and the results line up with the inputs, or the error is that of the first failing element and no partial list exists. |
| Documents.CreateDocuments | vector_space.py:52-64 | `create_documents(length)` succeeds exactly when every record of `data[:length]` can be formatted. It then yields one document per such record, in order, carrying the record as metadata and its formatted content. Otherwise it reports the first failing record's error. The base loader succeeds only on an empty prefix. |
| Documents.PrefixLength | vector_space.py:54-62 | The number of records `data[:length]` keeps: all for `None`, `min(length, n)` for `length >= 0`, and `max(0, n + length)` for a negative `length`. |
| Documents.MakeDocuments | vector_space.py:57-63 | Each item becomes `Document(content, item)` in order, or the whole comprehension fails with the first failing item's error. |
| Documents.FirstFailureInPrefix | vector_space.py:57-63 | The first failing record of the prefix is the first failing record of the data within that prefix. |
| Documents.PageContent | vector_space.py:66-79 | The base loader always raises. A concrete loader succeeds exactly when every one of its five placeholders does. Its content is then the placeholders' texts separated by single spaces; otherwise the first failing placeholder's error is raised. |
| Documents.JoinSpaced | vector_space.py:72 | `' '.join(v)` succeeds exactly for a string or a list of strings. A list of strings gives its items separated by single spaces. A number, boolean or null is not iterable, and a list holding a non-string is rejected. |
| Documents.JoinSpacedString | vector_space.py:72 | `' '.join` of a string is the join of its one-character strings: `' '.join("ab") == "a b"`. |
| Documents.BookContent | vector_space.py:70-72 | For string fields and a genre list, book content is title, author, publication date, description and the genres joined by `' '`, separated by single spaces, in that order. |
| Documents.MovieContent | vector_space.py:75-79 | For string fields and list fields, movie content is title, release date, summary, the genres joined by `' '` and the actors joined by `' '`, separated by single spaces, in that order. |
| Text.SplitJoinRoundTrip | vector_space.py:72 | Joining pieces with a separator none of them contains, then splitting at it, gives the pieces back. |
| Text.IndexOf | movie_parser.py:52 | The first position of a character, or the length when it is absent. Every earlier character differs from it. |
| Text.Strip | movie_parser.py:53 | `strip()` returns the contiguous part of the string starting at the first non-space character. Everything cut off is whitespace, and a non-empty result starts and ends with a non-space. |
| Text.StripCharacterized | movie_parser.py:53 | Any infix bounded by whitespace on both sides that is empty, or starts and ends with a non-space, is the stripped string. |
| Text.StripIdempotent | movie_parser.py:53 | Stripping twice is stripping once. |
| Text.LeadingSpace | movie_parser.py:53 | Counts the leading whitespace characters. The character after them, if any, is not whitespace. |
| Text.TrailingSpace | movie_parser.py:53 | Counts the trailing whitespace characters. The character before them, if any, is not whitespace. |
| MovieParser.Put | movie_parser.py:30 | Dict assignment keeps the keys distinct and in step with the map. A new id goes to the end; an existing id keeps its position and only its record changes. |
| MovieParser.MetadataPass | movie_parser.py:26-38 | The metadata loop succeeds exactly when every row reaches column 8. Its table has distinct keys, each record stored under its own id, with empty actor lists. |
| MovieParser.MetadataLastRowWins | movie_parser.py:28-38 | After the metadata loop, the keys are the distinct metadata ids in order of first appearance. Each id holds the record of the last row with that id: a later duplicate replaces the record but keeps its position. |
| MovieParser.Dedup | movie_parser.py:60 | The ids that survive repeated dict assignment: every distinct id of the input, each exactly once, and nothing else. |
| MovieParser.DedupFirstAppearance | movie_parser.py:30 | Those ids are listed in order of first appearance in the input, the key order `list(d.values())` gives after repeated assignment, where a re-assigned key keeps its position. |
| MovieParser.LastIndex | movie_parser.py:30 | The last position of an id among the rows, or -1 when the id is absent; no later row carries it. |
| MovieParser.CharacterPass | movie_parser.py:41-47 | The character loop succeeds exactly when every row reaches column 8, even rows for unknown ids. Keys, their order and all other fields are unchanged, and ids not in the metadata are discarded. Each movie's list grows by exactly its own actor names, in row order. |
| MovieParser.CharacterPassStep | movie_parser.py:43-47 | One character row keeps the keys and extends the known movies' actor lists by that row's actor. |
| MovieParser.CharacterPassStepAt | movie_parser.py:44-47 | One character row appends its actor to the matching movie only; other movies are untouched. |
| MovieParser.SplitAtFirstTab | movie_parser.py:52 | `line.split('\t', 1)` unpacks exactly when the line has a tab. The id has no tab, and id, tab and rest rebuild the line. |
| MovieParser.SplitAtFirstTabRoundTrip | movie_parser.py:52 | Splitting an id without tabs, a tab and any rest gives back that id and rest. Later tabs stay in the rest. |
| MovieParser.PlotPass | movie_parser.py:50-53 | The plot loop succeeds exactly when every line has a tab. Its ids are exactly the lines' ids, and each holds the stripped summary of the last line with that id. |
| MovieParser.PlotPassStep | movie_parser.py:51-53 | One plot line overwrites its id's summary and leaves the other ids' summaries as the last earlier line set them. |
| MovieParser.FillSummaries | movie_parser.py:55-57 | The summary fill loops over the metadata movies only: keys and their order are unchanged, so a plot id absent from the metadata never creates a record. Each movie gets its plot summary or `"Summary not available"`, and no other field changes. |
| MovieParser.BuildCorpus | movie_parser.py:26-60 | The join fails exactly when an input is malformed. The error comes from the first pass with a malformed input, in the order metadata, characters, plots. |
| MovieParser.CorpusJoin | movie_parser.py:26-60 | For well-formed inputs, the output has one record per distinct metadata id, in order of first appearance. Each record has the metadata fields of the last metadata row with that id and the actor names of its character rows in row order. Its summary is the stripped text of the last plot line with that id, or the default. |
| MovieCorpus.ToRecord | movie_parser.py:30-38 | A joined movie is written as a JSON object with exactly the eight keys the script builds. |
| MovieCorpus.RecordContent | vector_space.py:79 | The movie loader formats a joined movie into its title, release date, summary, genres and actors, separated by single spaces. |
| MovieCorpus.MoviesLoad | vector_space.py:52-64 | A list of movies that all have summaries loads without failure: one document per movie of the prefix, each with the movie's own text and record. |
| MovieCorpus.CorpusLoads | vector_space.py:57-63 | The corpus the join writes never triggers the loader's all-or-nothing failure. |

## Left out

- FAISS internals are not modelled: embeddings, similarity search, and the `search` call in `process_data`. These are a foreign library and floating point. An index is the sequence of documents it holds.
- `FromDocuments` on an empty list is an error, because `FAISS.from_documents` takes the index dimension from the first embedding and has none to take. The library's exact exception is not modelled.
- `HuggingFaceEmbeddings` and `EmbeddingManager` are not modelled: an opaque embedding model.
- `save_vector_space` and `load_vector_space` are not modelled: disk persistence through the library.
- `tqdm` and the `print` calls are presentation. Only the progress counter's value is kept, as the `progress` result of `CreateVectorSpace`.
- `load_data`, `json.loads`, `Path.read_text` and all file opens, CSV readers and `json.dump` are not modelled. The inputs are the already-read records, rows and lines.
- The JSON dump of the joined movies followed by a load is taken to return the same strings and lists (`MovieCorpus.ToRecord`).
- `parse_freebase_tuples` is not modelled, because it runs `eval` on arbitrary text. It is a function parameter from string to names, and an `eval` failure inside it is not modelled.
- Nested JSON objects inside a record are not modelled. Values are strings, lists, or scalars carrying their `str()` text.
- `Documents.Repr` quotes nested strings with single quotes and does not model Python's escaping or its switch to double quotes.
- `process_data` and the `__main__` blocks are wiring and hard-coded paths.
- The query classifier, tool registry, reasoning loop and conversation memory are not part of this model. Their source is not among the modelled files.
- The character and metadata loops report which pass failed, but not which row.
