# A verified model of a small retrieval question-answering service

The system answers Polish-language questions from a knowledge base of help
articles and FAQ pages. Articles are parsed from HTML, split into chunks,
embedded with a sentence encoder and stored in a vector store. FAQ questions
go into a second collection, with their answers kept in the metadata. A query
returns the answer of a stored FAQ question when that question is similar
enough. Otherwise it returns the document chunks nearest to the query.

The model covers:

- `text_splitter.py`: chunking, and the in-place pass that moves a chunk's leading `.` back onto the chunk before it.
- `article_parser.py`: text normalisation, title splitting, article and section extraction, and FAQ parsing.
- `embedding_encoder.py`: how queries and titled document batches are framed for the model.
- `vectorstore.py`: upsert by identifier, and search.
- `service.py`: the `QAService` class, covering ingestion of texts, articles and FAQ pages, `query`, `query_with_faq` and `find_best_answer`.
- `webpage_downloader.py`: the file name of a downloaded page and the URL list of the input file.
- `data_model.py`: its records, as datatypes.

Some parts are foreign libraries:

- the recursive character splitter;
- the transformer model;
- the vector store's search;
- HTML parsing.

Each one is a function value that the model takes as a parameter. What the
service relies on from them is stated as named ghost predicates:

- `OneVectorPerText`: the model returns one vector per input text.
- `EmptyGivesNoHits`, `AtMostLimit` and `HitsAreStored`: what a search returns.

Results that depend on these predicates take them as hypotheses. No such
result is assumed outright.

Code that changes state step by step is modelled imperatively:

- the repair pass is a method over an `array<string>`;
- the store and the service are classes;
- each loop of the parser is a `while` loop.

Every loop is proved equal to a recursive specification function. Lemmas about
those functions state what the source promises.

The dot-repair pass is not idempotent: `TextSplitter.RepairNotIdempotent`
shows the input `["a", "..b"]`, which one pass turns into `["a.", ".b"]` and a
second pass into `["a..", "b"]`.

## Model

| member | source | states |
|---|---|---|
| Strings.LStrip | article_parser.py:8 | the result is a suffix of the input; every character dropped is whitespace (Python's `isspace` set), and the result does not start with whitespace |
| Strings.RStrip | article_parser.py:8 | the result is a prefix of the input; every character dropped is whitespace, and the result does not end with whitespace |
| Strings.Strip | article_parser.py:8 | `strip()` yields the infix of the input that starts right after the leading whitespace, and holds only characters of the input |
| Strings.StripDropsOnlySpace | article_parser.py:8 | everything `strip()` drops before and after the kept infix is whitespace; with `Strip` and `StripEnds` this fixes the result uniquely |
| Strings.StripEnds | article_parser.py:8 | a stripped text is empty, or neither starts nor ends with whitespace |
| Strings.StripIdempotent | article_parser.py:8 | stripping a stripped text changes nothing |
| Strings.Split | webpage_downloader.py:25 | `split(sep)` never returns an empty list |
| Strings.SplitJoin | webpage_downloader.py:64 | joining the pieces of `split(sep)` with `sep` gives the text back |
| Strings.SplitPieces | webpage_downloader.py:25 | no piece of a split contains the separator; there is exactly one piece, the text itself, iff the separator does not occur |
| Strings.SplitLastPiece | webpage_downloader.py:25 | the last piece of a split is the suffix after the last separator, or the whole text when there is none |
| TextSplitter.Repaired | text_splitter.py:17-23 | the repair pass keeps the number of chunks |
| TextSplitter.RepairedShort | text_splitter.py:17 | a list of zero or one chunk is left unchanged (the loop starts at index 1) |
| TextSplitter.RepairedAt | text_splitter.py:17-23 | after the pass, chunk i is its original text without a leading `. ` or `.` (chunk 0 is never cut), followed by `.` exactly when original chunk i+1 started with `.` |
| TextSplitter.RepairedPrefixLength | text_splitter.py:17-23 | over every prefix of the list, the pass only moves dots, except that it drops the space of each `. ` it removes |
| TextSplitter.RepairedTotalLength | text_splitter.py:17-23 | the total length shrinks by exactly the number of chunks after the first that started with `. ` |
| TextSplitter.RepairDocExamples | text_splitter.py:7-15 | both documented examples: `['Sentence 1', '. Sentence 2.']` and `['Sentence 1', '.Sentence 2.']` become `['Sentence 1.', 'Sentence 2.']` |
| TextSplitter.RepairNotIdempotent | text_splitter.py:17-23 | the pass is not idempotent: `["a", "..b"]` becomes `["a.", ".b"]`, and a second pass gives `["a..", "b"]` |
| TextSplitter.FixSplitsOnDot | text_splitter.py:4-23 | the in-place pass leaves the array equal to `Repaired` of its old contents, with each iteration reading the element from the snapshot `texts[1:]` |
| TextSplitter.EffectiveSeparators | text_splitter.py:32 | `None` and the empty list both fall back to the default separators `\n\n`, `\n`, `. `, ` `, `.`, `` (never empty); any other list is used as given |
| TextSplitter.ToChunks | text_splitter.py:26-36 | the chunks are the splitter's pieces for the text, the chunk size, overlap 0 and the effective separators, repaired (the function `Chunks` the service uses); there is one chunk per piece |
| EmbeddingEncoder.QueryTextInjective | embedding_encoder.py:55 | different queries are framed differently: the `Pytanie: ` prefix can be taken off again |
| EmbeddingEncoder.DocumentBatch | embedding_encoder.py:60-64 | `ValueError` iff titles are given, non-empty and of a different length than the texts; otherwise one text per input, each `title</s>text` when there are titles, and the texts unchanged when titles are `None` or empty |
| EmbeddingEncoder.Encoder.EmbedQuery | embedding_encoder.py:54-57 | the query vector is the first vector the model returns for the one-element batch of the framed query |
| EmbeddingEncoder.Encoder.EmbedDocuments | embedding_encoder.py:59-66 | fails with `ValueError` exactly when the batch is rejected; otherwise it is one model call on the whole framed batch, giving one vector per text |
| EmbeddingEncoder.QueryIsFramedDocument | embedding_encoder.py:54-66 | embedding a query equals embedding the untitled one-text batch holding the framed query |
| EmbeddingEncoder.MismatchFailsBeforeModel | embedding_encoder.py:60-62 | a length mismatch is reported before the model runs: any two models give the same `ValueError` |
| EmbeddingEncoder.TitledBatchEmbeds | embedding_encoder.py:59-66 | with one title per text the batch is accepted, and vector i is the model's vector for `titles[i]</s>texts[i]` |
| ArticleParser.ReplaceNoBreakSpaces | article_parser.py:8 | each no-break space becomes a space; every other character is kept in place |
| ArticleParser.RemoveZeroWidthSpaces | article_parser.py:8 | no zero-width space remains, no character is invented, and a text without one is unchanged |
| ArticleParser.RemoveZeroWidthSpacesOfOne | article_parser.py:8 | a single character is dropped exactly when it is a zero-width space |
| ArticleParser.RemoveZeroWidthSpacesAppend | article_parser.py:8 | characters are removed independently of one another, and the rest keep their order; with the one-character case this fixes the result |
| ArticleParser.ZeroWidthSpaceBetween | article_parser.py:8 | a zero-width space between two texts without one is cut out, and nothing else changes |
| ArticleParser.ReplaceNormalize | article_parser.py:6-8 | the result has no no-break space and no zero-width space, and neither starts nor ends with whitespace |
| ArticleParser.ReplaceNormalizeContent | article_parser.py:6-8 | the result is the cleaned text (no-break spaces replaced, zero-width spaces removed) without its leading and trailing whitespace: an infix of it, with everything dropped on either side whitespace |
| ArticleParser.ReplaceNormalizeExample | article_parser.py:6-8 | `"a\u00a0b\u200b\n"` normalises to `"a b"` |
| ArticleParser.NoBreakExample | article_parser.py:8 | in `"a\u00a0b\u200b\n"` only the no-break space changes, into a space |
| ArticleParser.ZeroWidthExample | article_parser.py:8 | `"a b\u200b\n"` loses exactly its zero-width space |
| ArticleParser.StripExample | article_parser.py:8 | `"a b\n"` strips to `"a b"`: the inner space stays, the final line break goes |
| ArticleParser.NoBreakSpacesAlreadyReplaced | article_parser.py:8 | replacing no-break spaces in a text without any changes nothing |
| ArticleParser.ReplaceNormalizeIdempotent | article_parser.py:6-8 | normalising a normalised text changes nothing |
| ArticleParser.SplitTitle | article_parser.py:40-43 | `ValueError` iff the text has no line break; otherwise the title has no line break, and title, `\n` and body make up the text |
| ArticleParser.SplitTitleUnique | article_parser.py:40-43 | the split is the only one: any title without a line break that, with `\n` and a body, makes up the text is the one returned |
| ArticleParser.SectionTextsAppend | article_parser.py:11-18 | section extraction keeps the document's order and treats sections independently |
| ArticleParser.SectionTextsOfOne | article_parser.py:15-17 | a section contributes its text exactly when it has an `id` attribute |
| ArticleParser.ExtractSectionText | article_parser.py:11-18 | the loop returns the texts of the sections with an `id`, in order |
| ArticleParser.WithSections | article_parser.py:32-33 | appending the section texts keeps the article text as a prefix |
| ArticleParser.ParseArticleBase | article_parser.py:21-37 | the result is the article text (empty without an `article`), followed by `\n\n` and each kept section text, then normalised; so it has no no-break space or zero-width space |
| ArticleParser.LastNamedIsLast | article_parser.py:49-51 | the question is absent iff no child is a `summary`, and is otherwise the text of the last `summary` child |
| ArticleParser.AnswerTextAppend | article_parser.py:49-53 | the answer accumulates the children independently of one another |
| ArticleParser.ParseDetailsTags | article_parser.py:46-57 | the question is the normalised text of the last `summary` child (empty when there is none); the answer is the normalised concatenation of a space and the text of every other child, text nodes included |
| ArticleParser.DetailsEntries | article_parser.py:68-70 | one entry per `details` element |
| ArticleParser.DetailsEntriesCategory | article_parser.py:61-70 | every entry of a div carries the category in force when that div is reached |
| ArticleParser.NoHeadingNoCategory | article_parser.py:61-70 | with no `h3` heading, every entry has category `None` |
| ArticleParser.TrailingHeadingAddsNothing | article_parser.py:63-70 | a heading after the last div adds no entry |
| ArticleParser.ParseEditorContentDiv | article_parser.py:60-71 | the nested loops return, for every `div` child in order, one entry per `details` element under the latest `h3` before that div |
| ArticleParser.FaqEntriesAppend | article_parser.py:86-88 | editor-content divs are parsed independently (no category carries over), in page order |
| ArticleParser.ParseFaq | article_parser.py:80-90 | the entries of all editor-content divs of the page, div after div |
| WebpageDownloader.CreateFilename | webpage_downloader.py:24-25 | the name ends in `.html`, and its stem has no `/`; the stem is the suffix of the URL after its last `/`, or the whole URL when it has none |
| WebpageDownloader.NonEmpty | webpage_downloader.py:64 | keeps only non-empty lines, all taken from the input |
| WebpageDownloader.NonEmptyOfOne | webpage_downloader.py:64 | one line is kept exactly when it is not empty |
| WebpageDownloader.NonEmptyAppend | webpage_downloader.py:64 | lines are filtered independently and the kept ones stay in order; with the one-line case, every non-empty line is kept, in order |
| WebpageDownloader.NonEmptyKeepsAll | webpage_downloader.py:64 | a list without empty lines is kept whole |
| WebpageDownloader.UrlList | webpage_downloader.py:64 | every URL is a non-empty line without a line break |
| WebpageDownloader.UrlListOfLine | webpage_downloader.py:64 | a file without a line break is one URL, unless it is empty |
| WebpageDownloader.UrlListOfLines | webpage_downloader.py:64 | the first line is a URL exactly when it is not empty, followed by the URLs of the remaining lines in order |
| WebpageDownloader.UrlListRoundTrip | webpage_downloader.py:64 | without blank lines, the URL list joined with `\n` gives the file back |
| WebpageDownloader.BlankLinesDropped | webpage_downloader.py:64 | blank lines in the middle and a final line break produce no URL |
| Vectorstore.UpsertKeepsDistinct | vectorstore.py:26-34 | upserting keeps identifiers unique |
| Vectorstore.UpsertOneIdempotent | vectorstore.py:26-34 | upserting the same point twice is the same as upserting it once |
| Vectorstore.UpsertFresh | vectorstore.py:26-34 | points with new, pairwise distinct identifiers are appended in order |
| Vectorstore.QdrantVectorstore.constructor | vectorstore.py:13-24 | a new collection is empty and searched with the given search |
| Vectorstore.QdrantVectorstore.Add | vectorstore.py:26-34 | the stored points become the upsert of the documents by identifier, and identifiers stay unique |
| Vectorstore.QdrantVectorstore.Search | vectorstore.py:36-44 | the search's hits; under the stated assumptions there are none on an empty collection, at most `limit`, and each one is a stored point |
| Service.DocumentChunks | service.py:40 | zipping texts with vectors stops at the shorter list |
| Service.DocumentChunksAt | service.py:40 | chunk i has text i, vector i, metadata `{'title': title}` and the identifier after those before it |
| Service.FaqChunks | service.py:53-57 | one chunk per pair: the question as text, the vector of the question embedded as a query, metadata with an empty title, the answer and the category (`None` when absent), and consecutive identifiers |
| Service.TitledVectors | service.py:39 | with one vector per text from the model, there is one vector per chunk |
| Service.TitledVectorsFramed | service.py:39 | the vectors are the model's output for the batch of `title</s>chunk` texts |
| Service.IdsFromDistinct | service.py:40 | consecutively numbered chunks have distinct identifiers |
| Service.AppendFresh | service.py:41 | adding consecutively numbered chunks that start at a free identifier appends them, and the bound on identifiers advances by their number |
| Service.FaqChunksCarryAnswers | service.py:55-59 | after FAQ chunks are added, every stored FAQ point still carries a string answer |
| Service.QAService.constructor | service.py:20-23 | the service holds the given encoder and stores, and starts with an identifier above every stored one |
| Service.QAService.TextChunks | service.py:38-40 | at most one chunk per piece of `to_chunks`, and exactly one per piece when the model returns one vector per text |
| Service.QAService.TextChunksAt | service.py:38-40 | chunk i holds piece i of the text, the vector of `title</s>piece` for that piece, metadata `{'title': title}` and consecutive identifiers |
| Service.QAService.AnswerChunksStep | service.py:64-66 | indexing one more answer appends its chunks after those of the answers before it |
| Service.QAService.AnswerChunksIds | service.py:64-66 | the chunks of all indexed answers are numbered consecutively, and each carries as its title the question of one of the pairs |
| Service.QAService.AddText | service.py:36-41 | the text's chunks are appended to the document collection; the FAQ collection is unchanged; the invariant is kept |
| Service.QAService.AddHtmlArticle | service.py:43-47 | a page without a line break in its text fails with `ValueError` and changes nothing; otherwise the body is indexed under the first line as title |
| Service.QAService.AddHtmlFaq | service.py:49-66 | one chunk per parsed question is appended to the FAQ collection. The document collection is unchanged unless answers are indexed; then each answer is appended in order, titled by its question. FAQ points keep their answers |
| Service.QAService.AddFaqChunks | service.py:51-59 | the FAQ chunks of the pairs are appended to the FAQ collection, and nothing else changes |
| Service.QAService.IndexAnswers | service.py:64-66 | the loop appends each answer's chunks, in order, to the document collection |
| Service.QAService.Query | service.py:68-74 | the document hits for the embedded query; under the stated assumptions there are none on an empty collection, at most `limit`, all of them stored |
| Service.QAService.QueryWithFaq | service.py:76-91 | `SimilarQuestion` with the single FAQ hit iff the FAQ search returns a hit scoring at least the threshold; otherwise the document hits with `RelevantChunks`, also when the FAQ collection returns nothing |
| Service.QAService.FindBestAnswer | service.py:93-99 | the answer of the similar question (`KeyError` when it has none), or the text of the first document hit (`IndexError` when there is none) |
| Service.QAService.ThresholdMonotone | service.py:82-83 | a FAQ hit that reaches a threshold reaches every lower one too, with the same result |
| Service.QAService.NothingIngested | service.py:76-99 | with both collections empty, the query falls back to no hits and `find_best_answer` fails with `IndexError` |
| Service.QAService.SimilarQuestionHasAnswer | service.py:93-98 | when the FAQ collection holds only points with answers, as `add_html_faq` stores them, a similar question never raises `KeyError`: its answer is the answer of a stored FAQ point |

## Left out

- The recursive character splitter of LangChain is a parameter, so the `to_chunks` example in its documentation, which depends on that splitter, is not modelled.
- The transformer model, tokenizer, `[CLS]` pooling and `normalize` are the opaque function `embed`.
- EmbeddingEncoder.Encoder.EmbedQuery: it requires that the model returns one vector per text, so the `IndexError` of an empty model output is not modelled.
- Service.QAService.constructor: it requires two distinct store objects. The source's `from_default` also builds two distinct collections.
- `from_default` is not modelled. It creates a Qdrant client and calls `create_collection`, which `vectorstore.py` does not define.
- The Qdrant client is not modelled: collection creation, dot-product ranking, `total_chunks`, and the copying of payloads into hits. Search is the opaque function `search`.
- Chunk identifiers are fresh `uuid4` strings in the source. The model uses a counter and relies only on freshness.
- BeautifulSoup parsing, `find_all` and the link rewriting `__modify_a_tags` are opaque functions of `HtmlParser`. An element is reduced to its name, attribute names, text and children.
- Floats are modelled as reals, and vectors are never inspected.
- Fetching, saving, sleeping, logging and argument parsing in `webpage_downloader.py` are not modelled, and neither are `utils.py`, `run_service.py` and `evaluate_service.py`. They are I/O or command-line glue.
- Concurrency is not modelled. The service is single-threaded.
