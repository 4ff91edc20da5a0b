# Equity research assistant: the query-path helpers, in Dafny

This project models the deterministic core of a retrieval-augmented news and
equity research assistant (`equity_rag/app.py`). A user's question is answered
by retrieving up to four document chunks from a vector store, joining their texts
into a context block, placing context and question into a fixed prompt for a
language model, and listing the sources of the retrieved chunks below the
answer. What is modelled and proved:

- `format_docs`: the context block is the chunk texts joined by a blank line
  (`"\n\n"`) in retrieval order (module `ContextFormat`).
- `extract_sources`: the citation list is `sorted(set(...))` of each chunk's
  `"source"` metadata, with `"Unknown"` for a chunk without one
  (modules `SourceAttribution` and `StringOrder`, the latter being Python's
  ordering of `str` values).
- the prompt f-string: fixed rules text, then the context after `Context:`, then
  the question after `Question:`, then `Answer:` (module `PromptTemplate`).
- the two guards of the page: only non-empty URL fields are collected, and the
  query path runs only when the button is pressed and the question is non-empty
  (module `Pipeline`).

The retriever, the language model, web loading, chunking, the vector store and
the Streamlit page are outside the model: the retrieved documents are a
parameter of `Pipeline.RunQuery`, and its result is the prompt handed to the
model together with the citations shown, rather than the model's answer.

Notes on what the code does:

- The rules in the prompt are fixed text. They say both "answer ONLY from the
  provided context" and "get some information from the internet". There is no
  switch between a strict-context mode and a general-knowledge mode, so the model
  has none.
- The sidebar has one URL field (`range(1)`), so a run collects zero or one URL. `Pipeline.CollectUrls` is stated for any number of fields.
- No error is caught anywhere on the query path. A failing retriever or model
  call raises and ends the script run, so the model has no error outcomes beyond
  "not run".

## Model

| member | source | states |
|---|---|---|
| `Documents.SourceOf` | equity_rag/app.py:101 | `d.metadata.get("source", "Unknown")`: the document's `"source"` entry when it has one, otherwise `"Unknown"` |
| `Documents.Contents` | equity_rag/app.py:97 | the texts handed to the join are the documents' `page_content`, one per document, in retrieval order |
| `StringOrder.Less` | equity_rag/app.py:101 | the order `sorted` applies to strings: a proper prefix sorts first, and a string that sorts first never starts with a larger code point; its full characterisation and order laws are the lemmas below |
| `StringOrder.LessIffPrefixOrSmallerAtFirstDifference` | equity_rag/app.py:101 | the order `sorted` applies to strings holds exactly when `a` is a proper prefix of `b` or `a` has the smaller code point at the first position where they differ |
| `StringOrder.LessIrreflexive` | equity_rag/app.py:101 | no string sorts before itself |
| `StringOrder.LessAsymmetric` | equity_rag/app.py:101 | two strings never sort before each other |
| `StringOrder.LessTransitive` | equity_rag/app.py:101 | the string order is transitive |
| `StringOrder.LessConnected` | equity_rag/app.py:101 | any two different strings are ordered one way or the other, so sorting a set of strings has one answer |
| `SourceAttribution.Insert` | equity_rag/app.py:101 | adding one citation to a sorted, duplicate-free list keeps it sorted and duplicate-free, adds exactly that element, grows it by at most one, and leaves it unchanged when the citation is already listed |
| `SourceAttribution.ExtractSources` | equity_rag/app.py:100-101 | the citation list is strictly ascending (so sorted and duplicate-free), its elements are exactly the documents' sources, and it is no longer than the document list |
| `SourceAttribution.ExtractSourcesMembership` | equity_rag/app.py:101 | a string is cited exactly when some document's `"source"` equals it, or some document has no `"source"` and the string is `"Unknown"` |
| `SourceAttribution.ExtractSourcesNoDuplicates` | equity_rag/app.py:101 | no citation appears twice |
| `SourceAttribution.StrictlySortedUnique` | equity_rag/app.py:101 | two strictly ascending lists with the same elements are equal: a set has a single sorted listing |
| `SourceAttribution.ExtractSourcesIsSortedListingOfSet` | equity_rag/app.py:101 | any strictly ascending list of exactly the documents' sources is the citation list |
| `SourceAttribution.ExtractSourcesDependsOnlyOnSourceSet` | equity_rag/app.py:101 | retrievals with the same set of sources get the same citations, whatever their order and repetitions |
| `SourceAttribution.DistinctCardinality` | equity_rag/app.py:101 | a strictly ascending list has as many elements as its element set |
| `SourceAttribution.ExtractSourcesLength` | equity_rag/app.py:101 | one citation per distinct source, never more than the number of documents |
| `SourceAttribution.ExtractSourcesEmpty` | equity_rag/app.py:101 | no documents, no citations |
| `SourceAttribution.ExtractSourcesExample` | equity_rag/app.py:101 | documents with sources "b", "a", "a" are cited as ["a", "b"] |
| `ContextFormat.Join` | equity_rag/app.py:97 | `"\n\n".join(parts)`: for n >= 1 passages the result is as long as the passages together plus 2·(n−1); where each passage sits and the separators between them are stated by `JoinKeepsPassage` and `JoinSeparatesNeighbours` |
| `ContextFormat.FormatDocs` | equity_rag/app.py:96-97 | `format_docs`: no documents give the empty context and one document's text is the context unchanged, with no separator; `FormatDocsRoundTrip` recovers each text |
| `ContextFormat.JoinKeepsPassage` | equity_rag/app.py:97 | passage i is found unchanged at its offset (the earlier passages and their separators), so order is kept |
| `ContextFormat.JoinSeparatesNeighbours` | equity_rag/app.py:97 | between passage i and passage i+1 there is exactly one `"\n\n"` |
| `ContextFormat.SplitJoinRoundTrip` | equity_rag/app.py:97 | splitting the joined text on `"\n\n"` gives the passages back when there is at least one, none contains `"\n\n"` and none but the last ends in a newline |
| `ContextFormat.FormatDocsRoundTrip` | equity_rag/app.py:96-97 | under the same conditions, splitting the context gives each document's text in retrieval order |
| `ContextFormat.JoinAmbiguousAfterTrailingNewline` | equity_rag/app.py:97 | ["a\n", "b"] and ["a", "\nb"] give the same context, so a passage ending in a newline cannot be recovered by any split |
| `ContextFormat.SplitWithoutSeparator` | equity_rag/app.py:97 | a passage without `"\n\n"` splits into itself alone |
| `ContextFormat.SplitAfterPassage` | equity_rag/app.py:97 | the separator after a passage without `"\n\n"` and without a trailing newline is the first cut |
| `PromptTemplate.BuildPrompt` | equity_rag/app.py:136-152 | the prompt f-string: from the prompt and the context's length, the context and the question are read back exactly; its layout is `PromptLayout` |
| `PromptTemplate.PromptLayout` | equity_rag/app.py:136-152 | the prompt is the rules text ending in `Context:`, then the context, then `Question:`, then the question, then `Answer:`; the context ends before the question begins |
| `PromptTemplate.BuildParseRoundTrip` | equity_rag/app.py:136-152 | whatever is read back out of a text rebuilds that very text, so reading accepts only prompts of the template |
| `PromptTemplate.BuildPromptInjective` | equity_rag/app.py:136-152 | equal prompts with equally long contexts come from the same context and question |
| `Pipeline.NonEmptyInputs` | equity_rag/app.py:53-54 | the `if url:` filter: every value kept is non-empty, and no more values come out than went in; which ones and in what order is stated by the `Collected…` lemmas |
| `Pipeline.CollectUrls` | equity_rag/app.py:46-54 | the sidebar loop's list is the non-empty field values in field order |
| `Pipeline.CollectedUrlsAreEnteredNonEmpty` | equity_rag/app.py:53-54 | a URL is collected exactly when it was entered and is non-empty |
| `Pipeline.CollectedUrlsKeepEntryOrder` | equity_rag/app.py:48-54 | collecting distributes over consecutive fields, so entry order is kept |
| `Pipeline.CollectUrlsKeepsFilledFields` | equity_rag/app.py:48-54 | when every field is filled in, every value is collected unchanged |
| `Pipeline.CollectedUrlsAtMostOnePerField` | equity_rag/app.py:46-54 | at most one URL per field, so at most one with the page's single field |
| `Pipeline.RunQuery` | equity_rag/app.py:131-187 | the query path runs exactly when the button is pressed and the question is non-empty; then the prompt is built from the formatted retrieved documents and the question, and the citations are those of the same documents, listed by the loop of lines 185-187 |
| `Pipeline.AnsweredPromptSections` | equity_rag/app.py:133-152 | the prompt of an answered question reads back as exactly the formatted context and the question |
| `Pipeline.BlankQuestionStillRuns` | equity_rag/app.py:131 | the guard is Python truthiness: a question of one blank runs, the empty question does not |
| `Pipeline.SourcesShownBounded` | equity_rag/app.py:185-187 | with the retriever's k of 4 (line 85), at most four citations are listed, sorted and distinct |

## Left out

- The Streamlit page (layout, header, columns, example questions, spinner, the
  HTML answer box, the source list's Markdown): presentation only.
- Loading `GROQ_API_KEY` and failing when it is missing (lines 16-21): environment
  access at start-up, outside the query path.
- The "Process URLs" branch (lines 59-71): `WebBaseLoader` fetches over the
  network and `RecursiveCharacterTextSplitter` is library code that is not part of
  this model; its result is never used on the query path.
- The embedding model, the Chroma store and its cached construction, and the
  retriever (lines 77-85): foreign calls and similarity search over floating
  point vectors. The retrieved documents are a parameter of `Pipeline.RunQuery`;
  only the bound k = 4 is used, in `Pipeline.SourcesShownBounded`.
- The language model call (lines 90, 154): an external, nondeterministic service.
  The model stops at the prompt that is sent to it.
- The `SOURCE_HOVER` table (lines 177-180): never read.
- Documents.Document: metadata is a map from strings to strings. Python allows
  any value under `"source"`, and sorting a set of mixed types would raise.
- StringOrder.Less: orders Dafny characters, which are Unicode scalar values.
  Python strings may also hold lone surrogates. These are not modelled.
- ContextFormat.Split: models `str.split("\n\n")` only, as a reference for the
  round trip. The source never splits the context.
