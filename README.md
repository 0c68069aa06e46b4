# Semantic chunking, indexing and search dispatch of a vector search service

A Dafny model of the retrieval core of a document search service. The model covers
three services.

- **Chunking service.** It splits a text into sentences. A sentence ends with a
  whitespace run that follows `.`, `!` or `?`. The pieces are stripped and blank
  ones are dropped. A greedy walk then groups the sentences into chunks. Sentence
  `i` joins the open chunk unless it is not similar to sentence `i - 1`, or unless
  the open chunk's length plus its own would exceed the size budget (default 512).
  Every chunk record carries its content, index, sentence count and start and end
  positions.
- **Vector service.** `index_document` turns the chunker's output into chunk
  records with ids `{document_id}_chunk_{i}` and shared metadata. `smart_search`
  picks a hybrid, semantic, metadata or empty search from which of `query` and
  `filters` are present. It then maps the repository's `(chunk, score)` pairs to
  search results.
- **Document processor.** It picks the PDF, image or text extractor from the
  content type and the file extension. It collects the non-blank pages of a PDF,
  numbered by their place in the file. OCR output and plain text are wrapped as
  one page. It also checks uploads for size and emptiness.

The embedding model and its cosine-similarity test become an oracle
`similar(a, b)`. The oracle means "the similarity of the embeddings of sentences
`a` and `b` is not below 0.5". The embedding model encodes each sentence on its own, so a
test on a pair of texts is the same as a test on a pair of positions. The
repository behind the vector service is not shown. Searching takes the
repository's answer to each query as a function parameter. Indexing returns the
batch of records it would hand to the repository. The PDF reader, the OCR engine
and UTF-8 decoding are libraries, so their outputs are inputs of the model
(`Documents.Readings`).

Modules: `Wrappers` (Option, Result), `Text` (Python whitespace, `strip`, `join`,
`str(n)`), `Sentences` (the segmenter), `Chunking` (the greedy grouping as a
function, its properties, and the `ChunkingService` class with the imperative
loop), `ChunkingExample` (a worked example), `Vectors` (`VectorService`),
`Documents` (`DocumentProcessor`).

Behaviours of the code that the model keeps as they are:

- Blank input: chunking raises `ValueError` rather than returning no chunks.
- Chunk ids have the form `{document_id}_chunk_{i}`; no page number is part of them.
- Size budget: the default is 512. The size test leaves out the space that joins
  the new sentence, so a chunk of several sentences can be one character over the
  budget.
- Abbreviations and decimal numbers: nothing guards against them, so `Dr. Smith`
  is cut after `Dr.`.
- Requests with neither query nor filters return an empty list and make no
  repository call.

## Model

| member | source | states |
|---|---|---|
| `Text.Strip` | app/services/chunking_service.py:66 | `s.strip()`: a slice of `s` with no whitespace at either end; it keeps every non-whitespace character; it is empty exactly when `s` is blank |
| `Sentences.RawSplit` | app/services/chunking_service.py:62-63 | `re.split(r'(?<=[.!?])\s+', s)`: at least one piece; no piece has `.`, `!` or `?` followed by whitespace; the pieces' non-whitespace characters are those of `s`, in order; which pieces exactly is stated by `RawSplitShape` and `RawSplitInterleave` |
| `Sentences.RawSplitShape` | app/services/chunking_service.py:62-63 | every text is its `re.split` pieces with non-empty whitespace runs between them; no piece has a boundary, every piece but the last ends with `.`, `!` or `?`, and every piece but the first is empty or starts with a non-whitespace character |
| `Sentences.RawSplitInterleave` | app/services/chunking_service.py:62-63 | conversely, any text built from pieces of that shape and whitespace runs splits back into exactly those pieces, so `RawSplit(s)` is the one decomposition of `s` of that shape |
| `Sentences.Clean` | app/services/chunking_service.py:66 | stripping and dropping blank pieces yields only sentences: non-empty, no whitespace at either end, no boundary inside; no non-whitespace character is lost; which sentences, in which order, is stated by `CleanAppend` and `CleanOne` |
| `Sentences.CleanAppend` | app/services/chunking_service.py:66 | the comprehension works piece by piece: cleaning a concatenation of piece lists concatenates the cleaned lists |
| `Sentences.CleanOne` | app/services/chunking_service.py:66 | one piece yields its stripped text, or nothing when the piece is blank; with `CleanAppend`, the result is the stripped non-blank pieces, in order |
| `Sentences.SplitIntoSentences` | app/services/chunking_service.py:51-68 | every returned sentence is non-empty, stripped and boundary-free; their non-whitespace characters, in order, are exactly those of the text |
| `Sentences.SentencesEmptyIffBlank` | app/services/chunking_service.py:62-68 | the segmenter returns no sentence exactly when the text is empty or all whitespace |
| `Sentences.SplitJoinRoundTrip` | app/services/chunking_service.py:62-66 | sentences that end with `.`, `!` or `?` (the last need not), joined by single spaces, split back into exactly those sentences |
| `Sentences.SplitSpacedRoundTrip` | app/services/chunking_service.py:51-68 | sentences that end with `.`, `!` or `?` (the last need not), separated by any non-empty whitespace runs and with any blank text before and after, split back into exactly those sentences |
| `Chunking.OrDefault` | app/services/chunking_service.py:34-35 | `x or default`: the default exactly when the value is missing or 0 (or equals the default), the value otherwise |
| `Chunking.ChunkingService.constructor` | app/services/chunking_service.py:26-35 | `chunk_size` falls back to 512 and `chunk_overlap` to 50 when missing or 0 |
| `Chunking.ChunkingService.ChunkSentences` | app/services/chunking_service.py:117-165 | the loop over the sentences; its invariant keeps the tracked length equal to the length of the open chunk joined by spaces, and it returns the records of the greedy grouping `Groups` |
| `Chunking.ChunkingService.ChunkText` | app/services/chunking_service.py:83-168 | `chunk_text` returns exactly `ChunkTextSpec`: the empty-text error, the no-sentences error, or the records of the greedy grouping |
| `Chunking.ChunkTextFails` | app/services/chunking_service.py:101-108 | `chunk_text` fails exactly on a blank text, and the "no sentences found" error is unreachable |
| `Chunking.GroupsCover` | app/services/chunking_service.py:117-153 | the groups built for the first `n` sentences hold exactly those sentences, in order |
| `Chunking.GroupsAreGreedy` | app/services/chunking_service.py:122-153 | in the loop's grouping, each sentence in a group is similar to the one before and passed the size test; each later group's first sentence failed the similarity test or the size test |
| `Chunking.GreedyGroupingUnique` | app/services/chunking_service.py:129-153 | the greedy description fixes the grouping: any grouping in which sentence `i` opens a chunk exactly when it is not similar to sentence `i - 1` or does not fit is the loop's |
| `Chunking.ChunkTextIsGreedy` | app/services/chunking_service.py:83-168 | on a text that is not blank, `chunk_text` returns the records of any greedy grouping of its sentences |
| `Chunking.SizeBound` | app/services/chunking_service.py:129-153 | a chunk of two or more sentences is at most `chunk_size + 1` long and each of its sentences fits the budget; a sentence over the budget is a chunk on its own, never split |
| `Chunking.SizeBoundReached` | app/services/chunking_service.py:129-153 | the bound is reached: two similar sentences whose lengths add up to the budget make one chunk one character over it |
| `Chunking.ChunkInfosShape` | app/services/chunking_service.py:136-165 | the k-th record has index k, holds the k-th group joined by spaces and its sentence count; the first starts at 0, each ends its content's length after its start, the next starts one past the previous end |
| `Chunking.PositionsInStream` | app/services/chunking_service.py:120-162 | each record's start and end delimit its content within the contents joined by single spaces, and the last record ends where that stream ends |
| `Chunking.ContentsRejoin` | app/services/chunking_service.py:136-165 | the chunk contents joined by spaces equal the sentences joined by spaces, and the sentence counts add up to the number of sentences |
| `Chunking.ChunkTextRecords` | app/services/chunking_service.py:101-165 | on a text that is not blank: at least one record, indices 0..n-1, every count at least 1, counts summing to the number of sentences, rejoined contents equal to the rejoined sentences, chained positions, the `chunk_size + 1` bound |
| `Chunking.TwoTopics` | app/services/chunking_service.py:122-165 | four rejoinable sentences where only the middle pair is not similar, and each similar pair fits, make two chunks of two sentences |
| `ChunkingExample.InvoiceExample` | app/services/chunking_service.py:83-168 | the invoice text with similarities high, low, high is cut into "Invoice #1 dated Jan 1. Total is $10." (0 to 37) and "Payment due in 30 days. Late fee applies." (38 to 79) |
| `Text.DecimalStringInjective` | app/services/vector_service.py:56 | `str(n)` of two different non-negative integers differ |
| `Vectors.ChunkIdInjective` | app/services/vector_service.py:56 | two chunk ids of one document are equal exactly when their indices are |
| `Vectors.VectorService.constructor` | app/services/vector_service.py:17-21 | the service's chunker uses the default size 512 and overlap 50 |
| `Vectors.VectorService.IndexDocument` | app/services/vector_service.py:23-86 | blank content is refused before chunking; a chunker error is passed on; otherwise one record per chunker entry, in order, and `total_chunks` is their number; a left-out `source` or `page_number` is `"pdf"` or 1 |
| `Vectors.BuildRecords` | app/services/vector_service.py:54-74 | one record per chunker entry, in order, each built from that entry and the document's fields |
| `Vectors.RecordsOfChunks` | app/services/vector_service.py:55-79 | record k has id `{document_id}_chunk_{k}` and chunk index k; ids are pairwise distinct; content comes from the chunker; owner, source and page are copied; tags are the given list, or empty when none is given |
| `Vectors.ChooseSearch` | app/services/vector_service.py:93-126 | hybrid exactly when query and filters are both truthy, semantic on the query alone, metadata on the filters alone, no repository call otherwise; the strategy gets the request's `top_k`, 5 if missing |
| `Vectors.ChooseSearchByRequest` | app/services/vector_service.py:93-126 | per request model: hybrid gets its weight (0.7 if missing); an empty query falls back to metadata or to nothing; metadata requests always search metadata |
| `Vectors.SmartSearch` | app/services/vector_service.py:88-143 | the results have the same length and order as the repository's answer; each gives back exactly its chunk's fields and its score as `similarity_score` |
| `Documents.Lower` | app/services/document_processor.py:120 | `str.lower()` on ASCII: same length, upper-case letters shifted by 32, other characters kept |
| `Documents.Classify` | app/services/document_processor.py:120-147 | PDF exactly on `application/pdf` or `.pdf`; image exactly when not PDF and the type starts with `image/` or the extension is one of the six; text exactly when neither of those and the type is `text/plain` or the extension `.txt`; unsupported exactly when none of the three branches matches |
| `Documents.PdfWins` | app/services/document_processor.py:120-124 | a `.pdf` suffix in any ASCII letter case, or the PDF content type, always picks the PDF branch |
| `Documents.ExtractTextFromFile` | app/services/document_processor.py:103-147 | dispatches to the PDF, image or text extraction as `Classify` says, and refuses any other type with the content type in the error |
| `Documents.ExtractTextFromPdf` | app/services/document_processor.py:21-59 | the page loop keeps the non-blank pages under their 1-based numbers and joins their texts with blank lines |
| `Documents.KeptPagesSound` | app/services/document_processor.py:35-43 | every kept page is a non-blank page of the file, under its 1-based number, with its length as `char_count` |
| `Documents.KeptPagesIncreasing` | app/services/document_processor.py:36-43 | kept page numbers strictly increase |
| `Documents.KeptPagesComplete` | app/services/document_processor.py:36-43 | no non-blank page is dropped |
| `Documents.PdfExtractionFacts` | app/services/document_processor.py:35-59 | a reader failure is an error, never an empty result; otherwise `total_pages` counts all pages, `extracted_pages` the kept ones, and the text is the kept texts joined by blank lines |
| `Documents.ExtractTextFromImage` | app/services/document_processor.py:61-101 | succeeds exactly when OCR ran and its text is not blank; then one page numbered 1, both counts 1, source `ocr`, and the image size |
| `Documents.TextExtraction` | app/services/document_processor.py:129-141 | the decoded text as one page numbered 1, both counts 1, source `text`, `char_count` its length |
| `Documents.ValidateFileInBytes` | app/services/document_processor.py:149-175 | too large exactly when the size exceeds `max_size_mb` MiB, checked first; empty exactly when 0 bytes and not too large; valid exactly when 1 byte up to the limit |
| `Documents.ValidateFileDefault` | app/services/document_processor.py:149-175 | under the default 10 MiB, valid exactly for 1 to 10485760 bytes |

## Left out

- Embeddings and cosine similarity (`_calculate_similarity`, the sentence-transformer model): floating point and a foreign model. They are replaced by the boolean oracle `similar`.
- `app/repository/vector_repo.py` is not part of this model. Its semantic, metadata and hybrid searches are a function parameter of `SmartSearch`. No fusion formula, score clamping or ordering is assumed.
- `index_chunks` and `get_stats` belong to the repository. `IndexDocument` returns the batch it would index plus `document_id` and `total_chunks`. It leaves out the other keys of the repository's result and the repository's failures.
- `app/services/embedding_service.py` is not part of this model.
- `created_at` timestamps, logging, the measured query time of `smart_search`, and `async` are left out.
- The PDF reader, PIL, Tesseract and UTF-8 decoding are inputs (`Readings`). Any reader failure is one `PdfFailed`. The RGB conversion of images is left out.
- `Path(filename).suffix` is an input, not computed from the file name.
- Vectors.VectorService.IndexDocument: `None` stands for a `source` or `page_number` argument that was left out; an explicit Python `None` passed for them is not modelled.
- Documents.Lower: lower-cases ASCII letters only, not the rest of Unicode, because the file extensions it is compared with are ASCII.
- Error messages are reduced to their kind; the formatted text is left out.
- The range checks of the request models (`top_k` in 1..100, `weight_vector` in 0..1) are done by the schema library, not by this core, and are left out.
- `chunk_overlap` is stored but never used by the chunker, as in the code.
- FastAPI routes, HTTP status mapping, configuration loading and the HTTP test clients are left out.
