/**
 * The vector service: turning a document into chunk records for the repository,
 * and choosing which repository search answers a search request.
 *
 * The repository itself (indexing, semantic, metadata and hybrid search) is not
 * part of this model: indexing returns the batch of records it would hand over,
 * and searching takes the repository's answer to each kind of query as a
 * function parameter.
 */
module Vectors {
  import opened Wrappers
  import opened Text
  import opened Chunking

  /** The defaults `getattr` falls back to for an absent `top_k` or `weight_vector`. */
  const DEFAULT_TOP_K: int := 5
  const DEFAULT_WEIGHT_VECTOR: real := 0.7

  /** The defaults of `index_document`'s `source` and `page_number` arguments. */
  const DEFAULT_SOURCE: string := "pdf"
  const DEFAULT_PAGE_NUMBER: int := 1

  /** `MetadataModel`, without its `created_at` timestamp. */
  datatype Metadata = Metadata(source: string, pageNumber: int, chunkIndex: int, tags: seq<string>)

  /** `ChunkModel`: one chunk record as the repository stores it. */
  datatype ChunkRecord = ChunkRecord(chunkId: string, documentId: string, userId: string, content: string, metadata: Metadata)

  /** What `index_document` reports: the records indexed, the document and their number. */
  datatype IndexResult = IndexResult(chunks: seq<ChunkRecord>, documentId: string, totalChunks: nat)

  /** The `ValueError` raised before chunking, or the chunker's own error passed on. */
  datatype IndexError = EmptyContent | ChunkFailed(cause: ChunkError)

  /** `MetadataFilter`: every field optional. */
  datatype MetadataFilter = MetadataFilter(
    source: Option<string>,
    pageNumber: Option<int>,
    tags: Option<seq<string>>,
    documentId: Option<string>,
    userId: Option<string>)

  /**
   * `SearchRequest`: one of the three request models. `topK` and `weightVector` are
   * None when the caller left them out; the request model then carries its default,
   * which is also the default `smart_search` reads them with.
   */
  datatype SearchRequest =
    | HybridSearchRequest(query: string, filters: MetadataFilter, topK: Option<int>, weightVector: Option<real>)
    | SemanticSearchRequest(query: string, topK: Option<int>)
    | MetadataSearchRequest(filters: MetadataFilter, topK: Option<int>)

  /** The repository call `smart_search` makes, with its arguments. */
  datatype RepoQuery =
    | HybridQuery(query: string, filters: MetadataFilter, topK: int, weightVector: real)
    | SemanticQuery(query: string, topK: int)
    | MetadataQuery(filters: MetadataFilter, topK: int)

  /** `SearchResult`: a chunk record with its score. */
  datatype SearchResult = SearchResult(
    chunkId: string,
    documentId: string,
    userId: string,
    content: string,
    metadata: Metadata,
    similarityScore: real)

  /** The identifier `f"{document_id}_chunk_{chunk_index}"`. */
  function ChunkId(documentId: string, chunkIndex: nat): (id: string)
    ensures |id| > |documentId| + 7 && id[..|documentId|] == documentId
  {
    documentId + "_chunk_" + DecimalString(chunkIndex)
  }

  /** The record built for one entry of the chunker's output. */
  function MakeRecord(documentId: string, userId: string, source: string, pageNumber: int,
                      tags: Option<seq<string>>, info: ChunkInfo): ChunkRecord {
    ChunkRecord(
      ChunkId(documentId, info.chunkIndex),
      documentId,
      userId,
      info.content,
      Metadata(source, pageNumber, info.chunkIndex, tags.GetOr([])))
  }

  /** Chunk identifiers of one document differ exactly when the chunk indices differ. */
  lemma ChunkIdInjective(documentId: string, i: nat, j: nat)
    ensures ChunkId(documentId, i) == ChunkId(documentId, j) <==> i == j
  {
    var p := documentId + "_chunk_";
    if ChunkId(documentId, i) == ChunkId(documentId, j) {
      assert DecimalString(i) == ChunkId(documentId, i)[|p|..];
      assert DecimalString(j) == ChunkId(documentId, j)[|p|..];
      DecimalStringInjective(i, j);
    }
  }

  /** `VectorService`, with the chunker it builds with default settings. */
  class VectorService {
    const chunker: ChunkingService

    /** `__init__`: a chunker with the default size and overlap, over the given similarity oracle. */
    constructor (similar: (string, string) -> bool)
      ensures chunker.chunkSize == DEFAULT_CHUNK_SIZE
      ensures chunker.chunkOverlap == DEFAULT_CHUNK_OVERLAP
      ensures chunker.similar == similar
    {
      chunker := new ChunkingService(None, None, similar);
    }

    /**
     * `index_document`: blank content is refused before chunking; otherwise one
     * record per chunk, in order, each copying the document's owner, source, page
     * and tags (no tags meaning none), and the count of records. A `source` or
     * `pageNumber` of None is an argument left out, which takes its default.
     */
    method IndexDocument(documentId: string, userId: string, content: string,
                         source: Option<string>, pageNumber: Option<int>, tags: Option<seq<string>>)
      returns (r: Result<IndexResult, IndexError>)
      ensures IsBlank(content) ==> r == Err(EmptyContent)
      ensures !IsBlank(content) ==>
        var spec := ChunkTextSpec(content, chunker.chunkSize, chunker.similar);
        var src, page := source.GetOr(DEFAULT_SOURCE), pageNumber.GetOr(DEFAULT_PAGE_NUMBER);
        && (spec.Err? ==> r == Err(ChunkFailed(spec.error)))
        && (spec.Ok? ==>
              && r.Ok?
              && r.value.documentId == documentId
              && |r.value.chunks| == |spec.value| == r.value.totalChunks
              && (forall k :: 0 <= k < |spec.value| ==>
                    r.value.chunks[k] == MakeRecord(documentId, userId, src, page, tags, spec.value[k])))
    {
      if IsBlank(content) {
        return Err(EmptyContent);
      }
      var chunkInfos := chunker.ChunkText(content, documentId);
      if chunkInfos.Err? {
        return Err(ChunkFailed(chunkInfos.error));
      }
      var src, page := source.GetOr(DEFAULT_SOURCE), pageNumber.GetOr(DEFAULT_PAGE_NUMBER);
      var chunks := BuildRecords(documentId, userId, src, page, tags, chunkInfos.value);
      r := Ok(IndexResult(chunks, documentId, |chunks|));
    }
  }

  /** The loop of `index_document` that turns each chunker entry into a record, in order. */
  method BuildRecords(documentId: string, userId: string, source: string, pageNumber: int,
                      tags: Option<seq<string>>, infos: seq<ChunkInfo>)
    returns (chunks: seq<ChunkRecord>)
    ensures |chunks| == |infos|
    ensures forall k :: 0 <= k < |infos| ==>
      chunks[k] == MakeRecord(documentId, userId, source, pageNumber, tags, infos[k])
  {
    chunks := [];
    for i := 0 to |infos|
      invariant |chunks| == i
      invariant forall k :: 0 <= k < i ==>
        chunks[k] == MakeRecord(documentId, userId, source, pageNumber, tags, infos[k])
    {
      var info := infos[i];
      var chunkId := documentId + "_chunk_" + DecimalString(info.chunkIndex);
      var metadata := Metadata(source, pageNumber, info.chunkIndex, tags.GetOr([]));
      var chunk := ChunkRecord(chunkId, documentId, userId, info.content, metadata);
      chunks := chunks + [chunk];
    }
  }

  /**
   * What indexing promises about the records, given the chunker's output for a
   * text that is not blank: the k-th record is chunk k of the document, its
   * identifier is unique among the records, and it carries the chunk's content
   * and the document's owner, source, page and tags.
   */
  lemma RecordsOfChunks(documentId: string, userId: string, source: string, pageNumber: int,
                        tags: Option<seq<string>>, infos: seq<ChunkInfo>, records: seq<ChunkRecord>)
    requires forall k :: 0 <= k < |infos| ==> infos[k].chunkIndex == k
    requires |records| == |infos|
    requires forall k :: 0 <= k < |infos| ==>
      records[k] == MakeRecord(documentId, userId, source, pageNumber, tags, infos[k])
    ensures forall k :: 0 <= k < |records| ==>
      && records[k].chunkId == ChunkId(documentId, k)
      && records[k].metadata.chunkIndex == k
      && records[k].documentId == documentId && records[k].userId == userId
      && records[k].content == infos[k].content
      && records[k].metadata.source == source && records[k].metadata.pageNumber == pageNumber
      && records[k].metadata.tags == tags.GetOr([])
    ensures forall i, j :: 0 <= i < |records| && 0 <= j < |records| && i != j ==>
      records[i].chunkId != records[j].chunkId
  {
    forall i, j | 0 <= i < |records| && 0 <= j < |records| && i != j
      ensures records[i].chunkId != records[j].chunkId
    {
      ChunkIdInjective(documentId, i, j);
    }
  }

  /** `getattr(request, 'query', None)`. */
  function QueryOf(request: SearchRequest): Option<string> {
    match request
    case HybridSearchRequest(q, _, _, _) => Some(q)
    case SemanticSearchRequest(q, _) => Some(q)
    case MetadataSearchRequest(_, _) => None
  }

  /** `getattr(request, 'filters', None)`. */
  function FiltersOf(request: SearchRequest): Option<MetadataFilter> {
    match request
    case HybridSearchRequest(_, f, _, _) => Some(f)
    case SemanticSearchRequest(_, _) => None
    case MetadataSearchRequest(f, _) => Some(f)
  }

  /** `getattr(request, 'top_k', 5)`. */
  function TopKOf(request: SearchRequest): int {
    request.topK.GetOr(DEFAULT_TOP_K)
  }

  /** `getattr(request, 'weight_vector', 0.7)`: only the hybrid request model has the field. */
  function WeightOf(request: SearchRequest): real {
    if request.HybridSearchRequest? then request.weightVector.GetOr(DEFAULT_WEIGHT_VECTOR) else DEFAULT_WEIGHT_VECTOR
  }

  /** Truthiness of the query: present and not the empty string. */
  predicate QueryTruthy(query: Option<string>) {
    query.Some? && query.value != ""
  }

  /** Truthiness of the filters: a filter model is always truthy, so present. */
  predicate FiltersTruthy(filters: Option<MetadataFilter>) {
    filters.Some?
  }

  /**
   * The strategy `smart_search` picks: hybrid when both the query and the filters
   * are truthy, semantic on the query alone, metadata on the filters alone, and no
   * repository call at all otherwise.
   */
  function ChooseSearch(request: SearchRequest): (q: Option<RepoQuery>)
    ensures q.Some? ==> q.value.topK == request.topK.GetOr(DEFAULT_TOP_K)
    ensures q.Some? && q.value.HybridQuery? <==> QueryTruthy(QueryOf(request)) && FiltersTruthy(FiltersOf(request))
    ensures q.Some? && q.value.SemanticQuery? <==> QueryTruthy(QueryOf(request)) && !FiltersTruthy(FiltersOf(request))
    ensures q.Some? && q.value.MetadataQuery? <==> !QueryTruthy(QueryOf(request)) && FiltersTruthy(FiltersOf(request))
    ensures q.None? <==> !QueryTruthy(QueryOf(request)) && !FiltersTruthy(FiltersOf(request))
  {
    var query := QueryOf(request);
    var filters := FiltersOf(request);
    var topK := TopKOf(request);
    var weight := WeightOf(request);
    if QueryTruthy(query) && FiltersTruthy(filters) then
      Some(HybridQuery(query.value, filters.value, topK, weight))
    else if QueryTruthy(query) then
      Some(SemanticQuery(query.value, topK))
    else if FiltersTruthy(filters) then
      Some(MetadataQuery(filters.value, topK))
    else
      None
  }

  /**
   * The strategy for each kind of request: a hybrid request with an empty query
   * falls back to a metadata search, a semantic request with an empty query
   * searches nothing, a metadata request always runs a metadata search; the hybrid
   * search gets the request's weight, 0.7 when it was left out, and every search
   * gets the request's `top_k`, 5 when it was left out.
   */
  lemma ChooseSearchByRequest(request: SearchRequest)
    ensures var k := request.topK.GetOr(5);
      && (request.HybridSearchRequest? && request.query != "" ==>
            ChooseSearch(request) == Some(HybridQuery(request.query, request.filters, k, request.weightVector.GetOr(0.7))))
      && (request.HybridSearchRequest? && request.query == "" ==>
            ChooseSearch(request) == Some(MetadataQuery(request.filters, k)))
      && (request.SemanticSearchRequest? && request.query != "" ==>
            ChooseSearch(request) == Some(SemanticQuery(request.query, k)))
      && (request.SemanticSearchRequest? && request.query == "" ==>
            ChooseSearch(request) == None)
      && (request.MetadataSearchRequest? ==>
            ChooseSearch(request) == Some(MetadataQuery(request.filters, k)))
  {
  }

  /** The chunk record a search result was made from. */
  function RecordOf(result: SearchResult): ChunkRecord {
    ChunkRecord(result.chunkId, result.documentId, result.userId, result.content, result.metadata)
  }

  /** What the repository answers: for each query, the matching records with their scores. */
  type Repository = RepoQuery -> seq<(ChunkRecord, real)>

  /** The repository's answer to a request: nothing when no strategy applies. */
  function RawResults(request: SearchRequest, repository: Repository): seq<(ChunkRecord, real)> {
    match ChooseSearch(request)
    case None => []
    case Some(q) => repository(q)
  }

  /**
   * `smart_search`: run the chosen repository search and turn each (record, score)
   * pair into a search result, keeping the order; every result gives back exactly
   * the record and the score it was made from.
   */
  method SmartSearch(request: SearchRequest, repository: Repository) returns (results: seq<SearchResult>)
    ensures var raw := RawResults(request, repository);
      |results| == |raw| &&
      forall k :: 0 <= k < |raw| ==> (RecordOf(results[k]), results[k].similarityScore) == raw[k]
  {
    var query := QueryOf(request);
    var filters := FiltersOf(request);
    var topK := TopKOf(request);
    var weight := WeightOf(request);
    var raw: seq<(ChunkRecord, real)>;
    if QueryTruthy(query) && FiltersTruthy(filters) {
      raw := repository(HybridQuery(query.value, filters.value, topK, weight));
    } else if QueryTruthy(query) {
      raw := repository(SemanticQuery(query.value, topK));
    } else if FiltersTruthy(filters) {
      raw := repository(MetadataQuery(filters.value, topK));
    } else {
      raw := [];
    }
    assert raw == RawResults(request, repository);
    results := [];
    for i := 0 to |raw|
      invariant |results| == i
      invariant forall k :: 0 <= k < i ==> (RecordOf(results[k]), results[k].similarityScore) == raw[k]
    {
      var (chunk, score) := raw[i];
      var searchResult := SearchResult(chunk.chunkId, chunk.documentId, chunk.userId, chunk.content, chunk.metadata, score);
      results := results + [searchResult];
    }
  }
}
