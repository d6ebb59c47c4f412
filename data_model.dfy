/**
 * The records of data_model.py, and the Python exceptions the core raises.
 */
module DataModel {
  import opened Wrappers

  /** An embedding vector (`list[float]`); floats are modelled as reals, and
      only comparisons of scores are ever used. */
  type Vector = seq<real>

  /** A chunk identifier. The source draws a fresh `uuid4` string for every
      chunk; the model only relies on freshness. */
  type ChunkId = nat

  /** A metadata value: a string or Python's `None` (a FAQ entry without a
      category). */
  datatype Value = Str(s: string) | NoneValue

  type Metadata = map<string, Value>

  /** `DocumentChunk`: text, metadata, vector and identifier. */
  datatype DocumentChunk = DocumentChunk(text: string, metadata: Metadata, vector: Vector, id: ChunkId)

  /** `RetrievedDocumentChunk`: a stored chunk as returned by a search, with its
      similarity score. */
  datatype RetrievedDocumentChunk =
    RetrievedDocumentChunk(text: string, metadata: Metadata, vector: Vector, id: ChunkId, score: real)

  /** `FaqEntry`: a question, its answer and the category heading it sits
      under (`None` before the first heading). */
  datatype FaqEntry = FaqEntry(question: string, answer: string, category: Option<string>)

  /** The exceptions the core lets escape. */
  datatype Error =
    | ValueError   // a length mismatch, or a text that cannot be split into title and body
    | IndexError   // `[0]` of an empty search result
    | KeyError     // a retrieved FAQ hit without an 'answer' entry
}
