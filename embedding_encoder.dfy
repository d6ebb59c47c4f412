/**
 * embedding_encoder.py: the textual framing put around queries and document
 * chunks before they reach the embedding model. The model itself (tokenizer,
 * transformer, [CLS] pooling, optional L2 normalisation) is the opaque
 * function `_embed`.
 */
module EmbeddingEncoder {
  import opened Wrappers
  import opened DataModel

  /** `Encoder._embed`: one model call on a whole batch of texts. */
  type Embedder = seq<string> -> seq<Vector>

  /** Assumption about the model: it returns one vector per text, in order
      (`[CLS]` pooling of a padded batch). */
  ghost predicate OneVectorPerText(embed: Embedder) {
    forall texts :: |embed(texts)| == |texts|
  }

  /** The checkpoint's query marker ('Question: ' in Polish). */
  const QueryPrefix: string := "Pytanie: "
  /** The checkpoint's separator between a title and a passage. */
  const TitleSeparator: string := "</s>"
  /** Dimension of the checkpoint's vectors, used when the stores are created. */
  const VectorSize: nat := 768

  /** The text sent to the model for a query. */
  function QueryText(text: string): string {
    QueryPrefix + text
  }

  /** Different queries are framed differently: the marker can be taken off again. */
  lemma QueryTextInjective(a: string, b: string)
    requires QueryText(a) == QueryText(b)
    ensures a == b
  {
    assert a == QueryText(a)[|QueryPrefix|..];
    assert b == QueryText(b)[|QueryPrefix|..];
  }

  /** The batch `embed_documents` sends to the model, or the `ValueError` it
      raises first. Titles that are `None` or empty are ignored, without any
      length check. */
  function DocumentBatch(texts: seq<string>, titles: Option<seq<string>>): (r: Result<seq<string>, Error>)
    ensures r.Err? <==> titles.Some? && titles.value != [] && |titles.value| != |texts|
    ensures r.Err? ==> r.error == ValueError
    ensures r.Ok? ==> |r.value| == |texts|
    ensures r.Ok? && titles.Some? && titles.value != [] ==>
      forall i :: 0 <= i < |texts| ==> r.value[i] == titles.value[i] + TitleSeparator + texts[i]
    ensures (titles.None? || titles.value == []) ==> r == Ok(texts)
  {
    if titles.Some? && titles.value != [] then
      if |texts| != |titles.value| then Err(ValueError)
      else Ok(seq(|texts|, i requires 0 <= i < |texts| => titles.value[i] + TitleSeparator + texts[i]))
    else Ok(texts)
  }

  /** `Encoder`, reduced to its model call. */
  datatype Encoder = Encoder(embed: Embedder) {

    /** `embed_query`: the model is called once, on the one framed query, and
        its first vector is returned. */
    function EmbedQuery(text: string): (v: Vector)
      requires OneVectorPerText(embed)
      ensures v == embed([QueryText(text)])[0]
    {
      embed([QueryText(text)])[0]
    }

    /** `embed_documents`: on a length mismatch it fails before any model
        call; otherwise the model is called exactly once, on the whole framed
        batch, and returns one vector per text. */
    function EmbedDocuments(texts: seq<string>, titles: Option<seq<string>>): (r: Result<seq<Vector>, Error>)
      ensures r.Err? <==> DocumentBatch(texts, titles).Err?
      ensures r.Err? ==> r.error == ValueError
      ensures r.Ok? ==> r.value == embed(DocumentBatch(texts, titles).value)
      ensures r.Ok? && OneVectorPerText(embed) ==> |r.value| == |texts|
    {
      match DocumentBatch(texts, titles)
      case Err(e) => Err(e)
      case Ok(batch) => Ok(embed(batch))
    }
  }

  /** A query is embedded exactly like a one-text, untitled document batch
      holding the framed query. */
  lemma QueryIsFramedDocument(encoder: Encoder, text: string)
    requires OneVectorPerText(encoder.embed)
    ensures encoder.EmbedDocuments([QueryText(text)], None).Ok?
    ensures encoder.EmbedQuery(text) == encoder.EmbedDocuments([QueryText(text)], None).value[0]
  {
  }

  /** A rejected batch never reaches the model: the outcome is the same
      whatever the model computes. */
  lemma MismatchFailsBeforeModel(e1: Encoder, e2: Encoder, texts: seq<string>, titles: seq<string>)
    requires titles != [] && |titles| != |texts|
    ensures e1.EmbedDocuments(texts, Some(titles)) == e2.EmbedDocuments(texts, Some(titles)) == Err(ValueError)
  {
  }

  /** With one title per text (as ingestion always passes), the batch is never
      rejected, and vector `i` is the model's vector for the framed text `i`. */
  lemma TitledBatchEmbeds(encoder: Encoder, texts: seq<string>, titles: seq<string>, i: nat)
    requires |titles| == |texts| && i < |texts| && OneVectorPerText(encoder.embed)
    ensures encoder.EmbedDocuments(texts, Some(titles)).Ok?
    ensures var batch := DocumentBatch(texts, Some(titles)).value;
      && batch[i] == titles[i] + TitleSeparator + texts[i]
      && encoder.EmbedDocuments(texts, Some(titles)).value[i] == encoder.embed(batch)[i]
  {
  }
}
