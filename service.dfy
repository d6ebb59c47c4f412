/**
 * service.py: `QAService`, which indexes article texts and FAQ pages into two
 * vector-store collections and answers queries, preferring the answer of a
 * stored FAQ question that is similar enough.
 *
 * Every chunk the source creates gets a fresh `uuid4`; the model draws its
 * identifiers from the counter `nextId`, which stays above every identifier
 * in either collection.
 */
module Service {
  import opened Wrappers
  import opened DataModel
  import opened TextSplitter
  import opened EmbeddingEncoder
  import opened ArticleParser
  import opened Vectorstore
  import opened Sequences

  /** `AnswerType`: where the hits of `query_with_faq` come from. */
  datatype AnswerType = RelevantChunks | SimilarQuestion

  const DefaultLimit: nat := 3
  const DefaultFaqThreshold: real := 0.95

  /** The metadata of an article chunk. */
  function TitleMetadata(title: string): Metadata {
    map["title" := Str(title)]
  }

  /** The metadata of a FAQ question chunk: an empty title, the answer and
      the category (`None` when the question has none). */
  function FaqMetadata(entry: FaqEntry): Metadata {
    map["title" := Str(""), "answer" := Str(entry.answer),
        "category" := if entry.category.Some? then Str(entry.category.value) else NoneValue]
  }

  /** Every identifier is below `bound`. */
  predicate IdsBelow(points: seq<DocumentChunk>, bound: nat) {
    forall i :: 0 <= i < |points| ==> points[i].id < bound
  }

  /** Identifiers `firstId`, `firstId + 1`, ... in order. */
  predicate IdsFrom(points: seq<DocumentChunk>, firstId: nat) {
    forall i :: 0 <= i < |points| ==> points[i].id == firstId + i
  }

  /** A bound above every identifier of `points`. */
  function NextFreeId(points: seq<DocumentChunk>): (r: nat)
    ensures IdsBelow(points, r)
  {
    if points == [] then 0
    else
      var rest := NextFreeId(points[..|points| - 1]);
      var last := points[|points| - 1].id;
      if last < rest then rest else last + 1
  }

  /** Every stored FAQ point carries the answer of its question. */
  predicate FaqAnswersPresent(points: seq<DocumentChunk>) {
    forall i :: 0 <= i < |points| ==> "answer" in points[i].metadata && points[i].metadata["answer"].Str?
  }

  /** The chunks `add_text` builds by zipping `texts` with their vectors,
      numbered from `firstId`; `zip` stops at the shorter list. */
  function DocumentChunks(texts: seq<string>, vectors: seq<Vector>, title: string, firstId: nat): (r: seq<DocumentChunk>)
    ensures |r| <= |texts| && |r| <= |vectors|
    ensures |r| == |texts| || |r| == |vectors|
  {
    var n := if |texts| <= |vectors| then |texts| else |vectors|;
    seq(n, i requires 0 <= i < n => DocumentChunk(texts[i], TitleMetadata(title), vectors[i], firstId + i))
  }

  /** Chunk `i` pairs text `i` with vector `i`, carries the title and gets
      identifier `firstId + i`. */
  lemma DocumentChunksAt(texts: seq<string>, vectors: seq<Vector>, title: string, firstId: nat)
    ensures var r := DocumentChunks(texts, vectors, title, firstId);
      && IdsFrom(r, firstId)
      && forall i :: 0 <= i < |r| ==>
           r[i].text == texts[i] && r[i].vector == vectors[i] && r[i].metadata == TitleMetadata(title)
  {
  }

  /** The chunks `add_html_faq` builds from the parsed pairs: the question is
      the text, embedded as a query, and the answer goes into the metadata. */
  function FaqChunks(encoder: Encoder, pairs: seq<FaqEntry>, firstId: nat): (r: seq<DocumentChunk>)
    requires OneVectorPerText(encoder.embed)
    ensures |r| == |pairs| && IdsFrom(r, firstId)
    ensures forall i :: 0 <= i < |r| ==>
      && r[i].text == pairs[i].question
      && r[i].vector == encoder.EmbedQuery(pairs[i].question)
      && r[i].metadata == FaqMetadata(pairs[i])
  {
    seq(|pairs|, i requires 0 <= i < |pairs| =>
      DocumentChunk(pairs[i].question, FaqMetadata(pairs[i]), encoder.EmbedQuery(pairs[i].question), firstId + i))
  }

  /** The vectors of `embed_documents(texts, [title] * len(texts))`, which
      never raises: there is one title per text. Vector `i` is the model's
      vector for text `i` framed by the title. */
  function TitledVectors(encoder: Encoder, texts: seq<string>, title: string): (r: seq<Vector>)
    ensures OneVectorPerText(encoder.embed) ==> |r| == |texts|
  {
    var titles := seq(|texts|, _ => title);
    encoder.EmbedDocuments(texts, Some(titles)).value
  }

  /** `add_text` sends each chunk to the model framed by the title, all in
      one batch. */
  lemma TitledVectorsFramed(encoder: Encoder, texts: seq<string>, title: string)
    ensures TitledVectors(encoder, texts, title)
         == encoder.embed(seq(|texts|, i requires 0 <= i < |texts| => title + TitleSeparator + texts[i]))
  {
    var titles := seq(|texts|, _ => title);
    var batch := DocumentBatch(texts, Some(titles));
    assert batch.Ok? && batch.value == seq(|texts|, i requires 0 <= i < |texts| => title + TitleSeparator + texts[i]);
  }

  /** Points with consecutive identifiers have distinct ones. */
  lemma IdsFromDistinct(points: seq<DocumentChunk>, firstId: nat)
    requires IdsFrom(points, firstId)
    ensures DistinctIds(points)
  {
  }

  /** Appending points numbered from `bound` to points below `bound` is an
      upsert that adds them all, and the identifiers stay below the new bound. */
  lemma AppendFresh(points: seq<DocumentChunk>, added: seq<DocumentChunk>, bound: nat)
    requires IdsBelow(points, bound) && IdsFrom(added, bound)
    ensures Upsert(points, added) == points + added
    ensures IdsBelow(points + added, bound + |added|)
  {
    IdsFromDistinct(added, bound);
    forall p, d | p in points && d in added ensures p.id != d.id {
      var i :| 0 <= i < |points| && points[i] == p;
      var j :| 0 <= j < |added| && added[j] == d;
    }
    UpsertFresh(points, added);
  }

  /** The FAQ chunks all carry their answers. */
  lemma FaqChunksCarryAnswers(encoder: Encoder, points: seq<DocumentChunk>, pairs: seq<FaqEntry>, firstId: nat)
    requires OneVectorPerText(encoder.embed) && FaqAnswersPresent(points)
    ensures FaqAnswersPresent(points + FaqChunks(encoder, pairs, firstId))
    ensures forall i :: 0 <= i < |pairs| ==>
      FaqChunks(encoder, pairs, firstId)[i].metadata["answer"] == Str(pairs[i].answer)
  {
    var all := points + FaqChunks(encoder, pairs, firstId);
    forall i | 0 <= i < |all|
      ensures "answer" in all[i].metadata && all[i].metadata["answer"].Str?
    {
      if i >= |points| {
        assert all[i] == FaqChunks(encoder, pairs, firstId)[i - |points|];
      }
    }
  }

  /** `QAService`: the encoder, the document collection and the FAQ
      collection, together with the splitter and the markup lookups the
      source takes from its libraries. */
  class QAService {
    const encoder: Encoder
    const vectorstore: QdrantVectorstore
    const vectorstoreFaq: QdrantVectorstore
    const splitter: Splitter
    const parser: HtmlParser
    /** The next unused chunk identifier. */
    var nextId: nat

    ghost predicate Valid()
      reads this, vectorstore, vectorstoreFaq
    {
      && OneVectorPerText(encoder.embed)
      && vectorstore != vectorstoreFaq
      && vectorstore.Valid() && vectorstoreFaq.Valid()
      && IdsBelow(vectorstore.points, nextId) && IdsBelow(vectorstoreFaq.points, nextId)
    }

    /** `__init__`: wraps two existing collections. */
    constructor (encoder: Encoder, vectorstore: QdrantVectorstore, vectorstoreFaq: QdrantVectorstore,
                 splitter: Splitter, parser: HtmlParser)
      requires OneVectorPerText(encoder.embed)
      requires vectorstore != vectorstoreFaq && vectorstore.Valid() && vectorstoreFaq.Valid()
      ensures Valid()
      ensures this.encoder == encoder && this.vectorstore == vectorstore && this.vectorstoreFaq == vectorstoreFaq
      ensures this.splitter == splitter && this.parser == parser
    {
      this.encoder := encoder;
      this.vectorstore := vectorstore;
      this.vectorstoreFaq := vectorstoreFaq;
      this.splitter := splitter;
      this.parser := parser;
      var a := NextFreeId(vectorstore.points);
      var b := NextFreeId(vectorstoreFaq.points);
      nextId := if a < b then b else a;
    }

    /** The chunks of `text` as `to_chunks` cuts them with its defaults. */
    function TextPieces(text: string): seq<string>
    {
      Chunks(splitter, text, DefaultChunkSize, None)
    }

    /** The chunks `add_text` indexes for `text` under `title`, numbered from
        `firstId`: every chunk of the text, embedded with the title, carrying
        the title as metadata. */
    function TextChunks(text: string, title: string, firstId: nat): (r: seq<DocumentChunk>)
      ensures |r| <= |TextPieces(text)|
      ensures OneVectorPerText(encoder.embed) ==> |r| == |TextPieces(text)|
    {
      var pieces := TextPieces(text);
      DocumentChunks(pieces, TitledVectors(encoder, pieces, title), title, firstId)
    }

    /** The chunks indexing the answers of the first `n` pairs adds, one
        `add_text` per pair with the question as title, numbered from
        `firstId`. */
    function AnswerChunks(pairs: seq<FaqEntry>, n: nat, firstId: nat): seq<DocumentChunk>
      requires n <= |pairs|
    {
      if n == 0 then []
      else
        var init := AnswerChunks(pairs, n - 1, firstId);
        init + TextChunks(pairs[n - 1].answer, pairs[n - 1].question, firstId + |init|)
    }

    /** One more pair adds the chunks of its answer after those of the pairs
        before it. */
    lemma AnswerChunksStep(pairs: seq<FaqEntry>, i: nat, firstId: nat)
      requires i < |pairs|
      ensures AnswerChunks(pairs, i + 1, firstId)
           == AnswerChunks(pairs, i, firstId)
              + TextChunks(pairs[i].answer, pairs[i].question, firstId + |AnswerChunks(pairs, i, firstId)|)
    {
      var n := i + 1;
      assert n - 1 == i;
    }

    /** `add_text`: the chunks of the text are added to the document
        collection after the stored ones. */
    method AddText(text: string, title: string)
      requires Valid()
      modifies this, vectorstore
      ensures Valid()
      ensures vectorstore.points == old(vectorstore.points) + TextChunks(text, title, old(nextId))
      ensures vectorstoreFaq.points == old(vectorstoreFaq.points)
      ensures nextId == old(nextId) + |TextChunks(text, title, old(nextId))|
    {
      var texts := ToChunks(splitter, text, DefaultChunkSize, None);
      var embeddings := encoder.EmbedDocuments(texts, Some(seq(|texts|, _ => title)));
      assert embeddings.value == TitledVectors(encoder, texts, title);
      assert texts == TextPieces(text);
      var docChunks := DocumentChunks(texts, embeddings.value, title, nextId);
      DocumentChunksAt(texts, embeddings.value, title, nextId);
      assert docChunks == TextChunks(text, title, nextId);
      AppendFresh(vectorstore.points, docChunks, nextId);
      vectorstore.Add(docChunks);
      nextId := nextId + |docChunks|;
    }

    /** `add_html_article`: the article text is split into its first line, the
        title, and the rest, which is indexed; a text without a line break
        raises `ValueError` and nothing is indexed. */
    method AddHtmlArticle(html: string) returns (outcome: Outcome<Error>)
      requires Valid()
      modifies this, vectorstore
      ensures Valid()
      ensures vectorstoreFaq.points == old(vectorstoreFaq.points)
      ensures match SplitTitle(ArticleBaseText(parser, html))
        case Err(e) =>
          outcome == Fail(e) && vectorstore.points == old(vectorstore.points) && nextId == old(nextId)
        case Ok((title, body)) =>
          && outcome == Pass
          && vectorstore.points == old(vectorstore.points) + TextChunks(body, title, old(nextId))
    {
      var text := ParseArticleBase(parser, html);
      match SplitTitle(text)
      case Err(e) =>
        outcome := Fail(e);
      case Ok((title, body)) =>
        AddText(body, title);
        outcome := Pass;
    }

    /** The pairs `parse_faq` finds on a FAQ page. */
    function FaqPairs(html: string): seq<FaqEntry> {
      FaqEntries(parser.details, parser.editorContent(html))
    }

    /** `add_html_faq`: the questions of the page go into the FAQ collection
        with their answers; with `indexAnswers`, every answer is then indexed
        as a text titled by its question. */
    method AddHtmlFaq(html: string, indexAnswers: bool)
      requires Valid()
      modifies this, vectorstore, vectorstoreFaq
      ensures Valid()
      ensures vectorstoreFaq.points == old(vectorstoreFaq.points) + FaqChunks(encoder, FaqPairs(html), old(nextId))
      ensures !indexAnswers ==> vectorstore.points == old(vectorstore.points)
      ensures indexAnswers ==>
        vectorstore.points == old(vectorstore.points) + AnswerChunks(FaqPairs(html), |FaqPairs(html)|, old(nextId) + |FaqPairs(html)|)
      ensures FaqAnswersPresent(old(vectorstoreFaq.points)) ==> FaqAnswersPresent(vectorstoreFaq.points)
    {
      var qaPairs := ParseFaq(parser, html);
      AddFaqChunks(qaPairs);
      if !indexAnswers {
        return;
      }
      assert nextId == old(nextId) + |FaqPairs(html)|;
      IndexAnswers(qaPairs);
    }

    /** The first half of `add_html_faq`: the chunks of the questions are added
        to the FAQ collection after the stored ones. */
    method AddFaqChunks(qaPairs: seq<FaqEntry>)
      requires Valid()
      modifies this, vectorstoreFaq
      ensures Valid()
      ensures vectorstoreFaq.points == old(vectorstoreFaq.points) + FaqChunks(encoder, qaPairs, old(nextId))
      ensures vectorstore.points == old(vectorstore.points)
      ensures nextId == old(nextId) + |qaPairs|
      ensures FaqAnswersPresent(old(vectorstoreFaq.points)) ==> FaqAnswersPresent(vectorstoreFaq.points)
    {
      var chunks := FaqChunks(encoder, qaPairs, nextId);
      AppendFresh(vectorstoreFaq.points, chunks, nextId);
      if FaqAnswersPresent(vectorstoreFaq.points) {
        FaqChunksCarryAnswers(encoder, vectorstoreFaq.points, qaPairs, nextId);
      }
      vectorstoreFaq.Add(chunks);
      nextId := nextId + |chunks|;
    }

    /** The loop of `add_html_faq` that indexes every answer as a text titled
        by its question, pair after pair. */
    method IndexAnswers(pairs: seq<FaqEntry>)
      requires Valid()
      modifies this, vectorstore
      ensures Valid()
      ensures vectorstore.points == old(vectorstore.points) + AnswerChunks(pairs, |pairs|, old(nextId))
      ensures vectorstoreFaq.points == old(vectorstoreFaq.points)
      ensures nextId == old(nextId) + |AnswerChunks(pairs, |pairs|, old(nextId))|
    {
      ghost var base := nextId;
      ghost var docPoints := vectorstore.points;
      var i := 0;
      while i < |pairs|
        invariant 0 <= i <= |pairs|
        invariant Valid()
        invariant vectorstoreFaq.points == old(vectorstoreFaq.points)
        invariant vectorstore.points == docPoints + AnswerChunks(pairs, i, base)
        invariant nextId == base + |AnswerChunks(pairs, i, base)|
      {
        var pair := pairs[i];
        ghost var prefix := AnswerChunks(pairs, i, base);
        ghost var added := TextChunks(pair.answer, pair.question, nextId);
        AnswerChunksStep(pairs, i, base);
        AddText(pair.answer, pair.question);
        AppendAssociative(docPoints, prefix, added);
        i := i + 1;
      }
    }

    /** `query`: the stored document chunks nearest to the embedded query. */
    function Query(query: string, limit: nat): (hits: seq<RetrievedDocumentChunk>)
      requires OneVectorPerText(encoder.embed)
      reads vectorstore
      ensures EmptyGivesNoHits(vectorstore.search) && vectorstore.points == [] ==> hits == []
      ensures AtMostLimit(vectorstore.search) ==> |hits| <= limit
      ensures HitsAreStored(vectorstore.search) ==>
        forall i :: 0 <= i < |hits| ==> IsStored(vectorstore.points, hits[i])
    {
      vectorstore.Search(encoder.EmbedQuery(query), limit)
    }

    /** The best FAQ hit for the query, if there is one. */
    function FaqHits(query: string): seq<RetrievedDocumentChunk>
      requires OneVectorPerText(encoder.embed)
      reads vectorstoreFaq
    {
      vectorstoreFaq.Search(encoder.EmbedQuery(query), 1)
    }

    /** `query_with_faq`: the FAQ hit alone when its score reaches the
        threshold, otherwise the document hits (also when the FAQ collection
        returns nothing). */
    function QueryWithFaq(query: string, limit: nat, threshold: real): (r: (seq<RetrievedDocumentChunk>, AnswerType))
      requires OneVectorPerText(encoder.embed)
      reads vectorstore, vectorstoreFaq
      ensures r.1 == SimilarQuestion <==> |FaqHits(query)| > 0 && FaqHits(query)[0].score >= threshold
      ensures r.1 == SimilarQuestion ==> r.0 == [FaqHits(query)[0]]
      ensures r.1 == RelevantChunks ==> r.0 == Query(query, limit)
    {
      var faqHits := FaqHits(query);
      if |faqHits| > 0 && faqHits[0].score >= threshold then ([faqHits[0]], SimilarQuestion)
      else (Query(query, limit), RelevantChunks)
    }

    /** `find_best_answer`: the stored answer of the similar question, or the
        text of the best document hit; `KeyError` when the FAQ hit has no
        answer, `IndexError` when there is no document hit. */
    function FindBestAnswer(query: string, threshold: real): (r: Result<Value, Error>)
      requires OneVectorPerText(encoder.embed)
      reads vectorstore, vectorstoreFaq
      ensures var (hits, kind) := QueryWithFaq(query, DefaultLimit, threshold);
        && (kind == SimilarQuestion ==>
              if "answer" in hits[0].metadata then r == Ok(hits[0].metadata["answer"]) else r == Err(KeyError))
        && (kind == RelevantChunks ==>
              if hits == [] then r == Err(IndexError) else r == Ok(Str(hits[0].text)))
    {
      var (answer, answerType) := QueryWithFaq(query, DefaultLimit, threshold);
      if answerType == SimilarQuestion then
        if "answer" in answer[0].metadata then Ok(answer[0].metadata["answer"]) else Err(KeyError)
      else if answer == [] then Err(IndexError)
      else Ok(Str(answer[0].text))
    }

    /** Chunk `i` of a text holds piece `i` of the text, the vector of that
        piece embedded with the title, the title, and identifier
        `firstId + i`. */
    lemma TextChunksAt(text: string, title: string, firstId: nat)
      ensures var r := TextChunks(text, title, firstId);
        && IdsFrom(r, firstId)
        && forall i :: 0 <= i < |r| ==>
             && r[i].text == TextPieces(text)[i]
             && r[i].vector == TitledVectors(encoder, TextPieces(text), title)[i]
             && r[i].metadata == TitleMetadata(title)
    {
      DocumentChunksAt(TextPieces(text), TitledVectors(encoder, TextPieces(text), title), title, firstId);
    }

    /** The chunks of the indexed answers are numbered consecutively from
        `firstId`, across all pairs, and each carries the question it answers
        as its title. */
    lemma {:induction false} AnswerChunksIds(pairs: seq<FaqEntry>, n: nat, firstId: nat)
      requires n <= |pairs|
      ensures IdsFrom(AnswerChunks(pairs, n, firstId), firstId)
      ensures forall i :: 0 <= i < |AnswerChunks(pairs, n, firstId)| ==>
        exists k :: 0 <= k < n && AnswerChunks(pairs, n, firstId)[i].metadata == TitleMetadata(pairs[k].question)
      decreases n
    {
      if n > 0 {
        var init := AnswerChunks(pairs, n - 1, firstId);
        var last := TextChunks(pairs[n - 1].answer, pairs[n - 1].question, firstId + |init|);
        AnswerChunksIds(pairs, n - 1, firstId);
        TextChunksAt(pairs[n - 1].answer, pairs[n - 1].question, firstId + |init|);
        var r := AnswerChunks(pairs, n, firstId);
        assert r == init + last;
        forall i | 0 <= i < |r|
          ensures r[i].id == firstId + i
          ensures exists k :: 0 <= k < n && r[i].metadata == TitleMetadata(pairs[k].question)
        {
          if i < |init| {
            assert r[i] == init[i];
            var k :| 0 <= k < n - 1 && init[i].metadata == TitleMetadata(pairs[k].question);
          } else {
            assert r[i] == last[i - |init|];
            assert r[i].metadata == TitleMetadata(pairs[n - 1].question);
          }
        }
      }
    }

    /** Raising the threshold can only turn a similar question into document
        hits, never the other way round: a threshold that a FAQ hit reaches
        is reached by every lower one too, with the same answer. */
    lemma ThresholdMonotone(query: string, limit: nat, lower: real, higher: real)
      requires OneVectorPerText(encoder.embed)
      requires lower <= higher
      ensures QueryWithFaq(query, limit, higher).1 == SimilarQuestion ==>
        QueryWithFaq(query, limit, lower) == QueryWithFaq(query, limit, higher)
    {
    }

    /** With nothing indexed, the query falls back to the (empty) document
        hits, and `find_best_answer` fails with `IndexError`. */
    lemma NothingIngested(query: string, limit: nat, threshold: real)
      requires OneVectorPerText(encoder.embed)
      requires vectorstore.points == [] && vectorstoreFaq.points == []
      requires EmptyGivesNoHits(vectorstore.search) && EmptyGivesNoHits(vectorstoreFaq.search)
      ensures QueryWithFaq(query, limit, threshold) == ([], RelevantChunks)
      ensures FindBestAnswer(query, threshold) == Err(IndexError)
    {
    }

    /** When the FAQ collection only holds points with answers, as
        `add_html_faq` stores them, a similar question never gives
        `KeyError`: the answer is that of a stored FAQ point. */
    lemma SimilarQuestionHasAnswer(query: string, threshold: real)
      requires OneVectorPerText(encoder.embed)
      requires HitsAreStored(vectorstoreFaq.search) && FaqAnswersPresent(vectorstoreFaq.points)
      requires QueryWithFaq(query, DefaultLimit, threshold).1 == SimilarQuestion
      ensures exists p ::
        && p in vectorstoreFaq.points
        && "answer" in p.metadata
        && FindBestAnswer(query, threshold) == Ok(p.metadata["answer"])
    {
      var hits := FaqHits(query);
      assert IsStored(vectorstoreFaq.points, hits[0]);
      var p :| p in vectorstoreFaq.points && p.id == hits[0].id && p.text == hits[0].text && p.metadata == hits[0].metadata;
      var k :| 0 <= k < |vectorstoreFaq.points| && vectorstoreFaq.points[k] == p;
      assert "answer" in p.metadata;
    }
  }
}
