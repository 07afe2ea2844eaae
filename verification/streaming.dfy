/**
 * The state both `add_data_to_db` loops share, as functions of the chunks read
 * so far: the carried-over `leftovers`, the complete sentences numbered so far,
 * and how many word rows wait in the unflushed buffer.
 */
module Streaming {
  import opened Strings
  import opened Nlp
  import opened TokenFilter
  import Helpers

  datatype Progress = Progress(leftovers: string, sentences: seq<string>, pending: nat)

  predicate NonEmptyChunks(chunks: seq<string>)
  {
    forall i :: 0 <= i < |chunks| ==> chunks[i] != []
  }

  /** How many word rows a run of sentences adds to the buffer. */
  function RowCount(tok: Tokenizer, sentences: seq<string>): nat
    decreases |sentences|
  {
    if sentences == [] then 0
    else RowCount(tok, sentences[..|sentences| - 1]) + |KeptWords(tok(sentences[|sentences| - 1]))|
  }

  lemma {:induction false} RowCountAppend(tok: Tokenizer, a: seq<string>, b: seq<string>)
    ensures RowCount(tok, a + b) == RowCount(tok, a) + RowCount(tok, b)
    decreases |b|
  {
    if b == [] {
      assert a + b == a;
    } else {
      assert (a + b)[..|a + b| - 1] == a + b[..|b| - 1];
      RowCountAppend(tok, a, b[..|b| - 1]);
    }
  }

  /**
   * One chunk: segment `leftovers + chunk`, strip each sentence, number every
   * sentence but the last, keep the last as the new leftovers, and empty the
   * buffer once it holds `bulk` rows or more.
   */
  function Step(p: Progress, chunk: string, seg: Segmenter, tok: Tokenizer, bulk: int): (q: Progress)
    requires Segments(seg) && chunk != []
    ensures bulk > 0 ==> q.pending < bulk
  {
    var sents := StripEach(seg(p.leftovers + chunk));
    var complete := sents[..|sents| - 1];
    var buffered := p.pending + RowCount(tok, complete);
    Progress(sents[|sents| - 1], p.sentences + complete, if buffered >= bulk then 0 else buffered)
  }

  /** The progress after the given chunks, starting from nothing carried over. */
  function Feed(chunks: seq<string>, seg: Segmenter, tok: Tokenizer, bulk: int): (p: Progress)
    requires Segments(seg) && NonEmptyChunks(chunks)
    decreases |chunks|
  {
    if chunks == [] then Progress("", [], 0)
    else Step(Feed(chunks[..|chunks| - 1], seg, tok, bulk), chunks[|chunks| - 1], seg, tok, bulk)
  }

  lemma FeedPrefix(chunks: seq<string>, i: nat, seg: Segmenter, tok: Tokenizer, bulk: int)
    requires Segments(seg) && NonEmptyChunks(chunks) && i < |chunks|
    ensures NonEmptyChunks(chunks[..i]) && NonEmptyChunks(chunks[..i + 1])
    ensures Feed(chunks[..i + 1], seg, tok, bulk)
      == Step(Feed(chunks[..i], seg, tok, bulk), chunks[i], seg, tok, bulk)
  {
    assert chunks[..i + 1][..i] == chunks[..i];
  }

  /**
   * The end of input: the final leftover is numbered after the complete
   * sentences, but only when rows are still buffered.
   */
  function Closing(p: Progress): seq<string>
  {
    if p.pending > 0 then p.sentences + [p.leftovers] else p.sentences
  }

  /** The sentences that receive a number, in order, once every chunk has been read. */
  function Numbered(chunks: seq<string>, seg: Segmenter, tok: Tokenizer, bulk: int): seq<string>
    requires Segments(seg) && NonEmptyChunks(chunks)
  {
    Closing(Feed(chunks, seg, tok, bulk))
  }

  /** The buffer never holds `bulk` rows after a chunk has been handled. */
  lemma BufferBelowBulk(chunks: seq<string>, seg: Segmenter, tok: Tokenizer, bulk: int)
    requires Segments(seg) && NonEmptyChunks(chunks) && bulk > 0
    ensures Feed(chunks, seg, tok, bulk).pending < bulk
  {
  }

  /** The final leftover is numbered exactly when rows are still buffered at the end of the input. */
  lemma FinalLeftoverRule(chunks: seq<string>, seg: Segmenter, tok: Tokenizer, bulk: int)
    requires Segments(seg) && NonEmptyChunks(chunks)
    ensures var p := Feed(chunks, seg, tok, bulk);
      |Numbered(chunks, seg, tok, bulk)| == |p.sentences| + (if p.pending > 0 then 1 else 0)
    ensures Numbered(chunks, seg, tok, bulk)[..|Feed(chunks, seg, tok, bulk).sentences|]
      == Feed(chunks, seg, tok, bulk).sentences
    ensures var p := Feed(chunks, seg, tok, bulk);
      p.pending > 0 ==> Numbered(chunks, seg, tok, bulk)[|p.sentences|] == p.leftovers
  {
  }

  /**
   * Every segment the document would yield if it were segmented whole: the
   * complete sentences and the final leftover. This is what the final block
   * of `add_data_to_db` evidently means to number.
   */
  function AllSegments(chunks: seq<string>, seg: Segmenter, tok: Tokenizer, bulk: int): seq<string>
    requires Segments(seg) && NonEmptyChunks(chunks)
  {
    if |chunks| == 0 then [] else
      var p := Feed(chunks, seg, tok, bulk);
      p.sentences + [p.leftovers]
  }

  /**
   * At every chunk boundary the sentence in progress neither starts nor ends
   * with whitespace, so stripping it before carrying it over loses nothing.
   */
  ghost predicate CleanBoundaries(chunks: seq<string>, seg: Segmenter)
  {
    forall i :: 0 < i < |chunks| ==> LastUnpadded(seg(Concat(chunks[..i])))
  }

  predicate LastUnpadded(sents: seq<string>)
  {
    |sents| == 0 || Strip(sents[|sents| - 1]) == sents[|sents| - 1]
  }

  /**
   * Joining the complete sentences of an earlier segmentation with a new one
   * that continues its last sentence.
   */
  lemma SplitLast(prev: seq<string>, raw: seq<string>, whole: seq<string>, done: seq<string>)
    requires |prev| > 0 && |raw| > 0
    requires whole == prev[..|prev| - 1] + raw && done == StripEach(prev[..|prev| - 1])
    ensures |whole| > 0 && whole[|whole| - 1] == raw[|raw| - 1]
    ensures done + StripEach(raw[..|raw| - 1]) == StripEach(whole[..|whole| - 1])
  {
    assert whole[..|whole| - 1] == prev[..|prev| - 1] + raw[..|raw| - 1];
    StripEachAppend(prev[..|prev| - 1], raw[..|raw| - 1]);
  }

  /** The carry-over contract at every boundary between the chunks. */
  ghost predicate StableBoundaries(chunks: seq<string>, seg: Segmenter)
    requires Segments(seg)
  {
    forall i :: 0 < i < |chunks| ==> StableAt(seg, Concat(chunks[..i]), chunks[i])
  }

  /** A segmenter that honours the carry-over contract everywhere honours it at every boundary. */
  lemma StableEverywhere(chunks: seq<string>, seg: Segmenter)
    requires Segments(seg) && PrefixStable(seg)
    ensures StableBoundaries(chunks, seg)
  {
  }

  /**
   * The progress follows the segmentation `sents`: its numbered sentences are
   * the stripped complete sentences, and its carry is the last sentence as
   * the segmenter returned it.
   */
  predicate Follows(p: Progress, sents: seq<string>)
  {
    |sents| > 0 && p.sentences == StripEach(sents[..|sents| - 1]) && p.leftovers == sents[|sents| - 1]
  }

  /** As `Follows`, with the carry stripped. */
  predicate FollowsStripped(p: Progress, sents: seq<string>)
  {
    |sents| > 0 && p.sentences == StripEach(sents[..|sents| - 1]) && p.leftovers == Strip(sents[|sents| - 1])
  }

  /**
   * With a segmenter that honours the carry-over contract at every chunk
   * boundary and clean chunk boundaries, the sentences numbered so far are
   * the stripped complete sentences of the text read so far, and the leftover
   * is its stripped last one.
   */
  lemma {:induction false} FeedFollowsSegmentation(chunks: seq<string>, seg: Segmenter, tok: Tokenizer, bulk: int)
    requires Segments(seg) && NonEmptyChunks(chunks) && |chunks| > 0
    requires StableBoundaries(chunks, seg) && CleanBoundaries(chunks, seg)
    ensures FollowsStripped(Feed(chunks, seg, tok, bulk), seg(Concat(chunks)))
    decreases |chunks|
  {
    if |chunks| == 1 {
      FirstChunk(chunks, seg, tok, bulk);
    } else {
      PrefixBoundaries(chunks, seg);
      FeedFollowsSegmentation(chunks[..|chunks| - 1], seg, tok, bulk);
      FeedExtends(chunks, seg, tok, bulk);
    }
  }

  /** Both carries read a single chunk as the segmenter reads it. */
  lemma FirstChunk(chunks: seq<string>, seg: Segmenter, tok: Tokenizer, bulk: int)
    requires Segments(seg) && NonEmptyChunks(chunks) && |chunks| == 1
    ensures FollowsStripped(Feed(chunks, seg, tok, bulk), seg(Concat(chunks)))
    ensures Follows(CarryFeed(chunks, seg, tok, bulk), seg(Concat(chunks)))
  {
    var c := chunks[0];
    var p := Progress("", [], 0);
    assert chunks[..0] == [];
    assert Concat(chunks) == c && p.leftovers + c == c;
    assert Feed(chunks, seg, tok, bulk) == Step(p, c, seg, tok, bulk);
    assert CarryFeed(chunks, seg, tok, bulk) == CarryStep(p, c, seg, tok, bulk);
    StepParts(p, c, seg, tok, bulk);
    CarryStepParts(p, c, seg, tok, bulk);
  }

  /**
   * The chunks before the last keep the boundary conditions, and the last
   * boundary meets them as well.
   */
  lemma PrefixBoundaries(chunks: seq<string>, seg: Segmenter)
    requires Segments(seg) && |chunks| > 1 && StableBoundaries(chunks, seg)
    ensures var init := chunks[..|chunks| - 1];
      && StableBoundaries(init, seg)
      && StableAt(seg, Concat(init), chunks[|chunks| - 1])
      && (CleanBoundaries(chunks, seg) ==> CleanBoundaries(init, seg) && LastUnpadded(seg(Concat(init))))
  {
    var init := chunks[..|chunks| - 1];
    forall i | 0 < i < |init|
      ensures init[..i] == chunks[..i] && init[i] == chunks[i]
    {
    }
    assert chunks[..|init|] == init;
  }

  /** The inductive step: the last chunk extends a prefix whose segmentation the progress follows. */
  lemma FeedExtends(chunks: seq<string>, seg: Segmenter, tok: Tokenizer, bulk: int)
    requires Segments(seg) && NonEmptyChunks(chunks) && |chunks| > 1
    requires var init := chunks[..|chunks| - 1];
      && FollowsStripped(Feed(init, seg, tok, bulk), seg(Concat(init)))
      && LastUnpadded(seg(Concat(init)))
      && StableAt(seg, Concat(init), chunks[|chunks| - 1])
    ensures FollowsStripped(Feed(chunks, seg, tok, bulk), seg(Concat(chunks)))
  {
    var init, c := chunks[..|chunks| - 1], chunks[|chunks| - 1];
    var x, p := Concat(init), Feed(init, seg, tok, bulk);
    assert Follows(p, seg(x));
    assert Concat(chunks) == x + c;
    assert Feed(chunks, seg, tok, bulk) == Step(p, c, seg, tok, bulk);
    assert |x| > 0 by {
      assert |x| >= |init|;
    }
    StepFollows(x, c, p, seg, tok, bulk);
  }

  /**
   * One more chunk after a text whose segmentation the progress follows, its
   * last sentence carried over as the segmenter returned it: both carries
   * then follow the segmentation of the longer text.
   */
  lemma StepFollows(x: string, c: string, p: Progress, seg: Segmenter, tok: Tokenizer, bulk: int)
    requires Segments(seg) && StableAt(seg, x, c) && |x| > 0 && |c| > 0 && Follows(p, seg(x))
    ensures FollowsStripped(Step(p, c, seg, tok, bulk), seg(x + c))
    ensures Follows(CarryStep(p, c, seg, tok, bulk), seg(x + c))
  {
    var prev, raw := seg(x), seg(p.leftovers + c);
    StepParts(p, c, seg, tok, bulk);
    CarryStepParts(p, c, seg, tok, bulk);
    assert seg(x + c) == prev[..|prev| - 1] + raw;
    SplitLast(prev, raw, seg(x + c), p.sentences);
  }

  /** What one chunk adds: the stripped complete sentences, and the stripped last one as the carry. */
  lemma StepParts(p: Progress, chunk: string, seg: Segmenter, tok: Tokenizer, bulk: int)
    requires Segments(seg) && chunk != []
    ensures var raw := seg(p.leftovers + chunk);
      && |raw| > 0
      && Step(p, chunk, seg, tok, bulk).sentences == p.sentences + StripEach(raw[..|raw| - 1])
      && Step(p, chunk, seg, tok, bulk).leftovers == Strip(raw[|raw| - 1])
  {
    StripEachPrefix(seg(p.leftovers + chunk));
  }

  /**
   * Chunked reading does not change the segmentation: with a segmenter that
   * honours the carry-over contract and clean chunk boundaries, the numbered
   * sentences followed by the final leftover are exactly the stripped segments
   * of the concatenated chunks.
   */
  lemma ChunkedSegmentation(chunks: seq<string>, seg: Segmenter, tok: Tokenizer, bulk: int)
    requires Segments(seg) && PrefixStable(seg) && NonEmptyChunks(chunks)
    requires |chunks| > 0 && CleanBoundaries(chunks, seg)
    ensures AllSegments(chunks, seg, tok, bulk) == StripEach(seg(Concat(chunks)))
  {
    StableEverywhere(chunks, seg);
    FeedFollowsSegmentation(chunks, seg, tok, bulk);
    StripEachSnoc(seg(Concat(chunks)));
  }

  /**
   * The carry the source evidently intends: the last sentence is carried over
   * as the segmenter returned it, and stripped only once it is numbered.
   */
  function CarryStep(p: Progress, chunk: string, seg: Segmenter, tok: Tokenizer, bulk: int): (q: Progress)
    requires Segments(seg) && chunk != []
    ensures bulk > 0 ==> q.pending < bulk
  {
    var raw := seg(p.leftovers + chunk);
    var complete := StripEach(raw[..|raw| - 1]);
    var buffered := p.pending + RowCount(tok, complete);
    Progress(raw[|raw| - 1], p.sentences + complete, if buffered >= bulk then 0 else buffered)
  }

  /** What one chunk adds under the corrected carry: the stripped complete sentences, and the last one as it is. */
  lemma CarryStepParts(p: Progress, chunk: string, seg: Segmenter, tok: Tokenizer, bulk: int)
    requires Segments(seg) && chunk != []
    ensures var raw := seg(p.leftovers + chunk);
      && |raw| > 0
      && CarryStep(p, chunk, seg, tok, bulk).sentences == p.sentences + StripEach(raw[..|raw| - 1])
      && CarryStep(p, chunk, seg, tok, bulk).leftovers == raw[|raw| - 1]
  {
  }

  function CarryFeed(chunks: seq<string>, seg: Segmenter, tok: Tokenizer, bulk: int): Progress
    requires Segments(seg) && NonEmptyChunks(chunks)
    decreases |chunks|
  {
    if |chunks| == 0 then Progress("", [], 0)
    else CarryStep(CarryFeed(chunks[..|chunks| - 1], seg, tok, bulk), chunks[|chunks| - 1], seg, tok, bulk)
  }

  /** Every segment under the corrected carry, the last one stripped as well. */
  function CarriedSegments(chunks: seq<string>, seg: Segmenter, tok: Tokenizer, bulk: int): seq<string>
    requires Segments(seg) && NonEmptyChunks(chunks)
  {
    if |chunks| == 0 then [] else
      var p := CarryFeed(chunks, seg, tok, bulk);
      p.sentences + [Strip(p.leftovers)]
  }

  /**
   * Under the corrected carry the progress follows the segmentation of the
   * text read so far wherever the segmenter honours the carry-over contract
   * at the chunk boundaries; no condition on whitespace is needed.
   */
  lemma {:induction false} CarryFeedFollowsSegmentation(chunks: seq<string>, seg: Segmenter, tok: Tokenizer, bulk: int)
    requires Segments(seg) && NonEmptyChunks(chunks) && |chunks| > 0 && StableBoundaries(chunks, seg)
    ensures Follows(CarryFeed(chunks, seg, tok, bulk), seg(Concat(chunks)))
    decreases |chunks|
  {
    if |chunks| == 1 {
      FirstChunk(chunks, seg, tok, bulk);
    } else {
      PrefixBoundaries(chunks, seg);
      CarryFeedFollowsSegmentation(chunks[..|chunks| - 1], seg, tok, bulk);
      CarryFeedExtends(chunks, seg, tok, bulk);
    }
  }

  /** The inductive step under the corrected carry. */
  lemma CarryFeedExtends(chunks: seq<string>, seg: Segmenter, tok: Tokenizer, bulk: int)
    requires Segments(seg) && NonEmptyChunks(chunks) && |chunks| > 1
    requires var init := chunks[..|chunks| - 1];
      && Follows(CarryFeed(init, seg, tok, bulk), seg(Concat(init)))
      && StableAt(seg, Concat(init), chunks[|chunks| - 1])
    ensures Follows(CarryFeed(chunks, seg, tok, bulk), seg(Concat(chunks)))
  {
    var init, c := chunks[..|chunks| - 1], chunks[|chunks| - 1];
    var x, p := Concat(init), CarryFeed(init, seg, tok, bulk);
    assert Concat(chunks) == x + c;
    assert CarryFeed(chunks, seg, tok, bulk) == CarryStep(p, c, seg, tok, bulk);
    assert |x| > 0 by {
      assert |x| >= |init|;
    }
    StepFollows(x, c, p, seg, tok, bulk);
  }

  /**
   * Under the corrected carry every chunking yields the stripped segments of
   * the concatenated chunks; no condition on where the chunks end is needed.
   */
  lemma CarriedSegmentation(chunks: seq<string>, seg: Segmenter, tok: Tokenizer, bulk: int)
    requires Segments(seg) && PrefixStable(seg) && NonEmptyChunks(chunks) && |chunks| > 0
    ensures CarriedSegments(chunks, seg, tok, bulk) == StripEach(seg(Concat(chunks)))
  {
    StableEverywhere(chunks, seg);
    CarryFeedFollowsSegmentation(chunks, seg, tok, bulk);
    StripEachSnoc(seg(Concat(chunks)));
  }

  /** A segmenter that keeps the whole text as one sentence. */
  function OneSentence(text: string): seq<string>
  {
    [text]
  }

  /**
   * As written, a chunk that ends in whitespace inside a sentence glues the
   * words on either side together: with the chunks "quick " and "brown", the
   * stripped carry "quick" meets "brown" and the program indexes "quickbrown",
   * while the document is the one sentence "quick brown". The corrected carry
   * keeps the space.
   */
  lemma WordsGlueAtChunkBoundary(tok: Tokenizer, bulk: int)
    ensures Segments(OneSentence) && PrefixStable(OneSentence)
    ensures !CleanBoundaries(["quick ", "brown"], OneSentence)
    ensures AllSegments(["quick ", "brown"], OneSentence, tok, bulk) == ["quickbrown"]
    ensures CarriedSegments(["quick ", "brown"], OneSentence, tok, bulk) == ["quick brown"]
    ensures StripEach(OneSentence(Concat(["quick ", "brown"]))) == ["quick brown"]
  {
    OneSentenceLaws();
    GlueBoundary();
    GlueAsWritten(tok, bulk);
    GlueCarried(tok, bulk);
    GlueDocument();
  }

  lemma GlueDocument()
    ensures Concat(["quick ", "brown"]) == "quick brown"
    ensures Strip("quick brown") == "quick brown"
  {
    var chunks := ["quick ", "brown"];
    assert chunks[..1] == ["quick "];
    ConcatSingle("quick ");
    assert Concat(chunks) == Concat(["quick "]) + "brown";
  }

  lemma OneSentenceLaws()
    ensures Segments(OneSentence) && PrefixStable(OneSentence)
  {
    forall x, y
      ensures StableAt(OneSentence, x, y)
    {
      assert OneSentence(x)[..0] == [];
    }
  }


  lemma GlueBoundary()
    ensures !CleanBoundaries(["quick ", "brown"], OneSentence)
  {
    var chunks := ["quick ", "brown"];
    assert chunks[..1] == ["quick "];
    ConcatSingle("quick ");
    assert Strip("quick ") == "quick";
    assert !LastUnpadded(OneSentence(Concat(chunks[..1])));
  }

  lemma GlueAsWritten(tok: Tokenizer, bulk: int)
    ensures AllSegments(["quick ", "brown"], OneSentence, tok, bulk) == ["quickbrown"]
  {
    var chunks := ["quick ", "brown"];
    assert chunks[..1] == ["quick "] && chunks[..1][..0] == [];
    var p0 := Feed([], OneSentence, tok, bulk);
    assert p0.leftovers + "quick " == "quick ";
    assert Strip("quick ") == "quick";
    var p1 := Feed(["quick "], OneSentence, tok, bulk);
    assert p1.leftovers == "quick";
    assert p1.sentences == [];
    assert p1.leftovers + "brown" == "quickbrown";
    assert Strip("quickbrown") == "quickbrown";
    var p2 := Feed(chunks, OneSentence, tok, bulk);
    assert p2.leftovers == "quickbrown" && p2.sentences == [];
  }

  lemma GlueCarried(tok: Tokenizer, bulk: int)
    ensures CarriedSegments(["quick ", "brown"], OneSentence, tok, bulk) == ["quick brown"]
  {
    var chunks := ["quick ", "brown"];
    assert chunks[..1] == ["quick "] && chunks[..1][..0] == [];
    var p0 := CarryFeed([], OneSentence, tok, bulk);
    assert p0.leftovers + "quick " == "quick ";
    var p1 := CarryFeed(["quick "], OneSentence, tok, bulk);
    assert p1.leftovers == "quick " && p1.sentences == [];
    assert p1.leftovers + "brown" == "quick brown";
    var p2 := CarryFeed(chunks, OneSentence, tok, bulk);
    assert p2.leftovers == "quick brown" && p2.sentences == [];
    GlueDocument();
  }

  /**
   * As written, a document that ends with nothing left in the buffer loses its
   * last segment: the numbered sentences are all the segments but the last.
   */
  lemma LastSegmentDroppedWhenBufferEmpty(chunks: seq<string>, seg: Segmenter, tok: Tokenizer, bulk: int)
    requires Segments(seg) && NonEmptyChunks(chunks) && chunks != []
    requires Feed(chunks, seg, tok, bulk).pending == 0
    ensures var all := AllSegments(chunks, seg, tok, bulk);
      Numbered(chunks, seg, tok, bulk) == all[..|all| - 1]
  {
  }

  /** The sentences `add_data_to_db` numbers in a document read `size` characters at a time. */
  function DocumentNumbered(text: string, size: int, seg: Segmenter, tok: Tokenizer, bulk: int): seq<string>
    requires Segments(seg)
  {
    Helpers.ChunksNonEmpty(text, size);
    Numbered(Helpers.ChunksOf(text, size), seg, tok, bulk)
  }

  /** The segments of a document read `size` characters at a time: every segment, the last included. */
  function DocumentSegments(text: string, size: int, seg: Segmenter, tok: Tokenizer, bulk: int): seq<string>
    requires Segments(seg)
  {
    Helpers.ChunksNonEmpty(text, size);
    AllSegments(Helpers.ChunksOf(text, size), seg, tok, bulk)
  }

  /**
   * Reading in chunks and carrying the leftover over yields exactly the
   * stripped segmentation of the whole document, for a segmenter honouring the
   * carry-over contract and chunk boundaries that fall outside whitespace at a
   * sentence's end; an empty document has no segments.
   */
  lemma WholeDocumentSegmentation(text: string, size: int, seg: Segmenter, tok: Tokenizer, bulk: int)
    requires Segments(seg) && PrefixStable(seg) && size != 0
    requires CleanBoundaries(Helpers.ChunksOf(text, size), seg)
    ensures |text| > 0 ==> DocumentSegments(text, size, seg, tok, bulk) == StripEach(seg(text))
    ensures |text| == 0 ==> DocumentSegments(text, size, seg, tok, bulk) == []
  {
    Helpers.ChunksOfSpec(text, size);
    Helpers.ChunksNonEmpty(text, size);
    if |text| > 0 {
      ChunkedSegmentation(Helpers.ChunksOf(text, size), seg, tok, bulk);
    }
  }
  /** The segments of a document read `size` characters at a time under the corrected carry. */
  function DocumentCarried(text: string, size: int, seg: Segmenter, tok: Tokenizer, bulk: int): seq<string>
    requires Segments(seg)
  {
    Helpers.ChunksNonEmpty(text, size);
    CarriedSegments(Helpers.ChunksOf(text, size), seg, tok, bulk)
  }

  /**
   * With the leftover carried over as the segmenter returned it, reading in
   * chunks yields the stripped segmentation of the whole document wherever
   * the chunk boundaries fall; an empty document has no segments.
   */
  lemma CarriedDocumentSegmentation(text: string, size: int, seg: Segmenter, tok: Tokenizer, bulk: int)
    requires Segments(seg) && PrefixStable(seg) && size != 0
    ensures |text| > 0 ==> DocumentCarried(text, size, seg, tok, bulk) == StripEach(seg(text))
    ensures |text| == 0 ==> DocumentCarried(text, size, seg, tok, bulk) == []
  {
    Helpers.ChunksOfSpec(text, size);
    Helpers.ChunksNonEmpty(text, size);
    if |text| > 0 {
      CarriedSegmentation(Helpers.ChunksOf(text, size), seg, tok, bulk);
    }
  }


  /**
   * The smallest case of the lost sentence: a document no longer than one chunk
   * that the segmenter keeps as one sentence (say "Dogs bark.") gets no sentence
   * numbered at all, although it has one segment.
   */
  lemma OneSentenceDocumentIsLost(doc: string, size: int, seg: Segmenter, tok: Tokenizer, bulk: int)
    requires Segments(seg) && 0 < |doc| <= size && |seg(doc)| == 1
    ensures DocumentNumbered(doc, size, seg, tok, bulk) == []
    ensures DocumentSegments(doc, size, seg, tok, bulk) == StripEach(seg(doc))
  {
    assert Helpers.ChunksOf(doc, size) == [doc];
    assert [doc][..0] == [];
    var start := Feed([], seg, tok, bulk);
    assert start == Progress("", [], 0);
    assert start.leftovers + doc == doc;
    var sents := StripEach(seg(doc));
    assert sents[..0] == [];
    assert RowCount(tok, []) == 0;
    assert Feed([doc], seg, tok, bulk) == Progress(sents[0], [], 0);
  }
}
