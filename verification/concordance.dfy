/**
 * The single-process indexer: every word occurrence of a document becomes a
 * `(word, sentence_no)` row, written to the store in bulk batches and followed
 * by one sentinel row that sorts after every word.
 */
module Concordance {
  import opened Strings
  import opened Nlp
  import opened TokenFilter
  import opened Streaming
  import opened Db
  import opened Rows
  import Helpers
  import Seqs

  const BulkInsertSize := 2500
  const ChunkSize := 1024

  /**
   * `add_sentence_to_word_rows`, in its sequential form: append one row per
   * token that survives the filter, in token order.
   */
  method AddSentenceToWordRows(sentence: string, wordRows: seq<WordRow>, sentenceNo: int, tok: Tokenizer)
    returns (rows: seq<WordRow>)
    ensures rows == wordRows + SentenceRows(KeptWords(tok(sentence)), sentenceNo)
  {
    var tokens := tok(sentence);
    rows := wordRows;
    for k := 0 to |tokens|
      invariant rows == wordRows + SentenceRows(KeptWords(tokens[..k]), sentenceNo)
    {
      KeptWordsStep(tokens, k);
      var token := tokens[k];
      if (|token.text| == 1 && token.isPunct) || (|token.text| == 3 && token.isPunct) {
        assert !Kept(token);
        assert KeptWords(tokens[..k + 1]) == KeptWords(tokens[..k]);
        continue;
      }
      var word := Strip(Lower(token.text));
      if |word| > 0 {
        assert Kept(token) && Normalise(token) == word;
        SentenceRowsSnoc(KeptWords(tokens[..k]), word, sentenceNo);
        rows := rows + [WordRow(word, sentenceNo)];
        assert KeptWords(tokens[..k + 1]) == KeptWords(tokens[..k]) + [word];
      } else {
        assert !Kept(token);
        assert KeptWords(tokens[..k + 1]) == KeptWords(tokens[..k]);
      }
    }
    assert tokens[..|tokens|] == tokens;
  }

  /**
   * The inner loop of `add_data_to_db`: give each complete sentence the next
   * number and append its rows to the buffer.
   */
  method AddSentences(sentences: seq<string>, wordRows: seq<WordRow>, sentenceNo: int, tok: Tokenizer)
    returns (rows: seq<WordRow>, lastNo: int)
    ensures lastNo == sentenceNo + |sentences|
    ensures rows == wordRows + RowsFrom(tok, sentences, sentenceNo + 1)
  {
    rows, lastNo := wordRows, sentenceNo;
    for j := 0 to |sentences|
      invariant lastNo == sentenceNo + j
      invariant rows == wordRows + RowsFrom(tok, sentences[..j], sentenceNo + 1)
    {
      ghost var done := RowsFrom(tok, sentences[..j], sentenceNo + 1);
      ghost var added := SentenceRows(KeptWords(tok(sentences[j])), sentenceNo + 1 + j);
      RowsFromPrefix(tok, sentences, j, sentenceNo + 1);
      lastNo := lastNo + 1;
      rows := AddSentenceToWordRows(sentences[j], rows, lastNo, tok);
      assert rows == (wordRows + done) + added;
      Seqs.Associative(wordRows, done, added);
    }
    assert sentences[..|sentences|] == sentences;
  }

  /** The store plus the buffer hold the rows of every sentence numbered so far. */
  lemma StoredPlusBuffer(tok: Tokenizer, initial: seq<WordRow>, stored: seq<WordRow>, before: seq<WordRow>,
                         after: seq<WordRow>, numbered: seq<string>, more: seq<string>)
    requires stored + before == initial + RowsFrom(tok, numbered, 1)
    requires after == before + RowsFrom(tok, more, |numbered| + 1)
    ensures stored + after == initial + RowsFrom(tok, numbered + more, 1)
  {
    RowsFromAppend(tok, numbered, more, 1);
    var tail := RowsFrom(tok, more, |numbered| + 1);
    Seqs.Associative(stored, before, tail);
    Seqs.Associative(initial, RowsFrom(tok, numbered, 1), tail);
  }

  /** What the store and the buffer hold after the chunks behind `p`. */
  ghost predicate Tracks(p: Progress, leftovers: string, sentenceNo: int, wordRows: seq<WordRow>,
                         stored: seq<WordRow>, initial: seq<WordRow>, tok: Tokenizer)
  {
    && leftovers == p.leftovers && sentenceNo == |p.sentences| && |wordRows| == p.pending
    && stored + wordRows == initial + RowsFrom(tok, p.sentences, 1)
  }

  /**
   * One pass of the chunk loop of `add_data_to_db`: segment the carried-over
   * text plus the chunk, number and buffer every sentence but the last, keep
   * the last as the new leftovers, and flush once the buffer holds the bulk size.
   */
  method IndexChunk(chunk: string, leftovers: string, wordRows: seq<WordRow>, sentenceNo: int,
                    db: Connection<WordRow>, seg: Segmenter, tok: Tokenizer,
                    ghost p: Progress, ghost initial: seq<WordRow>)
    returns (leftovers': string, wordRows': seq<WordRow>, sentenceNo': int)
    requires Segments(seg) && chunk != []
    requires Tracks(p, leftovers, sentenceNo, wordRows, db.rows, initial, tok)
    modifies db
    ensures Tracks(Step(p, chunk, seg, tok, BulkInsertSize), leftovers', sentenceNo', wordRows', db.rows, initial, tok)
  {
    var sents := StripEach(seg(leftovers + chunk));
    var complete := sents[..|sents| - 1];
    leftovers' := sents[|sents| - 1];
    wordRows', sentenceNo' := AddSentences(complete, wordRows, sentenceNo, tok);
    StoredPlusBuffer(tok, initial, db.rows, wordRows, wordRows', p.sentences, complete);
    RowsFromLength(tok, complete, |p.sentences| + 1);
    if |wordRows'| >= BulkInsertSize {
      db.InsertWordRows(wordRows');
      wordRows' := [];
    }
  }

  /**
   * The end of `add_data_to_db`: number and flush the final leftover only
   * while rows are buffered, then write the sentinel row.
   */
  method Close(leftovers: string, wordRows: seq<WordRow>, sentenceNo: int, db: Connection<WordRow>,
               tok: Tokenizer, ghost p: Progress, ghost initial: seq<WordRow>)
    returns (count: int)
    requires Tracks(p, leftovers, sentenceNo, wordRows, db.rows, initial, tok)
    modifies db
    ensures count == |Closing(p)|
    ensures db.rows == initial + RowsFrom(tok, Closing(p), 1) + [SentinelRow]
  {
    count := sentenceNo;
    if |wordRows| > 0 {
      count := count + 1;
      var rows := AddSentenceToWordRows(leftovers, wordRows, count, tok);
      RowsFromSingle(tok, leftovers, count);
      StoredPlusBuffer(tok, initial, db.rows, wordRows, rows, p.sentences, [leftovers]);
      db.InsertWordRows(rows);
    }
    db.InsertWordRows([SentinelRow]);
  }

  /**
   * `add_data_to_db`: read the document in chunks, number the complete
   * sentences of `leftovers + chunk`, flush the buffer once it reaches the bulk
   * size, number the final leftover only if rows are still buffered, and end
   * with the sentinel row. Returns the number of sentences numbered.
   */
  method AddDataToDb(text: string, db: Connection<WordRow>, seg: Segmenter, tok: Tokenizer)
    returns (sentenceNo: nat)
    requires Segments(seg)
    modifies db
    ensures db.rows == old(db.rows)
      + RowsFrom(tok, DocumentNumbered(text, ChunkSize, seg, tok, BulkInsertSize), 1) + [SentinelRow]
    ensures sentenceNo == |DocumentNumbered(text, ChunkSize, seg, tok, BulkInsertSize)|
  {
    var chunks := Helpers.ReadInChunks(text, ChunkSize);
    var leftovers, wordRows, no := "", [], 0;
    ghost var progress := Feed([], seg, tok, BulkInsertSize);
    for i := 0 to |chunks|
      invariant NonEmptyChunks(chunks[..i]) && progress == Feed(chunks[..i], seg, tok, BulkInsertSize)
      invariant Tracks(progress, leftovers, no, wordRows, db.rows, old(db.rows), tok)
    {
      FeedPrefix(chunks, i, seg, tok, BulkInsertSize);
      leftovers, wordRows, no := IndexChunk(chunks[i], leftovers, wordRows, no, db, seg, tok, progress, old(db.rows));
      progress := Step(progress, chunks[i], seg, tok, BulkInsertSize);
    }
    assert chunks[..|chunks|] == chunks;
    sentenceNo := Close(leftovers, wordRows, no, db, tok, progress, old(db.rows));
  }
}
