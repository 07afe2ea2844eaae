/**
 * The queue worker that indexes one shard of a document: the same chunked
 * numbering as the single-process indexer, but every row also carries the
 * shard's number, rows go to the shard's own database, and the shard number
 * is read from the suffix of the file name that arrives on the queue.
 */
module Worker {
  import opened Wrappers
  import opened Strings
  import opened Nlp
  import opened TokenFilter
  import opened Streaming
  import opened Db
  import Helpers
  import Seqs
  import Rows

  datatype ShardRow = ShardRow(word: string, sentenceNo: int, fileNo: int)

  /** `['z'*25, 0, file_no]`: the row that closes a shard. */
  function SentinelRow(fileNo: int): ShardRow
  {
    ShardRow(Rows.SentinelWord, 0, fileNo)
  }

  /** Two-column rows widened with the shard number. */
  function Tagged(rows: seq<Rows.WordRow>, fileNo: int): seq<ShardRow>
  {
    seq(|rows|, i requires 0 <= i < |rows| => ShardRow(rows[i].word, rows[i].sentenceNo, fileNo))
  }

  lemma TaggedAppend(a: seq<Rows.WordRow>, b: seq<Rows.WordRow>, fileNo: int)
    ensures Tagged(a + b, fileNo) == Tagged(a, fileNo) + Tagged(b, fileNo)
  {
  }

  lemma TaggedSentenceSnoc(words: seq<string>, w: string, sentenceNo: int, fileNo: int)
    ensures Tagged(Rows.SentenceRows(words + [w], sentenceNo), fileNo)
      == Tagged(Rows.SentenceRows(words, sentenceNo), fileNo) + [ShardRow(w, sentenceNo, fileNo)]
  {
    Rows.SentenceRowsSnoc(words, w, sentenceNo);
    TaggedAppend(Rows.SentenceRows(words, sentenceNo), [Rows.WordRow(w, sentenceNo)], fileNo);
  }

  /** The rows of a run of sentences numbered from `first`, in shard `fileNo`. */
  function ShardRows(tok: Tokenizer, sentences: seq<string>, first: int, fileNo: int): seq<ShardRow>
  {
    Tagged(Rows.RowsFrom(tok, sentences, first), fileNo)
  }

  /**
   * Every row a shard produces carries the shard's number unchanged, holds an
   * index word and a sentence number in `first .. first + |sentences| - 1`,
   * and the sentence numbers never decrease along the rows.
   */
  lemma ShardRowsShape(tok: Tokenizer, sentences: seq<string>, first: int, fileNo: int)
    ensures forall i :: 0 <= i < |ShardRows(tok, sentences, first, fileNo)| ==>
      var r := ShardRows(tok, sentences, first, fileNo)[i];
      r.fileNo == fileNo && first <= r.sentenceNo < first + |sentences| && IsIndexWord(r.word)
    ensures forall i, j :: 0 <= i < j < |ShardRows(tok, sentences, first, fileNo)| ==>
      ShardRows(tok, sentences, first, fileNo)[i].sentenceNo <= ShardRows(tok, sentences, first, fileNo)[j].sentenceNo
  {
    Rows.RowsFromNumbering(tok, sentences, first);
  }

  /**
   * `add_sentence_to_word_rows` of the worker: append one
   * `[word, sentence_no, file_no]` row per token that survives the filter, in
   * token order.
   */
  method AddSentenceToWordRows(sentence: string, wordRows: seq<ShardRow>, sentenceNo: int, fileNo: int,
                               tok: Tokenizer)
    returns (rows: seq<ShardRow>)
    ensures rows == wordRows + Tagged(Rows.SentenceRows(KeptWords(tok(sentence)), sentenceNo), fileNo)
  {
    var tokens := tok(sentence);
    rows := wordRows;
    for k := 0 to |tokens|
      invariant rows == wordRows + Tagged(Rows.SentenceRows(KeptWords(tokens[..k]), sentenceNo), fileNo)
    {
      KeptWordsStep(tokens, k);
      var token := tokens[k];
      if (|token.text| == 1 && token.isPunct) || (|token.text| == 3 && token.isPunct) {
        assert !Kept(token);
        assert KeptWords(tokens[..k + 1]) == KeptWords(tokens[..k]);
        continue;
      }
      var word := Strip(Lower(token.text));
      if |word| > 0 {
        assert Kept(token) && Normalise(token) == word;
        TaggedSentenceSnoc(KeptWords(tokens[..k]), word, sentenceNo, fileNo);
        rows := rows + [ShardRow(word, sentenceNo, fileNo)];
        assert KeptWords(tokens[..k + 1]) == KeptWords(tokens[..k]) + [word];
      } else {
        assert !Kept(token);
        assert KeptWords(tokens[..k + 1]) == KeptWords(tokens[..k]);
      }
    }
    assert tokens[..|tokens|] == tokens;
  }

  /** The inner loop of the worker's `add_data_to_db`: number and buffer each complete sentence. */
  method AddSentences(sentences: seq<string>, wordRows: seq<ShardRow>, sentenceNo: int, fileNo: int,
                      tok: Tokenizer)
    returns (rows: seq<ShardRow>, lastNo: int)
    ensures lastNo == sentenceNo + |sentences|
    ensures rows == wordRows + ShardRows(tok, sentences, sentenceNo + 1, fileNo)
  {
    rows, lastNo := wordRows, sentenceNo;
    for j := 0 to |sentences|
      invariant lastNo == sentenceNo + j
      invariant rows == wordRows + ShardRows(tok, sentences[..j], sentenceNo + 1, fileNo)
    {
      ghost var done := Rows.RowsFrom(tok, sentences[..j], sentenceNo + 1);
      Rows.RowsFromPrefix(tok, sentences, j, sentenceNo + 1);
      lastNo := lastNo + 1;
      ghost var added := Rows.SentenceRows(KeptWords(tok(sentences[j])), lastNo);
      rows := AddSentenceToWordRows(sentences[j], rows, lastNo, fileNo, tok);
      assert rows == (wordRows + Tagged(done, fileNo)) + Tagged(added, fileNo);
      TaggedAppend(done, added, fileNo);
      Seqs.Associative(wordRows, Tagged(done, fileNo), Tagged(added, fileNo));
    }
    assert sentences[..|sentences|] == sentences;
  }

  /** The shard's store plus its buffer hold the rows of every sentence numbered so far. */
  lemma StoredPlusBuffer(tok: Tokenizer, fileNo: int, initial: seq<ShardRow>, stored: seq<ShardRow>,
                         before: seq<ShardRow>, after: seq<ShardRow>, numbered: seq<string>, more: seq<string>)
    requires stored + before == initial + ShardRows(tok, numbered, 1, fileNo)
    requires after == before + ShardRows(tok, more, |numbered| + 1, fileNo)
    ensures stored + after == initial + ShardRows(tok, numbered + more, 1, fileNo)
  {
    Rows.RowsFromAppend(tok, numbered, more, 1);
    TaggedAppend(Rows.RowsFrom(tok, numbered, 1), Rows.RowsFrom(tok, more, |numbered| + 1), fileNo);
    var tail := ShardRows(tok, more, |numbered| + 1, fileNo);
    Seqs.Associative(stored, before, tail);
    Seqs.Associative(initial, ShardRows(tok, numbered, 1, fileNo), tail);
  }

  /** What the shard's store and buffer hold after the chunks behind `p`. */
  ghost predicate Tracks(p: Progress, leftovers: string, sentenceNo: int, wordRows: seq<ShardRow>,
                         stored: seq<ShardRow>, initial: seq<ShardRow>, fileNo: int, tok: Tokenizer)
  {
    && leftovers == p.leftovers && sentenceNo == |p.sentences| && |wordRows| == p.pending
    && stored + wordRows == initial + ShardRows(tok, p.sentences, 1, fileNo)
  }

  /** One pass of the worker's chunk loop, with the bulk size as a parameter. */
  method IndexChunk(chunk: string, leftovers: string, wordRows: seq<ShardRow>, sentenceNo: int, fileNo: int,
                    db: Connection<ShardRow>, seg: Segmenter, tok: Tokenizer, bulk: int,
                    ghost p: Progress, ghost initial: seq<ShardRow>)
    returns (leftovers': string, wordRows': seq<ShardRow>, sentenceNo': int)
    requires Segments(seg) && chunk != []
    requires Tracks(p, leftovers, sentenceNo, wordRows, db.rows, initial, fileNo, tok)
    modifies db
    ensures Tracks(Step(p, chunk, seg, tok, bulk), leftovers', sentenceNo', wordRows', db.rows, initial, fileNo, tok)
  {
    var sents := StripEach(seg(leftovers + chunk));
    var complete := sents[..|sents| - 1];
    leftovers' := sents[|sents| - 1];
    wordRows', sentenceNo' := AddSentences(complete, wordRows, sentenceNo, fileNo, tok);
    StoredPlusBuffer(tok, fileNo, initial, db.rows, wordRows, wordRows', p.sentences, complete);
    Rows.RowsFromLength(tok, complete, |p.sentences| + 1);
    if |wordRows'| >= bulk {
      db.InsertWordRows(wordRows');
      wordRows' := [];
    }
  }

  /**
   * The end of the worker's `add_data_to_db`: number and flush the final
   * leftover only while rows are buffered, then write the shard's sentinel row.
   */
  method Close(leftovers: string, wordRows: seq<ShardRow>, sentenceNo: int, fileNo: int,
               db: Connection<ShardRow>, tok: Tokenizer, ghost p: Progress, ghost initial: seq<ShardRow>)
    returns (count: int)
    requires Tracks(p, leftovers, sentenceNo, wordRows, db.rows, initial, fileNo, tok)
    modifies db
    ensures count == |Closing(p)|
    ensures db.rows == initial + ShardRows(tok, Closing(p), 1, fileNo) + [SentinelRow(fileNo)]
  {
    count := sentenceNo;
    if |wordRows| > 0 {
      count := count + 1;
      var rows := AddSentenceToWordRows(leftovers, wordRows, count, fileNo, tok);
      Rows.RowsFromSingle(tok, leftovers, count);
      StoredPlusBuffer(tok, fileNo, initial, db.rows, wordRows, rows, p.sentences, [leftovers]);
      db.InsertWordRows(rows);
    }
    db.InsertWordRows([SentinelRow(fileNo)]);
  }

  /**
   * The worker's `add_data_to_db` on the connection `get_connection(file_no)`
   * opens: the chunk loop, the final leftover only while rows are buffered,
   * then the sentinel row of the shard. Returns the number of sentences numbered.
   */
  method AddDataToDb(text: string, fileNo: int, db: Connection<ShardRow>, seg: Segmenter, tok: Tokenizer,
                     bulk: int, chunkSize: int)
    returns (sentenceNo: nat)
    requires Segments(seg)
    requires db.name == Helpers.DbName(fileNo, None)
    modifies db
    ensures db.rows == old(db.rows)
      + ShardRows(tok, DocumentNumbered(text, chunkSize, seg, tok, bulk), 1, fileNo) + [SentinelRow(fileNo)]
    ensures sentenceNo == |DocumentNumbered(text, chunkSize, seg, tok, bulk)|
  {
    var chunks := Helpers.ReadInChunks(text, chunkSize);
    var leftovers, wordRows, no := "", [], 0;
    ghost var progress := Feed([], seg, tok, bulk);
    for i := 0 to |chunks|
      invariant NonEmptyChunks(chunks[..i]) && progress == Feed(chunks[..i], seg, tok, bulk)
      invariant Tracks(progress, leftovers, no, wordRows, db.rows, old(db.rows), fileNo, tok)
    {
      FeedPrefix(chunks, i, seg, tok, bulk);
      leftovers, wordRows, no := IndexChunk(chunks[i], leftovers, wordRows, no, fileNo, db, seg, tok, bulk,
                                            progress, old(db.rows));
      progress := Step(progress, chunks[i], seg, tok, bulk);
    }
    assert chunks[..|chunks|] == chunks;
    sentenceNo := Close(leftovers, wordRows, no, fileNo, db, tok, progress, old(db.rows));
  }

  /** `int(filename.split('.')[-1])`: the shard number is the integer after the last dot. */
  function ShardNumber(filename: string): (n: Option<int>)
  {
    var parts := Split(filename, '.');
    ParseInt(parts[|parts| - 1])
  }

  /** A file named `<anything>.<n>` is shard `n`, whatever dots its stem holds. */
  lemma ShardNumberOfName(stem: string, n: int)
    ensures ShardNumber(stem + "." + IntToString(n)) == Some(n)
  {
    var digits := IntToString(n);
    assert '.' !in digits by {
      forall i | 0 <= i < |digits| ensures digits[i] != '.' {
        assert IsDigit(digits[i]) || digits[i] == '-';
      }
    }
    assert stem + "." + digits == stem + ['.'] + digits;
    SplitAround(stem, digits, '.');
    SplitWithout(digits, '.');
    IntToStringRoundTrip(n);
  }

  /**
   * `handle_message`: read the shard number from the file name, then index the
   * shard's text into the shard's database. A name without an integer suffix
   * makes `int` raise before anything is written, so nothing is published.
   */
  method HandleMessage(filename: string, text: string, db: Connection<ShardRow>, seg: Segmenter,
                       tok: Tokenizer, bulk: int, chunkSize: int)
    returns (published: Option<nat>)
    requires Segments(seg)
    requires ShardNumber(filename).Some? ==> db.name == Helpers.DbName(ShardNumber(filename).value, None)
    modifies db
    ensures ShardNumber(filename).None? ==> published == None && db.rows == old(db.rows)
    ensures ShardNumber(filename).Some? ==>
      var fileNo := ShardNumber(filename).value;
      var numbered := DocumentNumbered(text, chunkSize, seg, tok, bulk);
      && published == Some(|numbered|)
      && db.rows == old(db.rows) + ShardRows(tok, numbered, 1, fileNo) + [SentinelRow(fileNo)]
  {
    var fileNo := ShardNumber(filename);
    if fileNo.None? {
      return None;
    }
    var count := AddDataToDb(text, fileNo.value, db, seg, tok, bulk, chunkSize);
    published := Some(count);
  }
}
