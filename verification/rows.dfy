/**
 * The word rows both indexers build: a `(word, sentence_no)` row per kept
 * token, the rows of a run of consecutively numbered sentences, and the
 * sentinel word that closes the alphabetical scan.
 */
module Rows {
  import opened Strings
  import opened Nlp
  import opened TokenFilter
  import opened Streaming
  import Seqs

  datatype WordRow = WordRow(word: string, sentenceNo: int)

  /** `'z' * 25`: the word of the row that closes the alphabetical scan. */
  const SentinelWord := RepeatChar('z', 25)

  const SentinelRow := WordRow(SentinelWord, 0)

  /** The rows one sentence's words make, all carrying that sentence's number. */
  function SentenceRows(words: seq<string>, sentenceNo: int): seq<WordRow>
  {
    seq(|words|, i requires 0 <= i < |words| => WordRow(words[i], sentenceNo))
  }

  lemma SentenceRowsSnoc(words: seq<string>, w: string, sentenceNo: int)
    ensures SentenceRows(words + [w], sentenceNo) == SentenceRows(words, sentenceNo) + [WordRow(w, sentenceNo)]
  {
  }

  /** The rows of a run of sentences, numbered consecutively from `first`. */
  function RowsFrom(tok: Tokenizer, sentences: seq<string>, first: int): seq<WordRow>
    decreases |sentences|
  {
    if sentences == [] then []
    else
      var n := |sentences|;
      RowsFrom(tok, sentences[..n - 1], first) + SentenceRows(KeptWords(tok(sentences[n - 1])), first + n - 1)
  }

  /**
   * Every row of a run of sentences numbered from `first` holds an index word
   * and a number in `first .. first + |sentences| - 1`, and the numbers never
   * decrease along the rows.
   */
  lemma {:induction false} RowsFromNumbering(tok: Tokenizer, sentences: seq<string>, first: int)
    ensures forall i :: 0 <= i < |RowsFrom(tok, sentences, first)| ==>
      var r := RowsFrom(tok, sentences, first)[i];
      first <= r.sentenceNo < first + |sentences| && IsIndexWord(r.word)
    ensures forall i, j :: 0 <= i < j < |RowsFrom(tok, sentences, first)| ==>
      RowsFrom(tok, sentences, first)[i].sentenceNo <= RowsFrom(tok, sentences, first)[j].sentenceNo
    decreases |sentences|
  {
    if sentences != [] {
      var n := |sentences|;
      RowsFromNumbering(tok, sentences[..n - 1], first);
      var front := RowsFrom(tok, sentences[..n - 1], first);
      var words := KeptWords(tok(sentences[n - 1]));
      KeptWordsAreIndexWords(tok(sentences[n - 1]));
      var rows := RowsFrom(tok, sentences, first);
      assert rows == front + SentenceRows(words, first + n - 1);
      assert forall i :: |front| <= i < |rows| ==> rows[i] == WordRow(words[i - |front|], first + n - 1);
      assert forall i :: 0 <= i < |front| ==> rows[i] == front[i];
    }
  }

  lemma RowsFromSnoc(tok: Tokenizer, sentences: seq<string>, s: string, first: int)
    ensures RowsFrom(tok, sentences + [s], first)
      == RowsFrom(tok, sentences, first) + SentenceRows(KeptWords(tok(s)), first + |sentences|)
  {
    assert (sentences + [s])[..|sentences|] == sentences;
  }

  lemma RowsFromPrefix(tok: Tokenizer, sentences: seq<string>, j: nat, first: int)
    requires j < |sentences|
    ensures RowsFrom(tok, sentences[..j + 1], first)
      == RowsFrom(tok, sentences[..j], first) + SentenceRows(KeptWords(tok(sentences[j])), first + j)
  {
    assert sentences[..j + 1][..j] == sentences[..j];
  }

  lemma RowsFromSingle(tok: Tokenizer, s: string, first: int)
    ensures RowsFrom(tok, [s], first) == SentenceRows(KeptWords(tok(s)), first)
  {
    assert [s][..0] == [];
  }

  lemma {:induction false} RowsFromLength(tok: Tokenizer, sentences: seq<string>, first: int)
    ensures |RowsFrom(tok, sentences, first)| == RowCount(tok, sentences)
    decreases |sentences|
  {
    if sentences != [] {
      RowsFromLength(tok, sentences[..|sentences| - 1], first);
    }
  }

  lemma {:induction false} RowsFromAppend(tok: Tokenizer, a: seq<string>, b: seq<string>, first: int)
    ensures RowsFrom(tok, a + b, first) == RowsFrom(tok, a, first) + RowsFrom(tok, b, first + |a|)
    decreases |b|
  {
    if |b| == 0 {
      assert a + b == a;
    } else {
      var b', s := b[..|b| - 1], b[|b| - 1];
      var ab' := a + b';
      assert b == b' + [s];
      assert a + b == ab' + [s];
      var last := SentenceRows(KeptWords(tok(s)), first + |ab'|);
      calc {
        RowsFrom(tok, a + b, first);
        RowsFrom(tok, ab' + [s], first);
        { RowsFromSnoc(tok, ab', s, first); }
        RowsFrom(tok, ab', first) + last;
        { RowsFromAppend(tok, a, b', first); }
        (RowsFrom(tok, a, first) + RowsFrom(tok, b', first + |a|)) + last;
        { Seqs.Associative(RowsFrom(tok, a, first), RowsFrom(tok, b', first + |a|), last); }
        RowsFrom(tok, a, first) + (RowsFrom(tok, b', first + |a|) + last);
        { RowsFromSnoc(tok, b', s, first + |a|); }
        RowsFrom(tok, a, first) + RowsFrom(tok, b' + [s], first + |a|);
        RowsFrom(tok, a, first) + RowsFrom(tok, b, first + |a|);
      }
    }
  }
}
