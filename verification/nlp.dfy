/**
 * The natural-language library the indexer calls, seen only through its
 * results: a segmenter that cuts text into sentences (each as the library
 * returns it, whitespace included; the indexer strips them itself) and a
 * tokenizer that cuts a sentence into tokens tagged with whether the library
 * classifies them as punctuation. Both are parameters of the model.
 */
module Nlp {
  /** A token: its text and whether its part-of-speech tag is PUNCT. */
  datatype Token = Token(text: string, isPunct: bool)

  type Tokenizer = string -> seq<Token>

  type Segmenter = string -> seq<string>

  /** The segmenter yields at least one sentence for any non-empty text (the indexer reads the last one). */
  ghost predicate Segments(seg: Segmenter)
  {
    forall t :: t != [] ==> |seg(t)| > 0
  }

  /**
   * The carry-over contract at one boundary: segmenting `x + y` keeps every
   * sentence of `x` but its last, and continues that last sentence with `y`.
   */
  ghost predicate StableAt(seg: Segmenter, x: string, y: string)
    requires Segments(seg)
  {
    x != [] && y != [] ==> seg(x + y) == seg(x)[..|seg(x)| - 1] + seg(seg(x)[|seg(x)| - 1] + y)
  }

  /** The carry-over contract wherever the text is cut. */
  ghost predicate PrefixStable(seg: Segmenter)
    requires Segments(seg)
  {
    forall x, y :: StableAt(seg, x, y)
  }
}
