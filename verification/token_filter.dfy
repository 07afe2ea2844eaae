/**
 * The rule both indexers apply to each token of a sentence: a token is dropped
 * only when it is punctuation of length exactly 1 or exactly 3; any other token
 * is lower-cased and stripped and kept when something is left.
 */
module TokenFilter {
  import opened Strings
  import opened Nlp

  /** The narrow punctuation rule: length 1 or 3 and tagged PUNCT. */
  predicate Dropped(t: Token)
  {
    (|t.text| == 1 && t.isPunct) || (|t.text| == 3 && t.isPunct)
  }

  /** `str(token).lower().strip()`. */
  function Normalise(t: Token): string
  {
    Strip(Lower(t.text))
  }

  /** What an indexed word looks like: non-empty, no upper case, no whitespace at either end. */
  predicate IsIndexWord(w: string)
  {
    && w != []
    && !IsSpace(w[0]) && !IsSpace(w[|w| - 1])
    && forall i :: 0 <= i < |w| ==> !IsUpper(w[i])
  }

  predicate Kept(t: Token)
  {
    !Dropped(t) && |Normalise(t)| > 0
  }

  /** A token that is kept normalises to an index word. */
  lemma NormalisedIsIndexWord(t: Token)
    requires |Normalise(t)| > 0
    ensures IsIndexWord(Normalise(t))
  {
    var l := Lower(t.text);
    var w := Strip(l);
    var off := StripOffset(l);
    StripSpec(l);
    forall i | 0 <= i < |w| ensures !IsUpper(w[i]) {
      assert w[i] == l[off + i];
    }
  }

  /** The words a token sequence contributes, in token order. */
  function KeptWords(ts: seq<Token>): (ws: seq<string>)
    ensures |ws| <= |ts|
    decreases |ts|
  {
    if |ts| == 0 then []
    else
      var t := ts[|ts| - 1];
      KeptWords(ts[..|ts| - 1]) + if Kept(t) then [Normalise(t)] else []
  }

  /** Every word a token sequence contributes is an index word. */
  lemma {:induction false} KeptWordsAreIndexWords(ts: seq<Token>)
    ensures forall i :: 0 <= i < |KeptWords(ts)| ==> IsIndexWord(KeptWords(ts)[i])
    decreases |ts|
  {
    if |ts| > 0 {
      var t := ts[|ts| - 1];
      KeptWordsAreIndexWords(ts[..|ts| - 1]);
      if Kept(t) {
        NormalisedIsIndexWord(t);
      }
    }
  }

  /** One more token adds its word when it is kept, and nothing otherwise. */
  lemma KeptWordsStep(ts: seq<Token>, k: int)
    requires 0 <= k < |ts|
    ensures KeptWords(ts[..k + 1]) == KeptWords(ts[..k]) + if Kept(ts[k]) then [Normalise(ts[k])] else []
  {
    assert ts[..k + 1][..k] == ts[..k];
  }

  /** Filtering commutes with concatenation, so words keep the order of their tokens. */
  lemma {:induction false} KeptWordsAppend(a: seq<Token>, b: seq<Token>)
    ensures KeptWords(a + b) == KeptWords(a) + KeptWords(b)
    decreases |b|
  {
    if b != [] {
      var b' := b[..|b| - 1];
      assert (a + b)[..|a + b| - 1] == a + b';
      KeptWordsAppend(a, b');
    } else {
      assert a + b == a;
    }
  }

  /**
   * A word is indexed exactly when some token is not dropped by the punctuation
   * rule and normalises to that (non-empty) word.
   */
  lemma {:induction false} KeptWordsMembership(ts: seq<Token>, w: string)
    ensures w in KeptWords(ts) <==>
      exists i :: 0 <= i < |ts| && !Dropped(ts[i]) && Normalise(ts[i]) == w && w != []
    decreases |ts|
  {
    if ts != [] {
      var init := ts[..|ts| - 1];
      KeptWordsMembership(init, w);
      if w in KeptWords(ts) && w !in KeptWords(init) {
        assert !Dropped(ts[|ts| - 1]) && Normalise(ts[|ts| - 1]) == w;
      }
      if exists i :: 0 <= i < |ts| && !Dropped(ts[i]) && Normalise(ts[i]) == w && w != [] {
        var i :| 0 <= i < |ts| && !Dropped(ts[i]) && Normalise(ts[i]) == w && w != [];
        if i < |ts| - 1 {
          assert init[i] == ts[i];
        }
      }
    }
  }

  /**
   * Punctuation goes only at length 1 or 3: punctuation of any other length,
   * like any other token, stays when it normalises to something.
   */
  lemma NarrowPunctuationRule(t: Token)
    ensures t.isPunct && (|t.text| == 1 || |t.text| == 3) ==> KeptWords([t]) == []
    ensures t.isPunct && |t.text| != 1 && |t.text| != 3 && |Normalise(t)| > 0 ==> KeptWords([t]) == [Normalise(t)]
    ensures !t.isPunct && |Normalise(t)| > 0 ==> KeptWords([t]) == [Normalise(t)]
  {
    assert [t][..0] == [];
  }
}
