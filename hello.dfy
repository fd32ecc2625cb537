/** `top_words(text, topk)` of hello.py: tokenize the lower-cased text into
    maximal runs of word characters, count the tokens with a `Counter`, and
    return its `most_common(topk)` pairs. */
module Hello {
  import opened Seqs
  import opened Tokenizer
  import opened Ranking
  import opened Counting

  /** `Counter(re.findall(r"\b\w+\b", text.lower())).most_common(topk)`. */
  function TopWords(text: string, topk: int := 10): (r: seq<Entry>)
    requires topk >= 0
    ensures |r| <= topk
  {
    MostCommon(Count(Tokenize(text)), topk)
  }

  /** The number of distinct tokens of a text. */
  function DistinctTokens(text: string): nat {
    |Elems(Tokenize(text))|
  }

  /** The result has `min(topk, number of distinct tokens)` entries. */
  lemma TopWordsLength(text: string, topk: int)
    requires topk >= 0
    ensures |TopWords(text, topk)| == Min(topk, DistinctTokens(text))
  {
    var t := Count(Tokenize(text));
    CountCounts(Tokenize(text));
    NoDupCard(t.order);
  }

  /** Every reported word is a token of the text, lower-case and made of word
      characters; words are not repeated; and each count is the true number of
      occurrences of its word among the tokens, so at least one. */
  lemma TopWordsEntries(text: string, topk: int)
    requires topk >= 0
    ensures forall e | e in TopWords(text, topk) ::
              && e.word in Tokenize(text)
              && e.count == multiset(Tokenize(text))[e.word]
              && e.count >= 1
              && |e.word| > 0
              && forall c | c in e.word :: IsWordChar(c) && IsLowerCase(c)
    ensures forall i, j | 0 <= i < j < |TopWords(text, topk)| ::
              TopWords(text, topk)[i].word != TopWords(text, topk)[j].word
  {
    var ws := Tokenize(text);
    var t := Count(ws);
    CountCounts(ws);
    MostCommonEntries(t, topk);
    forall e | e in TopWords(text, topk) ensures e.word in ws && e.count >= 1 {
      assert e.word in Elems(ws);
      assert e.word in multiset(ws);
    }
  }

  /** The result is ordered by count, largest first; among equal counts, words
      come in the order of their first occurrence in the token sequence. */
  lemma TopWordsOrdered(text: string, topk: int)
    requires topk >= 0
    ensures NonIncreasing(TopWords(text, topk))
    ensures forall i, j | 0 <= i < j < |TopWords(text, topk)| ::
              TopWords(text, topk)[i].count == TopWords(text, topk)[j].count ==>
                TopWords(text, topk)[i].word in Tokenize(text) &&
                TopWords(text, topk)[j].word in Tokenize(text) &&
                FirstIndex(Tokenize(text), TopWords(text, topk)[i].word) <
                FirstIndex(Tokenize(text), TopWords(text, topk)[j].word)
  {
    var ws := Tokenize(text);
    var t := Count(ws);
    var r := TopWords(text, topk);
    MostCommonOrdered(t, topk);
    CountOrder(ws);
    forall i, j | 0 <= i < j < |r|
      ensures r[i].count == r[j].count ==>
                r[i].word in ws && r[j].word in ws &&
                FirstIndex(ws, r[i].word) < FirstIndex(ws, r[j].word)
    {
      if r[i].count == r[j].count {
        var p, q := FirstIndex(t.order, r[i].word), FirstIndex(t.order, r[j].word);
        assert t.order[p] == r[i].word && t.order[q] == r[j].word;
      }
    }
  }

  /** The token `w`, left out of a result that reports `e`, occurs no more
      often than `e`'s word, and if as often, first occurs after it. */
  predicate RanksBelow(ws: seq<string>, w: string, e: Entry)
    requires w in ws
  {
    && multiset(ws)[w] <= e.count
    && (multiset(ws)[w] == e.count ==> e.word in ws && FirstIndex(ws, e.word) < FirstIndex(ws, w))
  }

  /** Top-K selection is correct: a token left out of the result occurs no
      more often than any word in the result, and a left-out token with the
      same count as a reported word first occurs after it. */
  lemma TopWordsSelection(text: string, topk: int)
    requires topk >= 0
    ensures forall w, e | w in Tokenize(text) && w !in WordsOf(TopWords(text, topk)) && e in TopWords(text, topk) ::
              RanksBelow(Tokenize(text), w, e)
  {
    forall w, e | w in Tokenize(text) && w !in WordsOf(TopWords(text, topk)) && e in TopWords(text, topk)
      ensures RanksBelow(Tokenize(text), w, e)
    {
      LeftOutToken(text, topk, w, e);
    }
  }

  /** One pair of `TopWordsSelection`. */
  lemma LeftOutToken(text: string, topk: int, w: string, e: Entry)
    requires topk >= 0
    requires w in Tokenize(text) && w !in WordsOf(TopWords(text, topk)) && e in TopWords(text, topk)
    ensures RanksBelow(Tokenize(text), w, e)
  {
    var ws := Tokenize(text);
    var t := Count(ws);
    CountCounts(ws);
    assert w in Elems(ws);
    LeftOutNotLarger(t, topk, w, e);
    if multiset(ws)[w] == e.count {
      CountOrder(ws);
      var p, q := FirstIndex(t.order, e.word), FirstIndex(t.order, w);
      assert t.order[p] == e.word && t.order[q] == w;
    }
  }

  /** A text with no word characters, the empty text among them, gives an
      empty result, and so does `topk = 0` for every text. */
  lemma TopWordsEmpty(text: string, topk: int)
    requires topk >= 0
    ensures (forall i | 0 <= i < |text| :: !IsWordChar(text[i])) ==> TopWords(text, topk) == []
    ensures TopWords(text, 0) == []
  {
    if forall i | 0 <= i < |text| :: !IsWordChar(text[i]) {
      NoWordCharsNoTokens(text);
    }
  }

  /** Two texts that differ only in the case of their letters give the same result. */
  lemma TopWordsCaseVariants(x: string, y: string, topk: int)
    requires topk >= 0
    requires |x| == |y| && forall i | 0 <= i < |x| :: CaseVariants(x[i], y[i])
    ensures TopWords(x, topk) == TopWords(y, topk)
  {
    LowerStrFoldsCase(x, y);
  }

  /** Case does not matter: a text and its lower-cased form give the same result. */
  lemma TopWordsIgnoresCase(text: string, topk: int)
    requires topk >= 0
    ensures TopWords(LowerStr(text), topk) == TopWords(text, topk)
  {
    assert LowerStr(LowerStr(text)) == LowerStr(text);
  }
}
