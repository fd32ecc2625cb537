/** The tokenizing step of `top_words`: lower-case the text, then return every
    match of the pattern `\b\w+\b`, which are exactly the maximal runs of word
    characters, from left to right. Word characters and lower-casing are the
    ASCII ones. */
module Tokenizer {

  /** `\w` restricted to ASCII: a letter, a digit or the underscore. */
  predicate IsWordChar(c: char) {
    ('a' <= c <= 'z') || ('A' <= c <= 'Z') || ('0' <= c <= '9') || c == '_'
  }

  /** A character that lower-casing leaves alone: anything but `A`..`Z`. */
  predicate IsLowerCase(c: char) {
    !('A' <= c <= 'Z')
  }

  /** ASCII lower-casing of one character; every other character is kept. */
  function Lower(c: char): (d: char)
    ensures IsLowerCase(d)
    ensures IsWordChar(d) == IsWordChar(c)
    ensures IsLowerCase(c) ==> d == c
  {
    if 'A' <= c <= 'Z' then (c as int - 'A' as int + 'a' as int) as char else c
  }

  /** `text.lower()`, character by character. */
  function LowerStr(s: string): (r: string)
    ensures |r| == |s|
    ensures forall i | 0 <= i < |r| :: IsLowerCase(r[i])
    ensures forall i | 0 <= i < |r| :: IsWordChar(r[i]) == IsWordChar(s[i])
  {
    seq(|s|, i requires 0 <= i < |s| => Lower(s[i]))
  }

  /** `c` and `d` are the same letter up to case (or the same character):
      `A`..`Z` lie 32 code points below `a`..`z`. */
  predicate CaseVariants(c: char, d: char) {
    || c == d
    || ('A' <= c <= 'Z' && d as int == c as int + 32)
    || ('A' <= d <= 'Z' && c as int == d as int + 32)
  }

  /** Lower-casing identifies exactly the characters that differ only in case. */
  lemma LowerFoldsCase(c: char, d: char)
    ensures Lower(c) == Lower(d) <==> CaseVariants(c, d)
  {
  }

  /** Two texts of the same length lower-case to the same text exactly when
      they differ only in the case of their letters. */
  lemma LowerStrFoldsCase(x: string, y: string)
    requires |x| == |y|
    ensures LowerStr(x) == LowerStr(y) <==> forall i | 0 <= i < |x| :: CaseVariants(x[i], y[i])
  {
    forall i | 0 <= i < |x| ensures LowerStr(x)[i] == LowerStr(y)[i] <==> CaseVariants(x[i], y[i]) {
      LowerFoldsCase(x[i], y[i]);
    }
    if forall i | 0 <= i < |x| :: CaseVariants(x[i], y[i]) {
      assert forall i | 0 <= i < |x| :: LowerStr(x)[i] == LowerStr(y)[i];
    }
  }

  /** Lower-casing leaves a text without upper-case letters as it is. */
  lemma LowerStrKeepsLowerCase(s: string)
    requires forall i | 0 <= i < |s| :: IsLowerCase(s[i])
    ensures LowerStr(s) == s
  {
  }

  /** One match: the half-open character range `[start, end)`. */
  datatype Span = Span(start: nat, end: nat)

  /** `s[a..b]` is a maximal run of word characters: non-empty, made of word
      characters only, and bounded on each side by a non-word character or
      by the end of the text. */
  predicate IsMaximalRun(s: string, a: nat, b: nat) {
    && a < b <= |s|
    && (forall k | a <= k < b :: IsWordChar(s[k]))
    && (a == 0 || !IsWordChar(s[a - 1]))
    && (b == |s| || !IsWordChar(s[b]))
  }

  /** Where the run of word characters that begins at `i` ends (the greedy `\w+`). */
  function RunEnd(s: string, i: nat): (j: nat)
    requires i <= |s|
    ensures i <= j <= |s|
    ensures forall k | i <= k < j :: IsWordChar(s[k])
    ensures j == |s| || !IsWordChar(s[j])
    decreases |s| - i
  {
    if i < |s| && IsWordChar(s[i]) then RunEnd(s, i + 1) else i
  }

  /** The matches found scanning from position `i`: a non-word character is
      skipped, a word character starts a match that runs as far as it can. */
  function SpansFrom(s: string, i: nat): (sp: seq<Span>)
    requires i <= |s|
    ensures forall k | 0 <= k < |sp| :: i <= sp[k].start < sp[k].end <= |s|
    ensures forall k | 0 <= k < |sp| :: IsWordChar(s[sp[k].start])
    decreases |s| - i
  {
    if i == |s| then []
    else if !IsWordChar(s[i]) then SpansFrom(s, i + 1)
    else
      var j := RunEnd(s, i);
      [Span(i, j)] + SpansFrom(s, j)
  }

  /** The positions of all matches of `\b\w+\b` in `s`: maximal runs of word
      characters, left to right, never touching. */
  function Spans(s: string): (sp: seq<Span>)
    ensures forall k | 0 <= k < |sp| :: IsMaximalRun(s, sp[k].start, sp[k].end)
    ensures forall k, l | 0 <= k < l < |sp| :: sp[k].end < sp[l].start
  {
    SpansFromMaximal(s, 0);
    SpansFromOrdered(s, 0);
    SpansFrom(s, 0)
  }

  /** `re.findall(r"\b\w+\b", s)`: the text of every match, in order. Each
      word is non-empty and made of word characters of `s`. */
  function FindWords(s: string): (ws: seq<string>)
    ensures |ws| == |Spans(s)|
    ensures forall k | 0 <= k < |ws| ::
              |ws[k]| > 0 && forall c | c in ws[k] :: IsWordChar(c) && c in s
  {
    var sp := Spans(s);
    var ws := seq(|sp|, k requires 0 <= k < |sp| => s[sp[k].start..sp[k].end]);
    assert forall k, m | 0 <= k < |ws| && 0 <= m < |ws[k]| :: ws[k][m] == s[sp[k].start + m];
    ws
  }

  /** The token sequence of `top_words`: the matches in the lower-cased text.
      A token is non-empty, lower-case, and made of word characters only, so
      separators and punctuation never appear in one. */
  function Tokenize(text: string): (ws: seq<string>)
    ensures forall t | t in ws ::
              |t| > 0 && forall c | c in t :: IsWordChar(c) && IsLowerCase(c)
  {
    FindWords(LowerStr(text))
  }

  /** Every match found from `i` is a maximal run (when the scan starts at a
      run boundary). */
  lemma {:induction false} SpansFromMaximal(s: string, i: nat)
    requires i <= |s|
    requires i == 0 || i == |s| || !IsWordChar(s[i - 1]) || !IsWordChar(s[i])
    ensures forall k | 0 <= k < |SpansFrom(s, i)| ::
              IsMaximalRun(s, SpansFrom(s, i)[k].start, SpansFrom(s, i)[k].end)
    decreases |s| - i
  {
    if i < |s| {
      if !IsWordChar(s[i]) {
        SpansFromMaximal(s, i + 1);
      } else {
        var j := RunEnd(s, i);
        SpansFromMaximal(s, j);
        assert SpansFrom(s, i) == [Span(i, j)] + SpansFrom(s, j);
      }
    }
  }

  /** The matches found from `i` are strictly increasing, with at least one
      character between two of them. */
  lemma {:induction false} SpansFromOrdered(s: string, i: nat)
    requires i <= |s|
    ensures forall k, l | 0 <= k < l < |SpansFrom(s, i)| ::
              SpansFrom(s, i)[k].end < SpansFrom(s, i)[l].start
    decreases |s| - i
  {
    if i < |s| {
      if !IsWordChar(s[i]) {
        SpansFromOrdered(s, i + 1);
      } else {
        var j := RunEnd(s, i);
        SpansFromOrdered(s, j);
        var rest := SpansFrom(s, j);
        var sp := [Span(i, j)] + rest;
        assert SpansFrom(s, i) == sp;
        assert forall l | 0 <= l < |rest| :: j < rest[l].start;
        assert forall k | 1 <= k < |sp| :: sp[k] == rest[k - 1];
      }
    }
  }

  /** Every word character at or after `i` lies inside some match found from `i`. */
  lemma {:induction false} SpansFromCover(s: string, i: nat, p: nat)
    requires i <= p < |s| && IsWordChar(s[p])
    ensures exists k :: 0 <= k < |SpansFrom(s, i)| &&
              SpansFrom(s, i)[k].start <= p < SpansFrom(s, i)[k].end
    decreases |s| - i
  {
    if !IsWordChar(s[i]) {
      SpansFromCover(s, i + 1, p);
      assert SpansFrom(s, i) == SpansFrom(s, i + 1);
    } else {
      var j := RunEnd(s, i);
      var sp := SpansFrom(s, i);
      assert sp == [Span(i, j)] + SpansFrom(s, j);
      if p < j {
        assert sp[0].start <= p < sp[0].end;
      } else {
        SpansFromCover(s, j, p);
        var k :| 0 <= k < |SpansFrom(s, j)| &&
                 SpansFrom(s, j)[k].start <= p < SpansFrom(s, j)[k].end;
        assert sp[k + 1] == SpansFrom(s, j)[k];
      }
    }
  }

  /** Two maximal runs that share a position are the same run. */
  lemma MaximalRunsOverlap(s: string, a: nat, b: nat, c: nat, d: nat, p: nat)
    requires IsMaximalRun(s, a, b) && IsMaximalRun(s, c, d)
    requires a <= p < b && c <= p < d
    ensures a == c && b == d
  {
  }

  /** The matches are exactly the maximal runs of word characters. */
  lemma SpansAreMaximalRuns(s: string, a: nat, b: nat)
    ensures Span(a, b) in Spans(s) <==> IsMaximalRun(s, a, b)
  {
    var sp := Spans(s);
    SpansFromMaximal(s, 0);
    if IsMaximalRun(s, a, b) {
      SpansFromCover(s, 0, a);
      var k :| 0 <= k < |sp| && sp[k].start <= a < sp[k].end;
      MaximalRunsOverlap(s, a, b, sp[k].start, sp[k].end, a);
      assert sp[k] == Span(a, b);
    }
  }

  /** The matches, read left to right, do not overlap and leave no word
      character out: they partition the word characters of the text. */
  lemma SpansPartition(s: string)
    ensures forall k, l | 0 <= k < l < |Spans(s)| :: Spans(s)[k].end < Spans(s)[l].start
    ensures forall p | 0 <= p < |s| ::
              IsWordChar(s[p]) <==> exists k :: 0 <= k < |Spans(s)| && Spans(s)[k].start <= p < Spans(s)[k].end
  {
    var sp := Spans(s);
    SpansFromOrdered(s, 0);
    SpansFromMaximal(s, 0);
    forall p | 0 <= p < |s|
      ensures IsWordChar(s[p]) <==> exists k :: 0 <= k < |sp| && sp[k].start <= p < sp[k].end
    {
      if IsWordChar(s[p]) {
        SpansFromCover(s, 0, p);
      }
    }
  }

  /** Lower-casing changes no character class, so the run ends are those of the original text. */
  lemma {:induction false} RunEndLower(s: string, i: nat)
    requires i <= |s|
    ensures RunEnd(LowerStr(s), i) == RunEnd(s, i)
    decreases |s| - i
  {
    if i < |s| && IsWordChar(s[i]) {
      RunEndLower(s, i + 1);
    }
  }

  lemma {:induction false} SpansFromLower(s: string, i: nat)
    requires i <= |s|
    ensures SpansFrom(LowerStr(s), i) == SpansFrom(s, i)
    decreases |s| - i
  {
    if i < |s| {
      if !IsWordChar(s[i]) {
        SpansFromLower(s, i + 1);
      } else {
        RunEndLower(s, i);
        SpansFromLower(s, RunEnd(s, i));
      }
    }
  }

  /** The tokens are the lower-cased words of the original text, found at the
      same places: words that differ only in case become the same token. */
  lemma TokenizeIsLoweredWords(text: string)
    ensures |Tokenize(text)| == |FindWords(text)|
    ensures forall k | 0 <= k < |Tokenize(text)| :: Tokenize(text)[k] == LowerStr(FindWords(text)[k])
  {
    SpansFromLower(text, 0);
    forall k | 0 <= k < |Tokenize(text)| ensures Tokenize(text)[k] == LowerStr(FindWords(text)[k]) {
      LoweredWordAt(text, k);
    }
  }

  /** Two words of a text become the same token exactly when they differ
      only in the case of their letters. */
  lemma SameTokenUpToCase(text: string, k: nat, l: nat)
    requires k < |FindWords(text)| && l < |FindWords(text)|
    requires |FindWords(text)[k]| == |FindWords(text)[l]|
    ensures k < |Tokenize(text)| && l < |Tokenize(text)|
    ensures Tokenize(text)[k] == Tokenize(text)[l] <==>
              forall i | 0 <= i < |FindWords(text)[k]| :: CaseVariants(FindWords(text)[k][i], FindWords(text)[l][i])
  {
    TokenizeIsLoweredWords(text);
    LowerStrFoldsCase(FindWords(text)[k], FindWords(text)[l]);
  }

  /** Every token is its own lower-casing. */
  lemma TokensAreLowered(text: string)
    ensures forall t | t in Tokenize(text) :: LowerStr(t) == t
  {
    forall t | t in Tokenize(text) ensures LowerStr(t) == t {
      LowerStrKeepsLowerCase(t);
    }
  }

  /** One position of `TokenizeIsLoweredWords`. */
  lemma LoweredWordAt(text: string, k: nat)
    requires Spans(LowerStr(text)) == Spans(text)
    requires k < |Spans(text)|
    ensures k < |Tokenize(text)| && k < |FindWords(text)|
    ensures Tokenize(text)[k] == LowerStr(FindWords(text)[k])
  {
    var s := LowerStr(text);
    var a, b := Spans(text)[k].start, Spans(text)[k].end;
    FindWordsAt(s, k);
    FindWordsAt(text, k);
    assert s[a..b] == LowerStr(text[a..b]);
  }

  /** The `k`-th word is the text of the `k`-th match. */
  lemma FindWordsAt(s: string, k: nat)
    requires k < |Spans(s)|
    ensures Spans(s)[k].start <= Spans(s)[k].end <= |s|
    ensures k < |FindWords(s)| && FindWords(s)[k] == s[Spans(s)[k].start..Spans(s)[k].end]
  {
  }

  /** Scanning a stretch without word characters finds nothing. */
  lemma {:induction false} SpansFromNone(s: string, i: nat)
    requires i <= |s|
    requires forall p | i <= p < |s| :: !IsWordChar(s[p])
    ensures SpansFrom(s, i) == []
    decreases |s| - i
  {
    if i < |s| {
      SpansFromNone(s, i + 1);
    }
  }

  /** A text without word characters, in particular the empty text, has no tokens. */
  lemma NoWordCharsNoTokens(text: string)
    requires forall i | 0 <= i < |text| :: !IsWordChar(text[i])
    ensures Tokenize(text) == []
  {
    SpansFromNone(LowerStr(text), 0);
  }
}
