/** `collections.Counter` as `top_words` uses it: built from a sequence of
    words, it maps each distinct word to its number of occurrences and
    remembers the order in which the words were first inserted; `most_common(n)`
    returns the `n` entries with the largest counts, ties in insertion order. */
module Counting {
  import opened Seqs
  import opened Ranking

  /** A counter: the count of every word seen, and the distinct words in
      first-insertion order (the iteration order of the underlying dict). */
  datatype FrequencyTable = FrequencyTable(counts: map<string, nat>, order: seq<string>)

  /** The insertion order lists every key exactly once. */
  predicate Valid(t: FrequencyTable) {
    Elems(t.order) == t.counts.Keys && NoDup(t.order)
  }

  const Empty := FrequencyTable(map[], [])

  /** `counter[w] = counter.get(w, 0) + 1`: a new key goes to the end of the order. */
  function Add(t: FrequencyTable, w: string): (u: FrequencyTable)
    requires Valid(t)
    ensures Valid(u)
    ensures u.counts == t.counts[w := (if w in t.counts then t.counts[w] else 0) + 1]
    ensures u.order == if w in t.counts then t.order else t.order + [w]
  {
    if w in t.counts then
      FrequencyTable(t.counts[w := t.counts[w] + 1], t.order)
    else
      assert forall i | 0 <= i < |t.order| :: t.order[i] in t.counts;
      FrequencyTable(t.counts[w := 1], t.order + [w])
  }

  /** `Counter(words)`: every word added in turn, from left to right. */
  function Count(ws: seq<string>): (t: FrequencyTable)
    ensures Valid(t)
  {
    if ws == [] then Empty else Add(Count(ws[..|ws| - 1]), ws[|ws| - 1])
  }

  /** The counter holds exactly the words of `ws`, each with its true number of occurrences. */
  lemma {:induction false} CountCounts(ws: seq<string>)
    ensures Count(ws).counts.Keys == Elems(ws)
    ensures forall w | w in Count(ws).counts :: Count(ws).counts[w] == multiset(ws)[w]
  {
    if ws != [] {
      var init := ws[..|ws| - 1];
      var w := ws[|ws| - 1];
      assert ws == init + [w];
      CountCounts(init);
      assert Elems(ws) == Elems(init) + {w};
      assert multiset(ws) == multiset(init) + multiset{w};
    }
  }

  /** The counter lists its words in the order of their first occurrence in `ws`. */
  lemma {:induction false} CountOrder(ws: seq<string>)
    ensures forall i, j | 0 <= i < j < |Count(ws).order| ::
              Count(ws).order[i] in ws && Count(ws).order[j] in ws &&
              FirstIndex(ws, Count(ws).order[i]) < FirstIndex(ws, Count(ws).order[j])
  {
    if ws != [] {
      var init := ws[..|ws| - 1];
      var w := ws[|ws| - 1];
      assert ws == init + [w];
      CountOrder(init);
      CountCounts(init);
      forall i, j | 0 <= i < j < |Count(ws).order|
        ensures Count(ws).order[i] in ws && Count(ws).order[j] in ws &&
                FirstIndex(ws, Count(ws).order[i]) < FirstIndex(ws, Count(ws).order[j])
      {
        CountOrderPair(init, w, i, j);
      }
    }
  }

  /** One pair of `CountOrder`, after the last word `w` is added. */
  lemma CountOrderPair(init: seq<string>, w: string, i: nat, j: nat)
    requires forall i, j | 0 <= i < j < |Count(init).order| ::
               Count(init).order[i] in init && Count(init).order[j] in init &&
               FirstIndex(init, Count(init).order[i]) < FirstIndex(init, Count(init).order[j])
    requires Count(init).counts.Keys == Elems(init)
    requires i < j < |Count(init + [w]).order|
    ensures Count(init + [w]).order[i] in init + [w] && Count(init + [w]).order[j] in init + [w]
    ensures FirstIndex(init + [w], Count(init + [w]).order[i]) < FirstIndex(init + [w], Count(init + [w]).order[j])
  {
    var ws := init + [w];
    assert ws[..|ws| - 1] == init;
    var t := Count(init);
    var u := Count(ws);
    assert u == Add(t, w);
    var x, y := u.order[i], u.order[j];
    assert x == t.order[i] && t.order[i] in t.counts;
    FirstIndexSnoc(init, w, x);
    if j < |t.order| {
      assert y == t.order[j] && t.order[j] in t.counts;
      FirstIndexSnoc(init, w, y);
    } else {
      assert y == w && w !in init;
      FirstIndexSnoc(init, w, w);
    }
  }

  /** `counter.items()`, in insertion order. */
  function Items(t: FrequencyTable): (es: seq<Entry>)
    requires Valid(t)
    ensures |es| == |t.order|
    ensures NoDup(es)
  {
    seq(|t.order|, i requires 0 <= i < |t.order| => Entry(t.order[i], t.counts[t.order[i]]))
  }

  /** The words of some entries. */
  function WordsOf(es: seq<Entry>): set<string> {
    set e | e in es :: e.word
  }

  /** `counter.most_common(n)`. CPython computes it with `heapq.nlargest`,
      whose result for `n >= 0` is that of its documented equivalent
      `sorted(counter.items(), key=count, reverse=True)[:n]`, modelled here. */
  function MostCommon(t: FrequencyTable, n: nat): (r: seq<Entry>)
    requires Valid(t)
    ensures |r| == Min(n, |t.order|)
  {
    var sorted := SortByCountDesc(Items(t));
    sorted[..Min(n, |sorted|)]
  }

  /** An entry's position among the items is its word's position in the insertion order. */
  lemma ItemsIndex(t: FrequencyTable, e: Entry)
    requires Valid(t) && e in Items(t)
    ensures e.word in t.counts && e.count == t.counts[e.word]
    ensures e.word in t.order && FirstIndex(t.order, e.word) == FirstIndex(Items(t), e)
  {
    var p := FirstIndex(Items(t), e);
    assert t.order[p] == e.word;
    FirstIndexUnique(t.order, e.word, p);
  }

  /** Every reported entry is an item of the counter. */
  lemma MostCommonItems(t: FrequencyTable, n: nat)
    requires Valid(t)
    ensures MostCommon(t, n) == SortByCountDesc(Items(t))[..|MostCommon(t, n)|]
    ensures forall e | e in MostCommon(t, n) :: e in Items(t)
  {
    var sorted := SortByCountDesc(Items(t));
    forall e | e in MostCommon(t, n) ensures e in Items(t) {
      assert e in sorted;
      assert e in multiset(sorted);
    }
  }

  /** `most_common(n)` reports distinct words, each with its count in the counter. */
  lemma MostCommonEntries(t: FrequencyTable, n: nat)
    requires Valid(t)
    ensures forall e | e in MostCommon(t, n) :: e.word in t.counts && e.count == t.counts[e.word]
    ensures forall i, j | 0 <= i < j < |MostCommon(t, n)| :: MostCommon(t, n)[i].word != MostCommon(t, n)[j].word
  {
    var items := Items(t);
    var sorted := SortByCountDesc(items);
    var r := MostCommon(t, n);
    MostCommonItems(t, n);
    forall e | e in r ensures e.word in t.counts && e.count == t.counts[e.word] {
      ItemsIndex(t, e);
    }
    PermutationNoDup(items, sorted);
    forall i, j | 0 <= i < j < |r| ensures r[i].word != r[j].word {
      ItemsIndex(t, r[i]);
      ItemsIndex(t, r[j]);
      assert r[i] == sorted[i] && r[j] == sorted[j];
    }
  }

  /** `most_common(n)` is ordered by count, largest first, and entries with
      equal counts come in the counter's insertion order. */
  lemma MostCommonOrdered(t: FrequencyTable, n: nat)
    requires Valid(t)
    ensures NonIncreasing(MostCommon(t, n))
    ensures forall i, j | 0 <= i < j < |MostCommon(t, n)| ::
              MostCommon(t, n)[i].count == MostCommon(t, n)[j].count ==>
                MostCommon(t, n)[i].word in t.order && MostCommon(t, n)[j].word in t.order &&
                FirstIndex(t.order, MostCommon(t, n)[i].word) < FirstIndex(t.order, MostCommon(t, n)[j].word)
  {
    var items := Items(t);
    var sorted := SortByCountDesc(items);
    var r := MostCommon(t, n);
    MostCommonItems(t, n);
    SortStable(items);
    forall i, j | 0 <= i < j < |r|
      ensures r[i].count == r[j].count ==>
                r[i].word in t.order && r[j].word in t.order &&
                FirstIndex(t.order, r[i].word) < FirstIndex(t.order, r[j].word)
    {
      assert r[i] == sorted[i] && r[j] == sorted[j];
      ItemsIndex(t, r[i]);
      ItemsIndex(t, r[j]);
    }
  }

  /** `most_common(n)` selects correctly: no word it leaves out has a larger
      count than a word it reports, and a left-out word tied with a reported
      one was inserted after it (the stable sort keeps the earlier word). */
  lemma MostCommonSelection(t: FrequencyTable, n: nat)
    requires Valid(t)
    ensures forall w, e | w in t.counts && w !in WordsOf(MostCommon(t, n)) && e in MostCommon(t, n) ::
              && t.counts[w] <= e.count
              && (t.counts[w] == e.count ==>
                    w in t.order && e.word in t.order && FirstIndex(t.order, e.word) < FirstIndex(t.order, w))
  {
    forall w, e | w in t.counts && w !in WordsOf(MostCommon(t, n)) && e in MostCommon(t, n)
      ensures && t.counts[w] <= e.count
              && (t.counts[w] == e.count ==>
                    w in t.order && e.word in t.order && FirstIndex(t.order, e.word) < FirstIndex(t.order, w))
    {
      LeftOutNotLarger(t, n, w, e);
    }
  }

  /** A word left out of `most_common(n)` has its item in the sorted items
      past the reported prefix. */
  lemma LeftOutPosition(t: FrequencyTable, n: nat, w: string) returns (q: nat)
    requires Valid(t)
    requires w in t.counts && w !in WordsOf(MostCommon(t, n))
    ensures |MostCommon(t, n)| <= q < |SortByCountDesc(Items(t))|
    ensures SortByCountDesc(Items(t))[q] == Entry(w, t.counts[w])
    ensures Entry(w, t.counts[w]) in Items(t)
  {
    var items := Items(t);
    var sorted := SortByCountDesc(items);
    var r := MostCommon(t, n);
    MostCommonItems(t, n);
    var p :| 0 <= p < |t.order| && t.order[p] == w;
    var x := items[p];
    assert x == Entry(w, t.counts[w]);
    assert x in multiset(sorted);
    q :| 0 <= q < |sorted| && sorted[q] == x;
    assert q < |r| ==> x in r;
  }

  /** One pair of `MostCommonSelection`: the left-out word sits after the
      reported one in the sorted items. */
  lemma LeftOutNotLarger(t: FrequencyTable, n: nat, w: string, e: Entry)
    requires Valid(t)
    requires w in t.counts && w !in WordsOf(MostCommon(t, n)) && e in MostCommon(t, n)
    ensures && t.counts[w] <= e.count
            && (t.counts[w] == e.count ==>
                  w in t.order && e.word in t.order && FirstIndex(t.order, e.word) < FirstIndex(t.order, w))
  {
    var items := Items(t);
    var sorted := SortByCountDesc(items);
    var r := MostCommon(t, n);
    var x := Entry(w, t.counts[w]);
    var q := LeftOutPosition(t, n, w);
    MostCommonItems(t, n);
    var m :| 0 <= m < |r| && r[m] == e;
    assert sorted[m] == e && sorted[q] == x && m < q;
    SortStable(items);
    ItemsIndex(t, e);
    ItemsIndex(t, x);
  }
}
