/** Python's `sorted(items, key=count, reverse=True)`: a stable sort of
    `(word, count)` entries by count, largest first. Entries with equal counts
    keep the order they had in the input. */
module Ranking {
  import opened Seqs

  /** One `(word, count)` pair as `Counter` reports it. */
  datatype Entry = Entry(word: string, count: nat)

  /** Counts never increase from left to right. */
  predicate NonIncreasing(s: seq<Entry>) {
    forall i, j | 0 <= i < j < |s| :: s[i].count >= s[j].count
  }

  /** Where `e` goes in a sorted `t` so that it follows every entry whose count
      is at least its own: after the equal ones, before the smaller ones. */
  function InsertPos(e: Entry, t: seq<Entry>): (k: nat)
    ensures k <= |t|
    ensures forall i | 0 <= i < k :: t[i].count >= e.count
    ensures k < |t| ==> t[k].count < e.count
  {
    if t == [] || t[0].count < e.count then 0 else 1 + InsertPos(e, t[1..])
  }

  function Insert(e: Entry, t: seq<Entry>): (r: seq<Entry>)
    ensures |r| == |t| + 1
    ensures multiset(r) == multiset(t) + multiset{e}
    ensures NonIncreasing(t) ==> NonIncreasing(r)
  {
    var k := InsertPos(e, t);
    assert t == t[..k] + t[k..];
    InsertKeepsOrder(e, t, k);
    t[..k] + [e] + t[k..]
  }

  lemma InsertKeepsOrder(e: Entry, t: seq<Entry>, k: nat)
    requires k == InsertPos(e, t)
    ensures NonIncreasing(t) ==> NonIncreasing(t[..k] + [e] + t[k..])
  {
    if NonIncreasing(t) {
      var r := t[..k] + [e] + t[k..];
      forall i, j | 0 <= i < j < |r| ensures r[i].count >= r[j].count {
        if j < k {
          assert r[i] == t[i] && r[j] == t[j];
        } else if j == k {
          assert r[i] == t[i] && r[j] == e;
        } else if i < k {
          assert r[i] == t[i] && r[j] == t[j - 1];
        } else if i == k {
          assert r[i] == e && r[j] == t[j - 1];
          assert t[j - 1].count <= t[k].count;
        } else {
          assert r[i] == t[i - 1] && r[j] == t[j - 1];
        }
      }
    }
  }

  /** The stable descending sort by count; the result is a sorted permutation of the input. */
  function SortByCountDesc(s: seq<Entry>): (r: seq<Entry>)
    ensures |r| == |s|
    ensures multiset(r) == multiset(s)
    ensures NonIncreasing(r)
  {
    if s == [] then []
    else
      var init := s[..|s| - 1];
      assert s == init + [s[|s| - 1]];
      Insert(s[|s| - 1], SortByCountDesc(init))
  }

  /** Entries of `r` with equal counts occur in `r` in the order of their
      first occurrences in `s`. */
  predicate StableFor(s: seq<Entry>, r: seq<Entry>) {
    forall i, j | 0 <= i < j < |r| ::
      r[i].count == r[j].count ==>
        r[i] in s && r[j] in s && FirstIndex(s, r[i]) < FirstIndex(s, r[j])
  }

  /** Inserting a new last input entry keeps a stable sort stable. */
  lemma InsertStable(init: seq<Entry>, e: Entry, t: seq<Entry>)
    requires e !in init
    requires multiset(t) == multiset(init)
    requires NonIncreasing(t)
    requires StableFor(init, t)
    ensures StableFor(init + [e], Insert(e, t))
  {
    var s := init + [e];
    var r := Insert(e, t);
    forall x | x in t ensures x in init && x in s && FirstIndex(s, x) == FirstIndex(init, x) < |init| {
      assert x in multiset(t);
      FirstIndexSnoc(init, e, x);
    }
    FirstIndexSnoc(init, e, e);
    forall i, j | 0 <= i < j < |r|
      ensures r[i].count == r[j].count ==>
                r[i] in s && r[j] in s && FirstIndex(s, r[i]) < FirstIndex(s, r[j])
    {
      InsertPairStable(init, e, t, i, j);
    }
  }

  /** What `Insert` puts at each position. */
  lemma InsertAt(e: Entry, t: seq<Entry>, m: nat)
    requires m <= |t|
    ensures Insert(e, t)[m] ==
      if m < InsertPos(e, t) then t[m] else if m == InsertPos(e, t) then e else t[m - 1]
  {
    var k := InsertPos(e, t);
    assert Insert(e, t) == t[..k] + [e] + t[k..];
  }

  /** One pair of positions of `InsertStable`. */
  lemma InsertPairStable(init: seq<Entry>, e: Entry, t: seq<Entry>, i: nat, j: nat)
    requires NonIncreasing(t)
    requires StableFor(init, t)
    requires forall x | x in t :: x in init && x in init + [e] && FirstIndex(init + [e], x) == FirstIndex(init, x) < |init|
    requires e in init + [e] && FirstIndex(init + [e], e) == |init|
    requires i < j < |t| + 1
    ensures var r := Insert(e, t);
      r[i].count == r[j].count ==>
        r[i] in init + [e] && r[j] in init + [e] && FirstIndex(init + [e], r[i]) < FirstIndex(init + [e], r[j])
  {
    var k := InsertPos(e, t);
    InsertAt(e, t, i);
    InsertAt(e, t, j);
    if j > k {
      assert t[j - 1].count <= t[k].count < e.count;
      assert t[j - 1] in t;
    }
    if i != k {
      assert t[if i < k then i else i - 1] in t;
    }
  }

  /** Stability: two entries with the same count appear in the result in the
      order in which they appear in the input. */
  lemma {:induction false} SortStable(s: seq<Entry>)
    requires NoDup(s)
    ensures StableFor(s, SortByCountDesc(s))
  {
    if s != [] {
      var init := s[..|s| - 1];
      var e := s[|s| - 1];
      assert s == init + [e];
      assert NoDup(init);
      assert e !in init;
      SortStable(init);
      InsertStable(init, e, SortByCountDesc(init));
    }
  }
}
