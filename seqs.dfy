/** Facts about sequences shared by the tokenizer, the counter and the ranking. */
module Seqs {

  /** The set of elements of a sequence. */
  function Elems<T>(s: seq<T>): set<T> {
    set x | x in s
  }

  /** No element occurs twice. */
  predicate NoDup<T(==)>(s: seq<T>) {
    forall i, j | 0 <= i < j < |s| :: s[i] != s[j]
  }

  function Min(a: int, b: int): int {
    if a <= b then a else b
  }

  /** The position of the first occurrence of `x` in `s`. */
  function FirstIndex<T(==)>(s: seq<T>, x: T): (k: nat)
    requires x in s
    ensures k < |s| && s[k] == x
    ensures forall i | 0 <= i < k :: s[i] != x
  {
    if s[0] == x then 0 else 1 + FirstIndex(s[1..], x)
  }

  /** A position holding `x` with no `x` before it is the first index. */
  lemma FirstIndexUnique<T>(s: seq<T>, x: T, k: nat)
    requires k < |s| && s[k] == x
    requires forall i | 0 <= i < k :: s[i] != x
    ensures FirstIndex(s, x) == k
  {
  }

  /** Appending an element leaves the first occurrences before it alone,
      and a new element first occurs at the old length. */
  lemma FirstIndexSnoc<T>(s: seq<T>, y: T, x: T)
    requires x in s + [y]
    ensures x in s ==> FirstIndex(s + [y], x) == FirstIndex(s, x)
    ensures x !in s ==> FirstIndex(s + [y], x) == |s|
  {
    var t := s + [y];
    if x in s {
      var k := FirstIndex(s, x);
      assert t[k] == x;
      FirstIndexUnique(t, x, k);
    } else {
      assert t[|s|] == x;
      assert forall i | 0 <= i < |s| :: t[i] == s[i];
      FirstIndexUnique(t, x, |s|);
    }
  }

  /** A duplicate-free sequence has as many distinct elements as it has elements. */
  lemma {:induction false} NoDupCard<T>(s: seq<T>)
    requires NoDup(s)
    ensures |Elems(s)| == |s|
  {
    if s != [] {
      var t := s[1..];
      assert NoDup(t) by {
        forall i, j | 0 <= i < j < |t| ensures t[i] != t[j] {
          assert t[i] == s[i + 1] && t[j] == s[j + 1];
        }
      }
      NoDupCard(t);
      assert s == [s[0]] + t;
      assert Elems(s) == {s[0]} + Elems(t);
      assert s[0] !in Elems(t) by {
        assert forall k | 0 <= k < |t| :: t[k] == s[k + 1];
      }
    }
  }

  /** A sequence is duplicate-free exactly when every element has multiplicity one. */
  lemma NoDupMultiset<T>(s: seq<T>)
    ensures NoDup(s) <==> forall x | x in s :: multiset(s)[x] == 1
  {
    if NoDup(s) {
      forall x | x in s ensures multiset(s)[x] == 1 {
        var k := FirstIndex(s, x);
        assert s == s[..k] + [x] + s[k + 1..];
        assert x !in s[..k];
        var rest := s[k + 1..];
        assert x !in rest by {
          assert forall m | 0 <= m < |rest| :: rest[m] == s[k + 1 + m];
        }
        assert multiset(s) == multiset(s[..k]) + multiset{x} + multiset(rest);
      }
    } else {
      var i, j :| 0 <= i < j < |s| && s[i] == s[j];
      assert s == s[..j] + s[j..];
      assert s[i] in s[..j];
      assert s[j] in s[j..];
      assert multiset(s) == multiset(s[..j]) + multiset(s[j..]);
      assert multiset(s)[s[i]] >= 2;
    }
  }

  /** Reordering a duplicate-free sequence keeps it duplicate-free. */
  lemma PermutationNoDup<T>(s: seq<T>, r: seq<T>)
    requires multiset(r) == multiset(s)
    requires NoDup(s)
    ensures NoDup(r)
  {
    NoDupMultiset(s);
    forall x | x in r ensures multiset(r)[x] == 1 {
      assert x in multiset(r);
    }
    NoDupMultiset(r);
  }
}
