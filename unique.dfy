/** Distinct values in order of first occurrence: what the pipeline hook's
    `seen` map and `unqNames` slice accumulate. */
module Unique {

  predicate Distinct<T(==)>(s: seq<T>) {
    forall i, j :: 0 <= i < j < |s| ==> s[i] != s[j]
  }

  /** The first `n` elements of `s`, or all of them when there are fewer. */
  function Take<T>(s: seq<T>, n: nat): (r: seq<T>)
    ensures |r| <= n && r <= s
    ensures |s| <= n ==> r == s
    ensures |s| > n ==> r == s[..n]
  {
    if |s| <= n then s else s[..n]
  }

  /** The position of the first occurrence of `x` in `s`. */
  function FirstIndex<T(==)>(s: seq<T>, x: T): (k: nat)
    requires x in s
    ensures k < |s| && s[k] == x && x !in s[..k]
  {
    if s[0] == x then 0
    else
      var k := 1 + FirstIndex(s[1..], x);
      assert s[..k] == [s[0]] + s[1..][..k - 1];
      k
  }

  /** `s` with every repetition of an earlier element dropped. */
  function Dedup<T(==,!new)>(s: seq<T>): (r: seq<T>)
    ensures Distinct(r)
    ensures forall x :: x in r <==> x in s
  {
    if |s| == 0 then []
    else
      var d := Dedup(s[..|s| - 1]);
      assert s == s[..|s| - 1] + [s[|s| - 1]];
      if s[|s| - 1] in d then d else d + [s[|s| - 1]]
  }

  /** One more element extends the deduplicated sequence by it exactly when
      it was not seen before. */
  lemma DedupSnoc<T(!new)>(s: seq<T>, x: T)
    ensures Dedup(s + [x]) == if x in Dedup(s) then Dedup(s) else Dedup(s) + [x]
  {
    assert (s + [x])[..|s|] == s;
  }

  /** Deduplicating a prefix gives a prefix: later elements never reorder or
      remove what was already collected. */
  lemma {:induction false} DedupExtends<T(!new)>(s: seq<T>, t: seq<T>)
    ensures Dedup(s) <= Dedup(s + t)
  {
    if t != [] {
      var t' := t[..|t| - 1];
      assert s + t == (s + t') + [t[|t| - 1]];
      DedupExtends(s, t');
      DedupSnoc(s + t', t[|t| - 1]);
    } else {
      assert s + t == s;
    }
  }

  lemma FirstIndexOfPrefix<T>(s: seq<T>, t: seq<T>, y: T)
    requires y in s
    ensures FirstIndex(s + t, y) == FirstIndex(s, y)
  {
    var k, k' := FirstIndex(s + t, y), FirstIndex(s, y);
    assert (s + t)[..k'] == s[..k'];
    assert (s + t)[k'] == y;
    assert forall i :: 0 <= i < k ==> (s + t)[..k][i] == (s + t)[i];
  }

  /** The elements of `Dedup(s)` come in the order of their first occurrence in `s`. */
  lemma {:induction false} DedupFirstSeenOrder<T(!new)>(s: seq<T>)
    ensures forall i, j :: 0 <= i < j < |Dedup(s)| ==>
              FirstIndex(s, Dedup(s)[i]) < FirstIndex(s, Dedup(s)[j])
  {
    if |s| > 0 {
      var p, x := s[..|s| - 1], s[|s| - 1];
      assert s == p + [x];
      DedupFirstSeenOrder(p);
      DedupSnoc(p, x);
      var d := Dedup(p);
      forall y | y in d
        ensures FirstIndex(s, y) == FirstIndex(p, y) < |p|
      {
        FirstIndexOfPrefix(p, [x], y);
      }
      if x !in d {
        assert FirstIndex(s, x) == |p|;
      }
    }
  }
}
