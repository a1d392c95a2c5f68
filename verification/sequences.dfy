/** Small facts about sequences shared by the game modules: pairwise
    distinctness and JavaScript's `splice(k, 1)`, which removes one element
    in place and keeps the order of the rest. */
module Sequences {

  /** No value occurs twice in `s`. */
  predicate Distinct<T(==)>(s: seq<T>) {
    forall i, j :: 0 <= i < j < |s| ==> s[i] != s[j]
  }

  /** The tail of a distinct sequence is distinct and lacks the head. */
  lemma DistinctTail<T>(s: seq<T>)
    requires s != [] && Distinct(s)
    ensures Distinct(s[1..])
    ensures s[0] !in s[1..]
  {
    var tail := s[1..];
    forall i, j | 0 <= i < j < |tail|
      ensures tail[i] != tail[j]
    {
      assert tail[i] == s[i + 1] && tail[j] == s[j + 1];
    }
    forall i | 0 <= i < |tail|
      ensures tail[i] != s[0]
    {
      assert tail[i] == s[i + 1];
    }
  }

  /** A value absent from a sequence is absent from its tail. */
  lemma NotInTail<T>(s: seq<T>, x: T)
    requires s != [] && x !in s
    ensures x !in s[1..]
  {
    forall i | 0 <= i < |s[1..]|
      ensures s[1..][i] != x
    {
      assert s[1..][i] == s[i + 1];
    }
  }

  /** Prefixing a value that is absent keeps a sequence distinct. */
  lemma ConsDistinct<T>(x: T, s: seq<T>)
    requires x !in s && Distinct(s)
    ensures Distinct([x] + s)
  {
    var r := [x] + s;
    forall i, j | 0 <= i < j < |r|
      ensures r[i] != r[j]
    {
      assert r[j] == s[j - 1];
      if i > 0 {
        assert r[i] == s[i - 1];
      }
    }
  }

  /** `s` with the element at index `k` removed, as `s.splice(k, 1)` leaves it. */
  function RemoveAt<T>(s: seq<T>, k: int): (r: seq<T>)
    requires 0 <= k < |s|
    ensures |r| == |s| - 1
    ensures forall i :: 0 <= i < k ==> r[i] == s[i]
    ensures forall i :: k <= i < |r| ==> r[i] == s[i + 1]
  {
    s[..k] + s[k + 1..]
  }

  /** Removing one element never brings in a value that was not there. */
  lemma RemoveAtSubset<T>(s: seq<T>, k: int, x: T)
    requires 0 <= k < |s|
    requires x in RemoveAt(s, k)
    ensures x in s
  {
    var r := RemoveAt(s, k);
    var i :| 0 <= i < |r| && r[i] == x;
    if i < k {
      assert s[i] == x;
    } else {
      assert s[i + 1] == x;
    }
  }

  /** Every value other than the removed one survives the removal. */
  lemma RemoveAtKeeps<T>(s: seq<T>, k: int, x: T)
    requires 0 <= k < |s|
    requires x in s && x != s[k]
    ensures x in RemoveAt(s, k)
  {
    var r := RemoveAt(s, k);
    var i :| 0 <= i < |s| && s[i] == x;
    if i < k {
      assert r[i] == x;
    } else {
      assert i > k;
      assert r[i - 1] == x;
    }
  }

  /** Removing from a distinct sequence keeps it distinct and drops the
      removed value entirely. */
  lemma RemoveAtDistinct<T>(s: seq<T>, k: int)
    requires 0 <= k < |s|
    requires Distinct(s)
    ensures Distinct(RemoveAt(s, k))
    ensures s[k] !in RemoveAt(s, k)
  {
    var r := RemoveAt(s, k);
    forall i, j | 0 <= i < j < |r|
      ensures r[i] != r[j]
    {
      var i' := if i < k then i else i + 1;
      var j' := if j < k then j else j + 1;
      assert r[i] == s[i'] && r[j] == s[j'];
    }
    forall i | 0 <= i < |r|
      ensures r[i] != s[k]
    {
      var i' := if i < k then i else i + 1;
      assert r[i] == s[i'];
    }
  }
}
