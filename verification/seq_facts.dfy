/** Facts about sequences: regrouping concatenations, and sequences without repeated elements. */
module SeqFacts {

  predicate Distinct<T(==)>(s: seq<T>) {
    forall i, j :: 0 <= i < j < |s| ==> s[i] != s[j]
  }

  /** Regrouping the middle of a four-part concatenation. */
  lemma ConcatRegroup<T>(a: seq<T>, b: seq<T>, c: seq<T>, d: seq<T>)
    ensures a + b + c + d == a + (b + c) + d
  {
  }

  /** In a sequence without repetitions every element occurs once. */
  lemma {:induction false} DistinctCountsOne<T>(s: seq<T>, x: T)
    requires Distinct(s)
    ensures multiset(s)[x] == (if x in s then 1 else 0)
  {
    if |s| > 0 {
      var t := s[..|s| - 1];
      assert s == t + [s[|s| - 1]];
      assert Distinct(t);
      DistinctCountsOne(t, x);
      assert s[|s| - 1] !in t;
    }
  }

  /** Two equal elements at distinct positions occur at least twice. */
  lemma RepeatCountsTwice<T>(s: seq<T>, i: nat, j: nat)
    requires i < j < |s| && s[i] == s[j]
    ensures multiset(s)[s[i]] >= 2
  {
    assert s == s[..j] + [s[j]] + s[j + 1..];
    assert s[i] in s[..j];
  }

  /** A rearrangement of a sequence without repetitions has the same length and elements and no repetitions. */
  lemma PermutationOfDistinct<T>(s: seq<T>, t: seq<T>)
    requires multiset(s) == multiset(t)
    requires Distinct(t)
    ensures |s| == |t|
    ensures forall x :: x in s <==> x in t
    ensures Distinct(s)
  {
    assert |s| == |multiset(s)| == |multiset(t)| == |t|;
    forall x
      ensures x in s <==> x in t
    {
      assert x in s <==> x in multiset(s);
      assert x in t <==> x in multiset(t);
    }
    forall i, j | 0 <= i < j < |s|
      ensures s[i] != s[j]
    {
      if s[i] == s[j] {
        RepeatCountsTwice(s, i, j);
        DistinctCountsOne(t, s[i]);
        assert false;
      }
    }
  }

  /** Pigeonhole: a sequence shorter than a sequence without repetitions misses one of its elements. */
  lemma {:induction false} ShorterMisses<T>(s: seq<T>, t: seq<T>)
    requires Distinct(t)
    requires |s| < |t|
    ensures exists x :: x in t && x !in s
  {
    var x := t[|t| - 1];
    if x in s {
      var k :| 0 <= k < |s| && s[k] == x;
      var s' := s[..k] + s[k + 1..];
      var t' := t[..|t| - 1];
      ShorterMisses(s', t');
      var y :| y in t' && y !in s';
      forall m | 0 <= m < |s|
        ensures s[m] != y
      {
        if m < k {
          assert s[m] == s'[m];
        } else if m > k {
          assert s[m] == s'[m - 1];
        }
      }
      assert y in t;
    }
  }

  /**
   * Pigeonhole with a repeat: a sequence no longer than a sequence without
   * repetitions, holding one element twice, misses one of its elements.
   */
  lemma RepeatMisses<T>(s: seq<T>, t: seq<T>, i: nat, j: nat)
    requires Distinct(t)
    requires |s| <= |t|
    requires i < j < |s| && s[i] == s[j]
    ensures exists x :: x in t && x !in s
  {
    var s' := s[..j] + s[j + 1..];
    ShorterMisses(s', t);
    var x :| x in t && x !in s';
    forall m | 0 <= m < |s|
      ensures s[m] != x
    {
      if m < j {
        assert s[m] == s'[m];
      } else if m > j {
        assert s[m] == s'[m - 1];
      } else {
        assert s[m] == s'[i];
      }
    }
  }
}
