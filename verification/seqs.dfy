/**
 * Order-preserving filtering of sequences, the one list operation the dropdown
 * is built from (JavaScript's `Array.prototype.filter`), together with the
 * subsequence relation that states what "order-preserving" means.
 */
module Seqs {

  /** `a` can be obtained from `b` by deleting elements, without reordering. */
  predicate IsSubseq<T(==)>(a: seq<T>, b: seq<T>)
    decreases |b|
  {
    |a| == 0
    || (|b| > 0 && ((a[0] == b[0] && IsSubseq(a[1..], b[1..])) || IsSubseq(a, b[1..])))
  }

  /** The elements of `s` that satisfy `p`, in the order they occur in `s`. */
  function Keep<T(==,!new)>(s: seq<T>, p: T -> bool): (r: seq<T>)
    ensures |r| <= |s|
    ensures forall x :: x in r <==> x in s && p(x)
    decreases |s|
  {
    if |s| == 0 then []
    else
      assert s == [s[0]] + s[1..];
      (if p(s[0]) then [s[0]] else []) + Keep(s[1..], p)
  }

  /** Filtering keeps every element satisfying `p` exactly as often as it occurs, and no other. */
  lemma {:induction false} KeepMultiset<T(!new)>(s: seq<T>, p: T -> bool)
    ensures forall x :: multiset(Keep(s, p))[x] == if p(x) then multiset(s)[x] else 0
    decreases |s|
  {
    if |s| != 0 {
      assert s == [s[0]] + s[1..];
      KeepMultiset(s[1..], p);
    }
  }

  /** Filtering does not reorder. */
  lemma {:induction false} KeepSubseq<T(!new)>(s: seq<T>, p: T -> bool)
    ensures IsSubseq(Keep(s, p), s)
    decreases |s|
  {
    if |s| != 0 {
      var rest := Keep(s[1..], p);
      KeepSubseq(s[1..], p);
      if p(s[0]) {
        var r := Keep(s, p);
        assert r == [s[0]] + rest;
        assert r[0] == s[0] && r[1..] == rest;
      } else {
        assert Keep(s, p) == rest;
        assert IsSubseq(rest, s[1..]);
      }
    }
  }

  /** A subsequence never holds an element more often than the sequence it was taken from. */
  lemma {:induction false} SubseqMultiset<T>(a: seq<T>, b: seq<T>)
    requires IsSubseq(a, b)
    ensures multiset(a) <= multiset(b)
    decreases |b|
  {
    if |a| == 0 {
    } else {
      assert b == [b[0]] + b[1..];
      if a[0] == b[0] && IsSubseq(a[1..], b[1..]) {
        SubseqMultiset(a[1..], b[1..]);
        assert a == [a[0]] + a[1..];
      } else {
        SubseqMultiset(a, b[1..]);
      }
    }
  }

  /** Filtering distributes over concatenation: the basis for computing it left to right. */
  lemma {:induction false} KeepConcat<T(!new)>(a: seq<T>, b: seq<T>, p: T -> bool)
    ensures Keep(a + b, p) == Keep(a, p) + Keep(b, p)
    decreases |a|
  {
    if |a| == 0 {
      assert a + b == b;
    } else {
      assert (a + b)[1..] == a[1..] + b;
      KeepConcat(a[1..], b, p);
    }
  }

  /** Filtering with a predicate every element satisfies changes nothing. */
  lemma {:induction false} KeepAll<T(!new)>(s: seq<T>, p: T -> bool)
    requires forall x :: x in s ==> p(x)
    ensures Keep(s, p) == s
    decreases |s|
  {
    if |s| != 0 {
      assert forall x :: x in s[1..] ==> x in s;
      KeepAll(s[1..], p);
      assert s == [s[0]] + s[1..];
    }
  }

  /**
   * `Keep` is the only sequence that is a subsequence of `s` and holds exactly
   * the elements satisfying `p`, each as often as `s` does: its contract
   * determines it completely.
   */
  lemma {:induction false} KeepUnique<T(!new)>(s: seq<T>, p: T -> bool, r: seq<T>)
    requires IsSubseq(r, s)
    requires forall x :: multiset(r)[x] == if p(x) then multiset(s)[x] else 0
    ensures r == Keep(s, p)
    decreases |s|
  {
    if |s| == 0 {
      assert |r| == 0;
    } else if |r| == 0 {
      var k := Keep(s, p);
      assert multiset(k) == multiset(r);
    } else {
      assert s == [s[0]] + s[1..];
      assert r == [r[0]] + r[1..];
      if r[0] == s[0] && IsSubseq(r[1..], s[1..]) {
        assert p(s[0]) by {
          assert multiset(r)[s[0]] > 0;
        }
        forall x
          ensures multiset(r[1..])[x] == if p(x) then multiset(s[1..])[x] else 0
        {
          assert multiset(r)[x] == multiset(r[1..])[x] + (if x == s[0] then 1 else 0);
          assert multiset(s)[x] == multiset(s[1..])[x] + (if x == s[0] then 1 else 0);
        }
        KeepUnique(s[1..], p, r[1..]);
      } else {
        assert IsSubseq(r, s[1..]);
        SubseqMultiset(r, s[1..]);
        assert multiset(s)[s[0]] == multiset(s[1..])[s[0]] + 1;
        assert !p(s[0]) by {
          assert multiset(r)[s[0]] < multiset(s)[s[0]];
        }
        forall x
          ensures multiset(r)[x] == if p(x) then multiset(s[1..])[x] else 0
        {
          if p(x) {
            assert x != s[0];
            assert multiset(s)[x] == multiset(s[1..])[x];
          }
        }
        KeepUnique(s[1..], p, r);
      }
    }
  }

  /** Filtering keeps any key function injective: it only deletes elements. */
  lemma {:induction false} KeepInjective<T(!new), K>(s: seq<T>, p: T -> bool, key: T -> K)
    requires forall i, j :: 0 <= i < j < |s| ==> key(s[i]) != key(s[j])
    ensures forall i, j :: 0 <= i < j < |Keep(s, p)| ==> key(Keep(s, p)[i]) != key(Keep(s, p)[j])
    decreases |s|
  {
    if |s| != 0 {
      var rest := Keep(s[1..], p);
      KeepInjective(s[1..], p, key);
      forall x | x in rest
        ensures key(x) != key(s[0])
      {
        var m :| 0 <= m < |s[1..]| && s[1..][m] == x;
        assert s[m + 1] == x;
      }
    }
  }

  /** `a` is a suffix of `b`. */
  predicate IsSuffix<T(==)>(a: seq<T>, b: seq<T>) {
    |a| <= |b| && b[|b| - |a|..] == a
  }

  /** Being a suffix is transitive. */
  lemma SuffixTransitive<T>(a: seq<T>, b: seq<T>, c: seq<T>)
    requires IsSuffix(a, b) && IsSuffix(b, c)
    ensures IsSuffix(a, c)
  {
    assert c[|c| - |b|..][|b| - |a|..] == c[|c| - |a|..];
  }

  /** Concatenation is associative. */
  lemma AppendAssoc<T>(x: seq<T>, y: seq<T>, z: seq<T>)
    ensures x + (y + z) == (x + y) + z
  {
  }
}
