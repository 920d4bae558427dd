/** Candidate strings: the string of digits still possible for one box, and
    the two ways the solver shortens it. */
module Candidates {
  import opened Basics

  /** `a` is `b` with some characters deleted, the rest kept in order. */
  predicate Subseq(a: string, b: string)
    decreases |b|
  {
    if a == [] then true
    else if b == [] then false
    else if a[0] == b[0] then Subseq(a[1..], b[1..])
    else Subseq(a, b[1..])
  }

  /** `s` with every occurrence of `c` deleted: Python's `s.replace(c, '')`
      for a one-character `c`. */
  function Without(s: string, c: char): string {
    if s == [] then []
    else if s[0] == c then Without(s[1..], c)
    else [s[0]] + Without(s[1..], c)
  }

  /** `s` with every character of `ds` deleted. */
  function RemoveAll(s: string, ds: set<char>): string {
    if s == [] then []
    else if s[0] in ds then RemoveAll(s[1..], ds)
    else [s[0]] + RemoveAll(s[1..], ds)
  }

  /** `Without(s, c)` keeps, in order, exactly the characters of `s` other than
      `c`, each as often as `s` has it. */
  lemma {:induction false} WithoutFacts(s: string, c: char)
    ensures forall x :: x in Without(s, c) <==> x in s && x != c
    ensures Subseq(Without(s, c), s)
    ensures multiset(Without(s, c)) == multiset(s)[c := 0]
  {
    if s != [] {
      WithoutFacts(s[1..], c);
      assert s == [s[0]] + s[1..];
      assert multiset(s) == multiset{s[0]} + multiset(s[1..]);
      if s[0] == c {
        SubseqSkip(Without(s[1..], c), s);
      } else {
        assert multiset(Without(s, c)) == multiset{s[0]} + multiset(Without(s[1..], c));
      }
    }
  }

  /** `RemoveAll(s, ds)` keeps, in order, exactly the characters of `s` outside
      `ds`, each as often as `s` has it. */
  lemma {:induction false} RemoveAllFacts(s: string, ds: set<char>)
    ensures forall x :: x in RemoveAll(s, ds) <==> x in s && x !in ds
    ensures Subseq(RemoveAll(s, ds), s)
    ensures forall x :: multiset(RemoveAll(s, ds))[x] == if x in ds then 0 else multiset(s)[x]
  {
    if s != [] {
      RemoveAllFacts(s[1..], ds);
      assert s == [s[0]] + s[1..];
      assert multiset(s) == multiset{s[0]} + multiset(s[1..]);
      if s[0] in ds {
        SubseqSkip(RemoveAll(s[1..], ds), s);
      } else {
        assert multiset(RemoveAll(s, ds)) == multiset{s[0]} + multiset(RemoveAll(s[1..], ds));
      }
    }
  }

  /** Deleting the first character of `b` keeps every subsequence of `b[1..]`. */
  lemma SubseqSkip(a: string, b: string)
    requires b != [] && Subseq(a, b[1..])
    ensures Subseq(a, b)
    decreases |b|, 0
  {
    if a != [] && a[0] == b[0] {
      SubseqDropHead(a, b[1..]);
    }
  }

  /** A subsequence stays a subsequence when its own first character goes. */
  lemma {:induction false} SubseqDropHead(a: string, b: string)
    requires a != [] && Subseq(a, b)
    ensures Subseq(a[1..], b)
    decreases |b|, 1
  {
    if a[0] == b[0] {
      if a[1..] != [] {
        SubseqSkip(a[1..], b);
      }
    } else {
      SubseqDropHead(a, b[1..]);
      SubseqSkip(a[1..], b);
    }
  }

  lemma {:induction false} SubseqRefl(s: string)
    ensures Subseq(s, s)
  {
    if s != [] {
      SubseqRefl(s[1..]);
    }
  }

  /** Deleting characters twice is deleting characters once. */
  lemma {:induction false} SubseqTrans(a: string, b: string, c: string)
    requires Subseq(a, b) && Subseq(b, c)
    ensures Subseq(a, c)
    decreases |c|
  {
    if a == [] {
    } else if b[0] == c[0] {
      if a[0] == b[0] {
        SubseqTrans(a[1..], b[1..], c[1..]);
      } else {
        SubseqTrans(a, b[1..], c[1..]);
        SubseqSkip(a, c);
      }
    } else {
      SubseqTrans(a, b, c[1..]);
      SubseqSkip(a, c);
    }
  }

  /** A subsequence is no longer than the string, and uses only its characters. */
  lemma {:induction false} SubseqBounds(a: string, b: string)
    requires Subseq(a, b)
    ensures |a| <= |b|
    ensures forall x :: x in a ==> x in b
    decreases |b|
  {
    if a == [] {
    } else if a[0] == b[0] {
      SubseqBounds(a[1..], b[1..]);
      assert a == [a[0]] + a[1..] && b == [b[0]] + b[1..];
    } else {
      SubseqBounds(a, b[1..]);
      assert b == [b[0]] + b[1..];
    }
  }

  /** A single candidate of `b` is a subsequence of `b`. */
  lemma {:induction false} SubseqSingle(c: char, b: string)
    requires c in b
    ensures Subseq([c], b)
    decreases |b|
  {
    if b[0] != c {
      assert c in b[1..] by { assert b == [b[0]] + b[1..]; }
      SubseqSingle(c, b[1..]);
    }
  }

  /** Deleting characters from a duplicate-free string keeps it duplicate-free. */
  lemma {:induction false} SubseqDistinct(a: string, b: string)
    requires Subseq(a, b) && Distinct(b)
    ensures Distinct(a)
    decreases |b|
  {
    if a == [] {
    } else {
      var bt := b[1..];
      assert Distinct(bt) by {
        forall i, j | 0 <= i < j < |bt| ensures bt[i] != bt[j] {
          assert bt[i] == b[i + 1] && bt[j] == b[j + 1];
        }
      }
      if a[0] == b[0] {
        SubseqDistinct(a[1..], bt);
        SubseqBounds(a[1..], bt);
        assert b[0] !in bt by {
          forall j | 0 <= j < |bt| ensures bt[j] != b[0] {
            assert bt[j] == b[j + 1];
          }
        }
        forall i, j | 0 <= i < j < |a| ensures a[i] != a[j] {
          if i == 0 {
            assert a[j] == a[1..][j - 1];
            assert a[j] in a[1..];
          } else {
            assert a[i] == a[1..][i - 1] && a[j] == a[1..][j - 1];
          }
        }
      } else {
        SubseqDistinct(a, bt);
      }
    }
  }

  /** Deleting one character from a duplicate-free string shortens it by at most one. */
  lemma {:induction false} WithoutDistinctLength(s: string, c: char)
    requires Distinct(s)
    ensures |Without(s, c)| >= |s| - 1
  {
    if s != [] {
      var t := s[1..];
      assert Distinct(t) by {
        forall i, j | 0 <= i < j < |t| ensures t[i] != t[j] {
          assert t[i] == s[i + 1] && t[j] == s[j + 1];
        }
      }
      if s[0] == c {
        assert c !in t by {
          forall j | 0 <= j < |t| ensures t[j] != c {
            assert t[j] == s[j + 1];
          }
        }
        WithoutAbsent(t, c);
      } else {
        WithoutDistinctLength(t, c);
      }
    }
  }

  /** Deleting a character that is not there changes nothing. */
  lemma {:induction false} WithoutAbsent(s: string, c: char)
    requires c !in s
    ensures Without(s, c) == s
  {
    if s != [] {
      assert c !in s[1..] by { assert s == [s[0]] + s[1..]; }
      WithoutAbsent(s[1..], c);
    }
  }

  /** Deleting one more character after a batch is deleting the enlarged batch. */
  lemma {:induction false} WithoutAfterRemoveAll(s: string, ds: set<char>, c: char)
    ensures Without(RemoveAll(s, ds), c) == RemoveAll(s, ds + {c})
  {
    if s != [] {
      WithoutAfterRemoveAll(s[1..], ds, c);
    }
  }

  /** Two batches of deletions make one. */
  lemma {:induction false} RemoveAllTwice(s: string, ds: set<char>, es: set<char>)
    ensures RemoveAll(RemoveAll(s, ds), es) == RemoveAll(s, ds + es)
  {
    if s != [] {
      RemoveAllTwice(s[1..], ds, es);
    }
  }

  /** Deleting nothing changes nothing. */
  lemma {:induction false} RemoveAllNone(s: string)
    ensures RemoveAll(s, {}) == s
  {
    if s != [] {
      RemoveAllNone(s[1..]);
    }
  }
}
