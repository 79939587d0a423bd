/** Order-preserving filtering, used for directory listings and for WAL deletes. */
module Seqs {

  /** The elements of `s` satisfying `p`, in their original order. */
  function Filter<T>(s: seq<T>, p: T -> bool): (r: seq<T>)
    ensures |r| <= |s|
    ensures forall x | x in r :: x in s && p(x)
    ensures forall i | 0 <= i < |s| && p(s[i]) :: s[i] in r
  {
    if s == [] then []
    else Filter(s[..|s| - 1], p) + (if p(s[|s| - 1]) then [s[|s| - 1]] else [])
  }

  lemma FilterAppend<T>(a: seq<T>, b: seq<T>, p: T -> bool)
    ensures Filter(a + b, p) == Filter(a, p) + Filter(b, p)
    decreases |b|
  {
    if b == [] {
      assert a + b == a;
    } else {
      var b' := b[..|b| - 1];
      assert (a + b)[..|a + b| - 1] == a + b';
      FilterAppend(a, b', p);
    }
  }

  lemma FilterPrefix<T>(s: seq<T>, i: nat, p: T -> bool)
    requires i < |s|
    ensures Filter(s[..i + 1], p) == Filter(s[..i], p) + (if p(s[i]) then [s[i]] else [])
  {
    assert s[..i + 1][..i] == s[..i];
  }

  /** Filtering with predicates that agree on the elements gives the same result. */
  lemma FilterExt<T>(s: seq<T>, p: T -> bool, q: T -> bool)
    requires forall x | x in s :: p(x) == q(x)
    ensures Filter(s, p) == Filter(s, q)
  {
    if s != [] {
      FilterExt(s[..|s| - 1], p, q);
    }
  }

  /** A filter that keeps everything is the identity. */
  lemma {:induction false} FilterAll<T>(s: seq<T>, p: T -> bool)
    requires forall x | x in s :: p(x)
    ensures Filter(s, p) == s
  {
    if s != [] {
      var init := s[..|s| - 1];
      assert Filter(init, p) == init by {
        assert forall x | x in init :: x in s;
        FilterAll(init, p);
      }
      assert s == init + [s[|s| - 1]];
    }
  }

  function Both<T>(p: T -> bool, q: T -> bool): T -> bool
  {
    x => p(x) && q(x)
  }

  /** Filtering twice keeps what both predicates keep. */
  lemma {:induction false} FilterFilter<T>(s: seq<T>, p: T -> bool, q: T -> bool)
    ensures Filter(Filter(s, p), q) == Filter(s, Both(p, q))
  {
    if s != [] {
      var init := s[..|s| - 1];
      var last := s[|s| - 1];
      FilterFilter(init, p, q);
      FilterAppend(Filter(init, p), if p(last) then [last] else [], q);
    }
  }

  lemma AppendAssoc<T>(a: seq<T>, b: seq<T>, c: seq<T>)
    ensures (a + b) + c == a + (b + c)
  {
  }

  /** `a` can be obtained from `b` by deleting elements. */
  predicate IsSubsequence<T(==)>(a: seq<T>, b: seq<T>)
    decreases |b|
  {
    if a == [] then true
    else if b == [] then false
    else if a[|a| - 1] == b[|b| - 1] then IsSubsequence(a[..|a| - 1], b[..|b| - 1])
    else IsSubsequence(a, b[..|b| - 1])
  }

  lemma {:induction false} SubsequenceExtend<T>(a: seq<T>, b: seq<T>, x: T)
    requires IsSubsequence(a, b)
    ensures IsSubsequence(a, b + [x])
    decreases |b|, 1
  {
    var b2 := b + [x];
    assert b2[..|b2| - 1] == b;
    if a != [] && a[|a| - 1] == x {
      SubsequenceDropLast(a, b);
    }
  }

  lemma {:induction false} SubsequenceDropLast<T>(a: seq<T>, b: seq<T>)
    requires a != [] && IsSubsequence(a, b)
    ensures IsSubsequence(a[..|a| - 1], b)
    decreases |b|, 0
  {
    var a' := a[..|a| - 1];
    var b' := b[..|b| - 1];
    assert b' + [b[|b| - 1]] == b;
    if a[|a| - 1] == b[|b| - 1] {
      SubsequenceExtend(a', b', b[|b| - 1]);
    } else {
      SubsequenceDropLast(a, b');
      SubsequenceExtend(a', b', b[|b| - 1]);
    }
  }

  lemma {:induction false} FilterIsSubsequence<T>(s: seq<T>, p: T -> bool)
    ensures IsSubsequence(Filter(s, p), s)
  {
    if s != [] {
      var init := s[..|s| - 1];
      FilterIsSubsequence(init, p);
      var r := Filter(s, p);
      if p(s[|s| - 1]) {
        assert r[..|r| - 1] == Filter(init, p);
      } else {
        assert r == Filter(init, p) + [];
        assert r == Filter(init, p);
        SubsequenceExtend(r, init, s[|s| - 1]);
        assert init + [s[|s| - 1]] == s;
      }
    }
  }

  lemma {:induction false} SubsequenceTransitive<T>(a: seq<T>, b: seq<T>, c: seq<T>)
    requires IsSubsequence(a, b) && IsSubsequence(b, c)
    ensures IsSubsequence(a, c)
    decreases |c|
  {
    if a != [] && b != [] {
      var c' := c[..|c| - 1];
      var last := c[|c| - 1];
      assert c' + [last] == c;
      if b[|b| - 1] == last {
        var b' := b[..|b| - 1];
        if a[|a| - 1] == b[|b| - 1] {
          SubsequenceTransitive(a[..|a| - 1], b', c');
        } else {
          SubsequenceTransitive(a, b', c');
          SubsequenceExtend(a, c', last);
        }
      } else {
        SubsequenceTransitive(a, b, c');
        SubsequenceExtend(a, c', last);
      }
    }
  }

  lemma {:induction false} SubsequenceRefl<T>(a: seq<T>)
    ensures IsSubsequence(a, a)
  {
    if a != [] {
      SubsequenceRefl(a[..|a| - 1]);
    }
  }

  /** The longest prefix of `s` free of elements of `bad`: what a loop stopping at the first failure gets through. */
  function TakeUntil<T(==)>(s: seq<T>, bad: set<T>): (r: seq<T>)
    ensures |r| <= |s| && r == s[..|r|]
    ensures forall x | x in r :: x !in bad
    ensures |r| < |s| ==> s[|r|] in bad
  {
    if s == [] || s[0] in bad then [] else [s[0]] + TakeUntil(s[1..], bad)
  }

  lemma TakeUntilAll<T>(s: seq<T>, bad: set<T>)
    requires forall x | x in s :: x !in bad
    ensures TakeUntil(s, bad) == s
  {
  }

  lemma TakeUntilPrefix<T>(a: seq<T>, b: seq<T>, bad: set<T>)
    requires forall x | x in a :: x !in bad
    requires b != [] && b[0] in bad
    ensures TakeUntil(a + b, bad) == a
  {
    if a == [] {
      assert a + b == b;
    } else {
      assert (a + b)[1..] == a[1..] + b;
      TakeUntilPrefix(a[1..], b, bad);
    }
  }

  /** `p` is a prefix of `s`: `strings.HasPrefix` / `str.startswith`. */
  predicate HasPrefix<T(==)>(s: seq<T>, p: seq<T>)
  {
    |p| <= |s| && s[..|p|] == p
  }
}
