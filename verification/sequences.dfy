/** Facts about sequences, and powers of two, that the tree and hash proofs share. */
module Sequences {
  /** A sequence without repetition. */
  ghost predicate NoDup<N>(s: seq<N>) {
    forall i, j :: 0 <= i < j < |s| ==> s[i] != s[j]
  }

  lemma NoDupParts<N>(a: seq<N>, b: seq<N>)
    requires NoDup(a + b)
    ensures NoDup(a) && NoDup(b) && (forall x :: x in a ==> x !in b)
  {
    var s := a + b;
    forall i, j | 0 <= i < j < |a| ensures a[i] != a[j] {
      assert s[i] != s[j];
    }
    forall i, j | 0 <= i < j < |b| ensures b[i] != b[j] {
      assert s[|a| + i] != s[|a| + j];
    }
    forall i, j | 0 <= i < |a| && 0 <= j < |b| ensures a[i] != b[j] {
      assert s[i] != s[|a| + j];
    }
  }

  lemma NoDupConcat<N>(a: seq<N>, b: seq<N>)
    requires NoDup(a) && NoDup(b) && (forall x :: x in a ==> x !in b)
    ensures NoDup(a + b)
  {
    var s := a + b;
    forall i, j | 0 <= i < j < |s| ensures s[i] != s[j] {
      if i < |a| <= j {
        assert a[i] in a;
      }
    }
  }

  /** In a sequence without repetition a position is determined by what stands there. */
  lemma UniqueSplit<N>(a: seq<N>, x: N, b: seq<N>, a': seq<N>, b': seq<N>)
    requires a + [x] + b == a' + [x] + b'
    requires NoDup(a + [x] + b)
    ensures a == a' && b == b'
  {
    var s := a + [x] + b;
    assert s[|a|] == x;
    assert (a' + [x] + b')[|a'|] == x;
    assert |a| == |a'|;
    assert a == s[..|a|] && a' == (a' + [x] + b')[..|a'|];
    assert b == s[|a| + 1..] && b' == (a' + [x] + b')[|a'| + 1..];
  }

  lemma NoDupWithout<N>(a: seq<N>, x: N, b: seq<N>)
    requires NoDup(a + [x] + b)
    ensures NoDup(a + b) && x !in a + b
  {
    NoDupParts(a + [x], b);
    NoDupParts(a, [x]);
    assert x in a + [x];
    forall y | y in a ensures y !in b {
      assert y in a + [x];
    }
    NoDupConcat(a, b);
  }

  lemma InWithout<N>(a: seq<N>, x: N, b: seq<N>, n: N)
    ensures n in a + [x] + b <==> n in a + b || n == x
  {
    assert n in a + [x] + b <==> n in a || n == x || n in b;
  }

  lemma ConcatRight<N>(a: seq<N>, b: seq<N>, x: N, c: seq<N>, d: seq<N>)
    ensures a + (b + [x] + c) + d == a + b + ([x] + c + d)
  {
  }

  lemma ConcatLeft<N>(a: seq<N>, b: seq<N>, x: N, c: seq<N>, d: seq<N>)
    ensures a + (b + [x] + c) + d == (a + b + [x]) + c + d
  {
  }

  lemma ConcatFour<N>(a: seq<N>, b: seq<N>, c: seq<N>, d: seq<N>)
    ensures a + (b + c) + d == (a + b) + (c + d)
  {
  }

  lemma ConcatFive<N>(a: seq<N>, x: N, b: seq<N>, y: N, c: seq<N>)
    ensures (a + [x] + b) + [y] + c == a + [x] + (b + [y] + c)
  {
  }

  lemma ConcatOut<N>(a: seq<N>, l: seq<N>, n: N, r: seq<N>, b: seq<N>)
    ensures a + (l + [n] + r) + b == (a + l) + [n] + (r + b)
  {
  }

  lemma SamePrefix<N>(a: seq<N>, b: seq<N>, b': seq<N>)
    requires a + b == a + b'
    ensures b == b'
  {
    assert b == (a + b)[|a|..] && b' == (a + b')[|a|..];
  }

  lemma UniqueParts<N>(p: seq<N>, x: N, q: seq<N>, a: seq<N>, b: seq<N>)
    requires p + [x] + q == a + [x] + b && |p| == |a|
    ensures p == a && q == b
  {
    var s := p + [x] + q;
    assert p == s[..|p|] && a == s[..|a|] && q == s[|p| + 1..] && b == s[|a| + 1..];
  }

  function Pow2(n: nat): (p: nat)
    ensures p > 0
  {
    if n == 0 then 1 else 2 * Pow2(n - 1)
  }
}
