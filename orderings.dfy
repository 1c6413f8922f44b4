/** Stand-in for `itertools.permutations`: every ordering of the positions
    of a sequence, emitted in lexicographic order of those positions (the
    order the exhaustive route search depends on when it keeps the first of
    several equally short routes). */
module Orderings {

  /** s without the element at position i. */
  function RemoveAt<T>(s: seq<T>, i: nat): seq<T>
    requires i < |s|
  {
    s[..i] + s[i + 1..]
  }

  /** Puts x in front of every sequence of ps. */
  function Prepend<T>(x: T, ps: seq<seq<T>>): seq<seq<T>>
  {
    seq(|ps|, k requires 0 <= k < |ps| => [x] + ps[k])
  }

  /** `itertools.permutations(s)`: for the empty sequence the single empty
      ordering, otherwise the orderings beginning with s[0], then those
      beginning with s[1], and so on; the first ordering is s itself. */
  function Permutations<T>(s: seq<T>): (r: seq<seq<T>>)
    ensures |r| > 0 && r[0] == s
    decreases |s|, 1
  {
    if s == [] then [[]]
    else
      assert RemoveAt(s, 0) == s[1..];
      PermutationsFrom(s, 0)
  }

  /** The orderings of s that begin with s[i], s[i + 1], ..., in that order. */
  function PermutationsFrom<T>(s: seq<T>, i: nat): (r: seq<seq<T>>)
    requires i <= |s|
    ensures i < |s| ==> |r| > 0 && r[0] == [s[i]] + RemoveAt(s, i)
    decreases |s|, 0, |s| - i
  {
    if i == |s| then []
    else Prepend(s[i], Permutations(RemoveAt(s, i))) + PermutationsFrom(s, i + 1)
  }

  /** Applies f to every element of s. */
  function MapSeq<A, B>(f: A -> B, s: seq<A>): seq<B>
  {
    seq(|s|, k requires 0 <= k < |s| => f(s[k]))
  }

  lemma RemoveAtMultiset<T>(s: seq<T>, i: nat)
    requires i < |s|
    ensures multiset(RemoveAt(s, i)) + multiset{s[i]} == multiset(s)
  {
    assert s == s[..i] + [s[i]] + s[i + 1..];
  }

  /** Every ordering enumerated is a permutation of s. */
  lemma {:induction false} PermutationsSound<T>(s: seq<T>)
    ensures forall p :: p in Permutations(s) ==> multiset(p) == multiset(s)
    decreases |s|, 1
  {
    if s != [] {
      PermutationsFromSound(s, 0);
    }
  }

  lemma {:induction false} PermutationsFromSound<T>(s: seq<T>, i: nat)
    requires i <= |s|
    ensures forall p :: p in PermutationsFrom(s, i) ==> multiset(p) == multiset(s)
    decreases |s|, 0, |s| - i
  {
    if i < |s| {
      var rest := RemoveAt(s, i);
      var ps := Permutations(rest);
      var head := Prepend(s[i], ps);
      var tail := PermutationsFrom(s, i + 1);
      PermutationsSound(rest);
      RemoveAtMultiset(s, i);
      PermutationsFromSound(s, i + 1);
      forall p | p in head + tail
        ensures multiset(p) == multiset(s)
      {
        if p in head {
          var k :| 0 <= k < |head| && head[k] == p;
          assert p == [s[i]] + ps[k];
          assert ps[k] in ps;
          assert multiset(p) == multiset{s[i]} + multiset(ps[k]);
        }
      }
    }
  }

  /** The orderings starting with s[i'] are among those enumerated from i <= i'. */
  lemma {:induction false} PermutationsFromContains<T>(s: seq<T>, i: nat, i': nat, q: seq<T>)
    requires i <= i' < |s|
    requires q in Permutations(RemoveAt(s, i'))
    ensures [s[i']] + q in PermutationsFrom(s, i)
    decreases i' - i
  {
    if i == i' {
      var ps := Permutations(RemoveAt(s, i'));
      var k :| 0 <= k < |ps| && ps[k] == q;
      assert Prepend(s[i'], ps)[k] == [s[i']] + q;
    } else {
      PermutationsFromContains(s, i + 1, i', q);
    }
  }

  /** Every permutation of s is enumerated. */
  lemma {:induction false} PermutationsComplete<T>(s: seq<T>, p: seq<T>)
    requires multiset(p) == multiset(s)
    ensures p in Permutations(s)
    decreases |s|
  {
    if s == [] {
      assert |p| == |multiset(p)| == 0;
    } else {
      assert |p| == |s| by {
        assert |multiset(p)| == |multiset(s)|;
      }
      assert p[0] in multiset(s) by {
        assert p[0] in multiset(p);
      }
      var i :| 0 <= i < |s| && s[i] == p[0];
      RemoveAtMultiset(s, i);
      assert p == [p[0]] + p[1..];
      assert multiset(p[1..]) == multiset(RemoveAt(s, i)) by {
        calc {
          multiset(p[1..]);
          multiset(p) - multiset{p[0]};
          multiset(s) - multiset{s[i]};
          multiset(RemoveAt(s, i));
        }
      }
      PermutationsComplete(RemoveAt(s, i), p[1..]);
      PermutationsFromContains(s, 0, i, p[1..]);
    }
  }

  lemma MapSeqConcat<A, B>(f: A -> B, a: seq<A>, b: seq<A>)
    ensures MapSeq(f, a + b) == MapSeq(f, a) + MapSeq(f, b)
  {
  }

  /** Taking element i out of t takes f(t[i]) out of its image. */
  lemma MapSeqRemoveAt<A, B>(f: A -> B, t: seq<A>, i: nat)
    requires i < |t|
    ensures multiset(MapSeq(f, t)) == multiset{f(t[i])} + multiset(MapSeq(f, RemoveAt(t, i)))
  {
    assert t == t[..i] + [t[i]] + t[i + 1..];
    MapSeqConcat(f, t[..i] + [t[i]], t[i + 1..]);
    MapSeqConcat(f, t[..i], [t[i]]);
    MapSeqConcat(f, t[..i], t[i + 1..]);
  }

  /** Removing the same element from two permutations of each other. */
  lemma RemoveMatching<A>(s: seq<A>, t: seq<A>, i: nat)
    requires multiset(s) == multiset(t) && s != [] && i < |t| && t[i] == s[0]
    ensures multiset(s[1..]) == multiset(RemoveAt(t, i))
  {
    RemoveAtMultiset(t, i);
    assert s == [s[0]] + s[1..];
    calc {
      multiset(s[1..]);
      multiset(s) - multiset{s[0]};
      multiset(t) - multiset{t[i]};
      multiset(RemoveAt(t, i));
    }
  }

  /** Mapping a function over two permutations of each other gives two
      permutations of each other. */
  lemma {:induction false} MapPreservesPermutation<A, B>(f: A -> B, s: seq<A>, t: seq<A>)
    requires multiset(s) == multiset(t)
    ensures multiset(MapSeq(f, s)) == multiset(MapSeq(f, t))
    decreases |s|
  {
    if s == [] {
      assert |t| == |multiset(t)| == 0;
    } else {
      assert s[0] in multiset(t) by {
        assert s[0] in multiset(s);
      }
      var i :| 0 <= i < |t| && t[i] == s[0];
      RemoveMatching(s, t, i);
      MapPreservesPermutation(f, s[1..], RemoveAt(t, i));
      MapSeqRemoveAt(f, s, 0);
      assert RemoveAt(s, 0) == s[1..];
      MapSeqRemoveAt(f, t, i);
    }
  }
}
