/**
 * Generic sequence vocabulary used by the data-map model: subsequences,
 * order-preserving filters, first-occurrence deduplication by a key and
 * key lookups. Every recursive definition peels off the LAST element, so
 * that a loop over a prefix `s[..i]` extends them one step at a time.
 */
module Seqs {

  datatype Option<T> = None | Some(value: T)

  /** `a` is obtained from `b` by deleting elements, keeping the order. */
  predicate Subseq<T(==,!new)>(a: seq<T>, b: seq<T>)
    decreases |b|
  {
    if a == [] then true
    else if b == [] then false
    else (a[|a| - 1] == b[|b| - 1] && Subseq(a[..|a| - 1], b[..|b| - 1]))
         || Subseq(a, b[..|b| - 1])
  }

  lemma {:induction false} SubseqRefl<T(!new)>(s: seq<T>)
    ensures Subseq(s, s)
    decreases |s|
  {
    if s != [] {
      SubseqRefl(s[..|s| - 1]);
    }
  }

  lemma SubseqSnoc<T(!new)>(a: seq<T>, b: seq<T>, x: T)
    requires Subseq(a, b)
    ensures Subseq(a, b + [x]) && Subseq(a + [x], b + [x])
  {
    assert (b + [x])[..|b|] == b;
    assert (a + [x])[..|a|] == a;
  }

  lemma {:induction false} SubseqElements<T(!new)>(a: seq<T>, b: seq<T>)
    requires Subseq(a, b)
    ensures forall x :: x in a ==> x in b
    decreases |b|
  {
    if a != [] {
      var a', b' := a[..|a| - 1], b[..|b| - 1];
      assert b == b' + [b[|b| - 1]];
      if a[|a| - 1] == b[|b| - 1] && Subseq(a', b') {
        assert a == a' + [a[|a| - 1]];
        SubseqElements(a', b');
      } else {
        SubseqElements(a, b');
      }
    }
  }

  lemma {:induction false} SubseqTrans<T(!new)>(a: seq<T>, b: seq<T>, c: seq<T>)
    requires Subseq(a, b) && Subseq(b, c)
    ensures Subseq(a, c)
    decreases |c|
  {
    if a != [] {
      assert b != [] && c != [];
      var a', b', c' := a[..|a| - 1], b[..|b| - 1], c[..|c| - 1];
      if b[|b| - 1] == c[|c| - 1] && Subseq(b', c') {
        if a[|a| - 1] == b[|b| - 1] && Subseq(a', b') {
          SubseqTrans(a', b', c');
        } else {
          SubseqTrans(a, b', c');
        }
      } else {
        SubseqTrans(a, b, c');
      }
    }
  }

  /** The elements of `s` that satisfy `p`, in their order in `s`. */
  function Filter<T(==,!new)>(s: seq<T>, p: T -> bool): (r: seq<T>)
    ensures Subseq(r, s)
    ensures forall i :: 0 <= i < |r| ==> p(r[i])
    ensures forall x :: multiset(r)[x] == if p(x) then multiset(s)[x] else 0
    decreases |s|
  {
    if s == [] then []
    else
      var front, last := s[..|s| - 1], s[|s| - 1];
      assert s == front + [last];
      var f := Filter(front, p);
      SubseqSnoc(f, front, last);
      if p(last) then f + [last] else f
  }

  /** Whether the order of two filters is irrelevant. */
  lemma {:induction false} FilterCommute<T(!new)>(s: seq<T>, p: T -> bool, q: T -> bool)
    ensures Filter(Filter(s, p), q) == Filter(Filter(s, q), p)
    decreases |s|
  {
    if s != [] {
      var front, last := s[..|s| - 1], s[|s| - 1];
      FilterCommute(front, p, q);
      FilterSnoc(Filter(front, p), q, last);
      FilterSnoc(Filter(front, q), p, last);
    }
  }

  lemma FilterSnoc<T(!new)>(s: seq<T>, p: T -> bool, x: T)
    ensures Filter(s + [x], p) == Filter(s, p) + (if p(x) then [x] else [])
  {
    assert (s + [x])[..|s|] == s;
  }

  /** A weaker condition keeps more: the stronger filter is a subsequence of the weaker. */
  lemma {:induction false} FilterWeaken<T(!new)>(s: seq<T>, p: T -> bool, q: T -> bool)
    requires forall x :: p(x) ==> q(x)
    ensures Subseq(Filter(s, p), Filter(s, q))
    decreases |s|
  {
    if s == [] {
    } else {
      var front, last := s[..|s| - 1], s[|s| - 1];
      FilterWeaken(front, p, q);
      var fp, fq := Filter(front, p), Filter(front, q);
      SubseqSnoc(fp, fq, last);
    }
  }

  /** Filtering a subsequence yields a subsequence of the filtered whole. */
  lemma {:induction false} FilterSubseq<T(!new)>(a: seq<T>, b: seq<T>, p: T -> bool)
    requires Subseq(a, b)
    ensures Subseq(Filter(a, p), Filter(b, p))
    decreases |b|
  {
    if a == [] {
    } else {
      var a', b' := a[..|a| - 1], b[..|b| - 1];
      assert a == a' + [a[|a| - 1]] && b == b' + [b[|b| - 1]];
      if a[|a| - 1] == b[|b| - 1] && Subseq(a', b') {
        FilterSubseq(a', b', p);
        SubseqSnoc(Filter(a', p), Filter(b', p), a[|a| - 1]);
      } else {
        FilterSubseq(a, b', p);
        SubseqSnoc(Filter(a, p), Filter(b', p), b[|b| - 1]);
      }
    }
  }

  /** The set of keys of the elements of `s`. */
  function KeysOf<T(==,!new), K(==,!new)>(s: seq<T>, key: T -> K): set<K>
  {
    set x | x in s :: key(x)
  }

  lemma KeysOfSnoc<T(!new), K(!new)>(s: seq<T>, key: T -> K, x: T)
    ensures KeysOf(s + [x], key) == KeysOf(s, key) + {key(x)}
  {
    forall k | k in KeysOf(s + [x], key) ensures k in KeysOf(s, key) + {key(x)} {
      var y :| y in s + [x] && key(y) == k;
      if y != x { assert y in s; }
    }
  }

  /** The first element of `s` whose key is `k`. */
  function FirstWith<T(==,!new), K(==,!new)>(s: seq<T>, key: T -> K, k: K): (r: Option<T>)
    ensures r.None? <==> k !in KeysOf(s, key)
    ensures r.Some? ==> r.value in s && key(r.value) == k
    decreases |s|
  {
    if s == [] then None
    else
      var front, last := s[..|s| - 1], s[|s| - 1];
      assert s == front + [last];
      KeysOfSnoc(front, key, last);
      var f := FirstWith(front, key, k);
      if f.Some? then f else if key(last) == k then Some(last) else None
  }

  /** The last element of `s` whose key is `k`: what a map built from `s` keeps. */
  function LastWith<T(==,!new), K(==,!new)>(s: seq<T>, key: T -> K, k: K): (r: Option<T>)
    ensures r.None? <==> k !in KeysOf(s, key)
    ensures r.Some? ==> exists i :: 0 <= i < |s| && s[i] == r.value && key(s[i]) == k
                          && k !in KeysOf(s[i + 1..], key)
    decreases |s|
  {
    if s == [] then None
    else
      var front, last := s[..|s| - 1], s[|s| - 1];
      assert s == front + [last];
      KeysOfSnoc(front, key, last);
      if key(last) == k then
        assert s[|s|..] == [];
        Some(last)
      else
        var r := LastWith(front, key, k);
        if r.Some? then
          var i :| 0 <= i < |front| && front[i] == r.value && key(front[i]) == k
                   && k !in KeysOf(front[i + 1..], key);
          assert s[i + 1..] == front[i + 1..] + [last];
          KeysOfSnoc(front[i + 1..], key, last);
          r
        else r
  }

  /**
   * Keeps, in order, the elements of `s` whose key has not been seen earlier
   * in `s`: the first element for each key.
   */
  function KeepFirst<T(==,!new), K(==,!new)>(s: seq<T>, key: T -> K): (r: seq<T>)
    ensures Subseq(r, s)
    ensures forall i, j :: 0 <= i < j < |r| ==> key(r[i]) != key(r[j])
    ensures KeysOf(r, key) == KeysOf(s, key)
    ensures forall x {:trigger FirstWith(s, key, key(x))} :: x in r ==> FirstWith(s, key, key(x)) == Some(x)
    decreases |s|
  {
    if s == [] then []
    else
      var front, last := s[..|s| - 1], s[|s| - 1];
      assert s == front + [last];
      KeysOfSnoc(front, key, last);
      var f := KeepFirst(front, key);
      SubseqSnoc(f, front, last);
      if key(last) in KeysOf(front, key) then f
      else
        KeysOfSnoc(f, key, last);
        f + [last]
  }

  predicate NoDup<T(==,!new)>(s: seq<T>)
  {
    forall i, j :: 0 <= i < j < |s| ==> s[i] != s[j]
  }

  /** The distinct elements of `s` in first-seen order (iteration order of a JavaScript `Set`). */
  function Distinct<T(==,!new)>(s: seq<T>): (r: seq<T>)
    ensures NoDup(r)
    ensures forall x :: x in r <==> x in s
    ensures Subseq(r, s)
    decreases |s|
  {
    if s == [] then []
    else
      var front, last := s[..|s| - 1], s[|s| - 1];
      assert s == front + [last];
      var d := Distinct(front);
      SubseqSnoc(d, front, last);
      if last in d then d else d + [last]
  }

  lemma DistinctSnoc<T(!new)>(s: seq<T>, x: T)
    ensures Distinct(s + [x]) == if x in s then Distinct(s) else Distinct(s) + [x]
  {
    assert (s + [x])[..|s|] == s;
  }

  lemma DistinctPair<T(!new)>(a: T, b: T)
    requires a != b
    ensures Distinct([a, b]) == [a, b]
  {
    assert [a, b][..1] == [a] && [a][..0] == [];
  }

  /** Of two elements of `Distinct(s)`, the earlier one occurs in `s` before the later one first does. */
  lemma {:induction false} DistinctFirstSeenOrder<T(!new)>(s: seq<T>)
    ensures forall i, j :: 0 <= i < j < |Distinct(s)| ==>
      exists p :: 0 <= p < |s| && s[p] == Distinct(s)[i] && Distinct(s)[j] !in s[..p]
    decreases |s|
  {
    if s != [] {
      var front, last := s[..|s| - 1], s[|s| - 1];
      assert s == front + [last];
      DistinctFirstSeenOrder(front);
      var d, r := Distinct(front), Distinct(s);
      forall i, j | 0 <= i < j < |r|
        ensures exists p :: 0 <= p < |s| && s[p] == r[i] && r[j] !in s[..p]
      {
        if j < |d| {
          var p :| 0 <= p < |front| && front[p] == d[i] && d[j] !in front[..p];
          assert s[..p] == front[..p];
        } else {
          assert r[j] == last && last !in front;
          assert d[i] in front;
          var p :| 0 <= p < |front| && front[p] == d[i];
          assert s[..p] == front[..p];
          assert forall y :: y in front[..p] ==> y in front;
        }
      }
      assert r == Distinct(s);
    } else {
      assert Distinct(s) == [];
    }
  }

  /** Of two elements of `KeepFirst(s, key)`, the earlier one occurs in `s` before any element with the later one's key. */
  lemma KeepFirstOrder<T(!new), K(!new)>(s: seq<T>, key: T -> K)
    ensures forall i, j :: 0 <= i < j < |KeepFirst(s, key)| ==>
      exists p :: 0 <= p < |s| && s[p] == KeepFirst(s, key)[i]
                  && key(KeepFirst(s, key)[j]) !in KeysOf(s[..p], key)
  {
    var r := KeepFirst(s, key);
    forall i, j | 0 <= i < j < |r|
      ensures exists p :: 0 <= p < |s| && s[p] == r[i] && key(r[j]) !in KeysOf(s[..p], key)
    {
      KeepFirstOrderAt(s, key, i, j);
    }
  }

  lemma {:induction false} KeepFirstOrderAt<T(!new), K(!new)>(s: seq<T>, key: T -> K, i: nat, j: nat)
    requires i < j < |KeepFirst(s, key)|
    ensures exists p :: 0 <= p < |s| && s[p] == KeepFirst(s, key)[i]
                        && key(KeepFirst(s, key)[j]) !in KeysOf(s[..p], key)
    decreases |s|
  {
    var front, last := s[..|s| - 1], s[|s| - 1];
    assert s == front + [last];
    if j < |KeepFirst(front, key)| {
      KeepFirstOrderAt(front, key, i, j);
      KeepFirstOrderFront(front, key, last, i, j);
    } else {
      KeepFirstOrderLast(front, key, last, i, j);
    }
  }

  /** The step of `KeepFirstOrderAt` for two elements already kept from `s`. */
  lemma KeepFirstOrderFront<T(!new), K(!new)>(s: seq<T>, key: T -> K, x: T, i: nat, j: nat)
    requires i < j < |KeepFirst(s, key)|
    requires exists p :: 0 <= p < |s| && s[p] == KeepFirst(s, key)[i]
                         && key(KeepFirst(s, key)[j]) !in KeysOf(s[..p], key)
    ensures exists p :: 0 <= p < |s + [x]| && (s + [x])[p] == KeepFirst(s + [x], key)[i]
                        && key(KeepFirst(s + [x], key)[j]) !in KeysOf((s + [x])[..p], key)
  {
    KeepFirstSnoc(s, key, x);
    var f := KeepFirst(s, key);
    var p :| 0 <= p < |s| && s[p] == f[i] && key(f[j]) !in KeysOf(s[..p], key);
    assert (s + [x])[..p] == s[..p];
  }

  /** The step of `KeepFirstOrderAt` when the later element is the newly kept `x`. */
  lemma KeepFirstOrderLast<T(!new), K(!new)>(s: seq<T>, key: T -> K, x: T, i: nat, j: nat)
    requires |KeepFirst(s, key)| <= j && i < j < |KeepFirst(s + [x], key)|
    ensures exists p :: 0 <= p < |s + [x]| && (s + [x])[p] == KeepFirst(s + [x], key)[i]
                        && key(KeepFirst(s + [x], key)[j]) !in KeysOf((s + [x])[..p], key)
  {
    KeepFirstSnoc(s, key, x);
    var f := KeepFirst(s, key);
    assert KeepFirst(s + [x], key) == f + [x] && key(x) !in KeysOf(s, key);
    assert f[i] in f;
    assert FirstWith(s, key, key(f[i])) == Some(f[i]);
    var p :| 0 <= p < |s| && s[p] == f[i];
    assert (s + [x])[..p] == s[..p];
    KeysOfPrefix(s, key, p);
  }

  lemma KeepFirstSnoc<T(!new), K(!new)>(s: seq<T>, key: T -> K, x: T)
    ensures KeepFirst(s + [x], key)
            == if key(x) in KeysOf(s, key) then KeepFirst(s, key) else KeepFirst(s, key) + [x]
  {
    assert (s + [x])[..|s|] == s;
  }

  lemma KeysOfPrefix<T(!new), K(!new)>(s: seq<T>, key: T -> K, p: nat)
    requires p <= |s|
    ensures KeysOf(s[..p], key) <= KeysOf(s, key)
  {
    forall k | k in KeysOf(s[..p], key) ensures k in KeysOf(s, key) {
      var y :| y in s[..p] && key(y) == k;
      assert y in s;
    }
  }

  /**
   * `Set.prototype.add` on a JavaScript `Set`, with the set represented by
   * its elements in insertion order.
   */
  function SetAdd<T(==,!new)>(s: seq<T>, x: T): (r: seq<T>)
    ensures NoDup(s) ==> NoDup(r)
    ensures forall y :: y in r <==> y == x || y in s
  {
    if x in s then s else s + [x]
  }

  /** A duplicate-free list has as many elements as its set. */
  lemma {:induction false} NoDupCardinality<T(!new)>(s: seq<T>)
    requires NoDup(s)
    ensures |set x | x in s| == |s|
    decreases |s|
  {
    if s != [] {
      var front, last := s[..|s| - 1], s[|s| - 1];
      assert s == front + [last];
      NoDupCardinality(front);
      assert (set x | x in s) == (set x | x in front) + {last};
      assert last !in (set x | x in front);
    }
  }
}
