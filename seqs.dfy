/** Option/Result wrappers and the sequence operations the queries are built from:
    LINQ `Where`, JavaScript `filter`, `Set` de-duplication and `findIndex`. */
module Seqs {

  datatype Option<T> = None | Some(value: T)

  datatype Result<T, E> = Ok(value: T) | Err(error: E)

  /** The elements of `s` that satisfy `p`, in their original order. */
  function Filter<T(!new)>(s: seq<T>, p: T -> bool): (r: seq<T>)
    ensures |r| <= |s|
    ensures forall x :: x in r <==> x in s && p(x)
    decreases |s|
  {
    if s == [] then []
    else
      var tail := Filter(s[1..], p);
      assert forall i :: 1 <= i < |s| ==> s[i] == s[1..][i - 1];
      if p(s[0]) then [s[0]] + tail else tail
  }

  /** `idx` embeds `a` in `b`: strictly increasing positions of `b` holding the elements of `a`. */
  ghost predicate Embeds<T>(a: seq<T>, b: seq<T>, idx: seq<nat>)
  {
    && |idx| == |a|
    && (forall i :: 0 <= i < |idx| ==> idx[i] < |b| && a[i] == b[idx[i]])
    && (forall i, j :: 0 <= i < j < |idx| ==> idx[i] < idx[j])
  }

  /** `a` is an order-preserving subsequence of `b`. */
  ghost predicate IsSubseq<T>(a: seq<T>, b: seq<T>)
  {
    exists idx :: Embeds(a, b, idx)
  }

  /** An embedding of `a` in `b[1..]`, shifted by one, embeds `a` in `b`; preceded by 0 it embeds `[b[0]] + a`. */
  lemma EmbedsTail<T>(a: seq<T>, b: seq<T>, idx: seq<nat>) returns (shifted: seq<nat>)
    requires |b| > 0 && Embeds(a, b[1..], idx)
    ensures Embeds(a, b, shifted) && Embeds([b[0]] + a, b, [0] + shifted)
  {
    shifted := seq(|idx|, i requires 0 <= i < |idx| => idx[i] + 1);
    assert forall i :: 0 <= i < |idx| ==> b[shifted[i]] == b[1..][idx[i]];
  }

  lemma {:induction false} FilterIsSubseq<T(!new)>(s: seq<T>, p: T -> bool)
    ensures IsSubseq(Filter(s, p), s)
    decreases |s|
  {
    if s == [] {
      assert Embeds<T>([], s, []);
    } else {
      FilterIsSubseq(s[1..], p);
      var tail := Filter(s[1..], p);
      var idx :| Embeds(tail, s[1..], idx);
      var shifted := EmbedsTail(tail, s, idx);
      if p(s[0]) {
        assert Embeds(Filter(s, p), s, [0] + shifted);
      } else {
        assert Embeds(Filter(s, p), s, shifted);
      }
    }
  }

  lemma {:induction false} FilterAppend<T(!new)>(a: seq<T>, b: seq<T>, p: T -> bool)
    ensures Filter(a + b, p) == Filter(a, p) + Filter(b, p)
    decreases |a|
  {
    if a == [] {
      assert a + b == b;
    } else {
      assert (a + b)[1..] == a[1..] + b;
      FilterAppend(a[1..], b, p);
    }
  }

  /** Filtering twice keeps what both predicates accept. */
  lemma {:induction false} FilterFilter<T(!new)>(s: seq<T>, p: T -> bool, q: T -> bool, pq: T -> bool)
    requires forall x :: pq(x) == (p(x) && q(x))
    ensures Filter(Filter(s, p), q) == Filter(s, pq)
    decreases |s|
  {
    if s != [] {
      FilterFilter(s[1..], p, q, pq);
      if p(s[0]) {
        assert Filter(s, p) == [s[0]] + Filter(s[1..], p);
        assert ([s[0]] + Filter(s[1..], p))[1..] == Filter(s[1..], p);
      }
    }
  }

  /** Predicates that agree on every element filter alike. */
  lemma {:induction false} FilterSame<T(!new)>(s: seq<T>, p: T -> bool, q: T -> bool)
    requires forall x :: x in s ==> p(x) == q(x)
    ensures Filter(s, p) == Filter(s, q)
    decreases |s|
  {
    if s != [] {
      assert forall x :: x in s[1..] ==> x in s;
      FilterSame(s[1..], p, q);
    }
  }

  /** A predicate every element satisfies keeps the whole sequence. */
  lemma {:induction false} FilterAll<T(!new)>(s: seq<T>, p: T -> bool)
    requires forall x :: x in s ==> p(x)
    ensures Filter(s, p) == s
    decreases |s|
  {
    if s != [] {
      assert forall x :: x in s[1..] ==> x in s;
      FilterAll(s[1..], p);
      assert [s[0]] + s[1..] == s;
    }
  }

  /** Permuting a sequence does not change how many of its elements satisfy `p`. */
  lemma {:induction false} FilterCountPermutation<T(!new)>(r: seq<T>, s: seq<T>, p: T -> bool)
    requires multiset(r) == multiset(s)
    ensures |Filter(r, p)| == |Filter(s, p)|
    decreases |s|
  {
    if s == [] {
      assert |multiset(r)| == 0;
    } else {
      var x := s[0];
      assert x in multiset(r);
      var i :| 0 <= i < |r| && r[i] == x;
      var rest := r[..i] + r[i + 1..];
      assert r == r[..i] + [x] + r[i + 1..];
      assert multiset(r) == multiset(r[..i]) + multiset{x} + multiset(r[i + 1..]);
      assert s == [x] + s[1..];
      assert multiset(s) == multiset{x} + multiset(s[1..]);
      assert multiset(rest) == multiset(r[..i]) + multiset(r[i + 1..]);
      assert multiset(rest) == multiset(r) - multiset{x};
      assert multiset(s[1..]) == multiset(s) - multiset{x};
      FilterCountPermutation(rest, s[1..], p);
      FilterAppend(r[..i] + [x], r[i + 1..], p);
      FilterAppend(r[..i], [x], p);
      FilterAppend(r[..i], r[i + 1..], p);
    }
  }

  /** Keys are pairwise different. */
  ghost predicate DistinctBy<T, K>(s: seq<T>, key: T -> K)
  {
    forall i, j :: 0 <= i < j < |s| ==> key(s[i]) != key(s[j])
  }

  lemma SubseqKeepsDistinct<T, K>(a: seq<T>, b: seq<T>, key: T -> K)
    requires IsSubseq(a, b) && DistinctBy(b, key)
    ensures DistinctBy(a, key)
  {
    var idx :| Embeds(a, b, idx);
    forall i, j | 0 <= i < j < |a| ensures key(a[i]) != key(a[j]) {
      assert idx[i] < idx[j];
    }
  }

  /** A permutation of a sequence whose keys are pairwise different has pairwise different keys. */
  lemma PermutationKeepsDistinct<T, K>(a: seq<T>, b: seq<T>, key: T -> K)
    requires multiset(a) == multiset(b) && DistinctBy(b, key)
    ensures DistinctBy(a, key)
  {
    forall i, j | 0 <= i < j < |a| ensures key(a[i]) != key(a[j]) {
      if key(a[i]) == key(a[j]) {
        assert a[i] in multiset(b) && a[j] in multiset(b);
        var i' :| 0 <= i' < |b| && b[i'] == a[i];
        var j' :| 0 <= j' < |b| && b[j'] == a[j];
        if i' == j' {
          TwoPositionsCountTwice(a, i, j);
          OnePositionCountsOnce(b, i', key);
          assert false;
        }
      }
    }
  }

  lemma TwoPositionsCountTwice<T>(a: seq<T>, i: nat, j: nat)
    requires i < j < |a| && a[i] == a[j]
    ensures multiset(a)[a[i]] >= 2
  {
    assert a == a[..i] + [a[i]] + a[i + 1..j] + [a[j]] + a[j + 1..];
  }

  /** In a sequence with pairwise different keys, an element occurs once. */
  lemma OnePositionCountsOnce<T, K>(b: seq<T>, i: nat, key: T -> K)
    requires i < |b| && DistinctBy(b, key)
    ensures multiset(b)[b[i]] == 1
  {
    assert b == b[..i] + [b[i]] + b[i + 1..];
    assert b[i] !in b[..i] by {
      forall k | 0 <= k < i ensures b[k] != b[i] { assert key(b[k]) != key(b[i]); }
    }
    assert b[i] !in b[i + 1..] by {
      forall k | i + 1 <= k < |b| ensures b[k] != b[i] { assert key(b[i]) != key(b[k]); }
    }
    assert multiset(b[..i])[b[i]] == 0;
    assert multiset(b[i + 1..])[b[i]] == 0;
  }

  /** The distinct elements of `s` in order of first occurrence, skipping those already `seen`:
      the iteration order of a JavaScript `Set` built from `s`, and the key order of LINQ `GroupBy`. */
  function DistinctFrom<T(==,!new)>(s: seq<T>, seen: set<T>): (r: seq<T>)
    ensures forall x :: x in r <==> x in s && x !in seen
    ensures forall i, j :: 0 <= i < j < |r| ==> r[i] != r[j]
    decreases |s|
  {
    if s == [] then []
    else
      assert forall i :: 1 <= i < |s| ==> s[i] == s[1..][i - 1];
      if s[0] in seen then DistinctFrom(s[1..], seen)
      else [s[0]] + DistinctFrom(s[1..], seen + {s[0]})
  }

  function Distinct<T(==,!new)>(s: seq<T>): (r: seq<T>)
    ensures forall x :: x in r <==> x in s
    ensures forall i, j :: 0 <= i < j < |r| ==> r[i] != r[j]
  {
    DistinctFrom(s, {})
  }

  lemma {:induction false} DistinctFromIsSubseq<T(!new)>(s: seq<T>, seen: set<T>)
    ensures IsSubseq(DistinctFrom(s, seen), s)
    decreases |s|
  {
    if s == [] {
      assert Embeds<T>([], s, []);
    } else {
      var next := if s[0] in seen then seen else seen + {s[0]};
      DistinctFromIsSubseq(s[1..], next);
      var tail := DistinctFrom(s[1..], next);
      var idx :| Embeds(tail, s[1..], idx);
      var shifted := EmbedsTail(tail, s, idx);
      if s[0] in seen {
        assert Embeds(DistinctFrom(s, seen), s, shifted);
      } else {
        assert Embeds(DistinctFrom(s, seen), s, [0] + shifted);
      }
    }
  }

  /** `Array.prototype.findIndex` by key: the first position whose key is `k`, or -1. */
  function FindIndex<T, K(==)>(s: seq<T>, key: T -> K, k: K): (i: int)
    ensures -1 <= i < |s|
    ensures i == -1 <==> forall j :: 0 <= j < |s| ==> key(s[j]) != k
    ensures 0 <= i ==> key(s[i]) == k && forall j :: 0 <= j < i ==> key(s[j]) != k
    decreases |s|
  {
    if s == [] then -1
    else if key(s[0]) == k then 0
    else
      var i := FindIndex(s[1..], key, k);
      if i == -1 then -1 else i + 1
  }

  /** The elements at positions `i..` of `s` that are the first with their key:
      `s.filter((x, i, self) => i === self.findIndex(y => key(y) === key(x)))`. */
  function FirstOccurrencesFrom<T, K(==)>(s: seq<T>, key: T -> K, i: nat): (r: seq<T>)
    requires i <= |s|
    decreases |s| - i
  {
    if i == |s| then []
    else (if FindIndex(s, key, key(s[i])) == i then [s[i]] else []) + FirstOccurrencesFrom(s, key, i + 1)
  }

  /** The records kept from `s[i..]` sit, in order, at the first position of their key, and
      that position is at least `i`. */
  lemma {:induction false} FirstOccurrencesFromEmbeds<T, K>(s: seq<T>, key: T -> K, i: nat) returns (idx: seq<nat>)
    requires i <= |s|
    ensures Embeds(FirstOccurrencesFrom(s, key, i), s, idx)
    ensures forall k :: 0 <= k < |idx| ==> i <= idx[k] && idx[k] == FindIndex(s, key, key(s[idx[k]]))
    decreases |s| - i
  {
    if i == |s| {
      idx := [];
    } else {
      var tail := FirstOccurrencesFromEmbeds(s, key, i + 1);
      var rest := FirstOccurrencesFrom(s, key, i + 1);
      if FindIndex(s, key, key(s[i])) == i {
        assert FirstOccurrencesFrom(s, key, i) == [s[i]] + rest;
        EmbedsPrepend(rest, s, tail, i);
        idx := [i] + tail;
      } else {
        assert FirstOccurrencesFrom(s, key, i) == rest;
        idx := tail;
      }
    }
  }

  /** An embedding extends by a position before all of its own. */
  lemma EmbedsPrepend<T>(a: seq<T>, b: seq<T>, idx: seq<nat>, i: nat)
    requires Embeds(a, b, idx) && i < |b|
    requires forall k :: 0 <= k < |idx| ==> i < idx[k]
    ensures Embeds([b[i]] + a, b, [i] + idx)
    ensures forall k :: 1 <= k < |idx| + 1 ==> ([i] + idx)[k] == idx[k - 1]
  {
  }

  /** Every key occurring in `s[i..]` whose first occurrence is at or after `i` keeps its first record. */
  lemma {:induction false} FirstOccurrencesFromCovers<T, K>(s: seq<T>, key: T -> K, i: nat, j: nat)
    requires i <= j < |s| && FindIndex(s, key, key(s[j])) >= i
    ensures s[FindIndex(s, key, key(s[j]))] in FirstOccurrencesFrom(s, key, i)
    decreases |s| - i
  {
    var f := FindIndex(s, key, key(s[j]));
    if f == i {
      assert FindIndex(s, key, key(s[i])) == i;
    } else {
      FirstOccurrencesFromCovers(s, key, i + 1, j);
    }
  }

  function Id<T>(x: T): T { x }

  /** Order-preserving subsequences compose. */
  lemma SubseqTransitive<T>(a: seq<T>, b: seq<T>, c: seq<T>)
    requires IsSubseq(a, b) && IsSubseq(b, c)
    ensures IsSubseq(a, c)
  {
    var ab :| Embeds(a, b, ab);
    var bc :| Embeds(b, c, bc);
    var ac := seq(|ab|, i requires 0 <= i < |ab| => bc[ab[i]]);
    assert Embeds(a, c, ac);
  }

  lemma SubseqReflexive<T>(a: seq<T>)
    ensures IsSubseq(a, a)
  {
    assert Embeds(a, a, seq(|a|, i requires 0 <= i < |a| => i));
  }

  /** The records of `s` that are the first with their key, in order. */
  function FirstOccurrences<T, K(==)>(s: seq<T>, key: T -> K): (r: seq<T>)
    ensures IsSubseq(r, s)
    ensures forall x :: x in r ==> x == s[FindIndex(s, key, key(x))]
    ensures forall j :: 0 <= j < |s| ==> s[FindIndex(s, key, key(s[j]))] in r
    ensures forall i, j :: 0 <= i < j < |r| ==> FindIndex(s, key, key(r[i])) < FindIndex(s, key, key(r[j]))
  {
    FirstOccurrencesFacts(s, key);
    FirstOccurrencesFrom(s, key, 0)
  }

  lemma FirstOccurrencesFacts<T, K>(s: seq<T>, key: T -> K)
    ensures var r := FirstOccurrencesFrom(s, key, 0);
      && IsSubseq(r, s)
      && (forall x :: x in r ==> x == s[FindIndex(s, key, key(x))])
      && (forall j :: 0 <= j < |s| ==> s[FindIndex(s, key, key(s[j]))] in r)
      && (forall i, j :: 0 <= i < j < |r| ==> FindIndex(s, key, key(r[i])) < FindIndex(s, key, key(r[j])))
  {
    var r := FirstOccurrencesFrom(s, key, 0);
    var idx := FirstOccurrencesFromEmbeds(s, key, 0);
    forall j | 0 <= j < |s| ensures s[FindIndex(s, key, key(s[j]))] in r {
      FirstOccurrencesFromCovers(s, key, 0, j);
    }
    forall x | x in r ensures x == s[FindIndex(s, key, key(x))] {
      var k :| 0 <= k < |r| && r[k] == x;
      assert x == s[idx[k]];
    }
    forall i, j | 0 <= i < j < |r| ensures FindIndex(s, key, key(r[i])) < FindIndex(s, key, key(r[j])) {
      assert r[i] == s[idx[i]] && r[j] == s[idx[j]];
    }
  }

  /** Keys of the first occurrences are pairwise different. */
  lemma FirstOccurrencesDistinct<T, K>(s: seq<T>, key: T -> K)
    ensures DistinctBy(FirstOccurrences(s, key), key)
  {
    var r := FirstOccurrences(s, key);
    forall i, j | 0 <= i < j < |r| ensures key(r[i]) != key(r[j]) {
      assert FindIndex(s, key, key(r[i])) < FindIndex(s, key, key(r[j]));
    }
  }

  /** Building a set from `s[i..]` on top of the elements of `s[..i]` keeps exactly the first
      occurrences at positions `i..`. */
  lemma {:induction false} DistinctFromIsFirstOccurrences<T(!new)>(s: seq<T>, i: nat, seen: set<T>)
    requires i <= |s| && forall x :: x in seen <==> x in s[..i]
    ensures DistinctFrom(s[i..], seen) == FirstOccurrencesFrom(s, Id, i)
    decreases |s| - i
  {
    if i < |s| {
      DistinctFromStep(s[i..], seen);
      assert s[i..][0] == s[i] && s[i..][1..] == s[i + 1..];
      FirstWhenUnseen(s, i, seen);
      if s[i] in seen {
        DistinctFromIsFirstOccurrences(s, i + 1, seen);
      } else {
        SeenGrows(s, i, seen);
        DistinctFromIsFirstOccurrences(s, i + 1, seen + {s[i]});
      }
    }
  }

  /** One step of `DistinctFrom`. */
  lemma DistinctFromStep<T(!new)>(s: seq<T>, seen: set<T>)
    requires s != []
    ensures DistinctFrom(s, seen)
      == if s[0] in seen then DistinctFrom(s[1..], seen) else [s[0]] + DistinctFrom(s[1..], seen + {s[0]})
  {
  }

  lemma SeenGrows<T>(s: seq<T>, i: nat, seen: set<T>)
    requires i < |s| && forall x :: x in seen <==> x in s[..i]
    ensures forall x :: x in seen + {s[i]} <==> x in s[..i + 1]
  {
    assert s[..i + 1] == s[..i] + [s[i]];
  }

  /** `s[i]` is the first of its value exactly when it is not among the elements before it. */
  lemma FirstWhenUnseen<T(!new)>(s: seq<T>, i: nat, seen: set<T>)
    requires i < |s| && forall x :: x in seen <==> x in s[..i]
    ensures FindIndex(s, Id, Id(s[i])) == i <==> s[i] !in seen
  {
    var f := FindIndex(s, Id, Id(s[i]));
    if s[i] in seen {
      var k :| 0 <= k < i && s[..i][k] == s[i];
      assert Id(s[k]) == Id(s[i]);
    } else {
      assert forall k :: 0 <= k < i ==> s[..i][k] != s[i];
    }
  }

  /** De-duplicating through a set keeps the first occurrence of each element, in order. */
  lemma DistinctIsFirstOccurrences<T(!new)>(s: seq<T>)
    ensures Distinct(s) == FirstOccurrences(s, Id)
  {
    DistinctFromIsFirstOccurrences(s, 0, {});
    assert s[0..] == s;
  }
}
