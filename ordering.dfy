/** `OrderBy(..).ThenBy(..)` as one insertion sort over composite keys. A key is a sequence of parts
    compared lexicographically; a part is a number or a string, strings compared ordinally
    (code point by code point, as SQLite's BINARY collation does for the queries here). */
module Ordering {

  import Seqs

  datatype KeyPart = Num(n: int) | Text(s: string)

  type SortKey = seq<KeyPart>

  /** Ordinal string order: a proper prefix comes first, otherwise the first differing character decides. */
  predicate StrLt(a: string, b: string)
    decreases |a|
  {
    |b| > 0 && (|a| == 0 || a[0] < b[0] || (a[0] == b[0] && StrLt(a[1..], b[1..])))
  }

  lemma {:induction false} StrLtIrreflexive(a: string)
    ensures !StrLt(a, a)
    decreases |a|
  {
    if |a| > 0 { StrLtIrreflexive(a[1..]); }
  }

  lemma {:induction false} StrLtTransitive(a: string, b: string, c: string)
    requires StrLt(a, b) && StrLt(b, c)
    ensures StrLt(a, c)
    decreases |a|
  {
    if |a| > 0 && a[0] == b[0] && b[0] == c[0] {
      StrLtTransitive(a[1..], b[1..], c[1..]);
    }
  }

  lemma {:induction false} StrLtTotal(a: string, b: string)
    requires a != b
    ensures StrLt(a, b) || StrLt(b, a)
    decreases |a|
  {
    if |a| > 0 && |b| > 0 && a[0] == b[0] {
      assert a == [a[0]] + a[1..] && b == [b[0]] + b[1..];
      StrLtTotal(a[1..], b[1..]);
    }
  }

  /** Numbers before strings; then numeric or ordinal order. */
  predicate PartLt(p: KeyPart, q: KeyPart)
  {
    match (p, q)
    case (Num(x), Num(y)) => x < y
    case (Text(x), Text(y)) => StrLt(x, y)
    case (Num(_), Text(_)) => true
    case (Text(_), Num(_)) => false
  }

  lemma PartLtStrictTotal(p: KeyPart, q: KeyPart, r: KeyPart)
    ensures !PartLt(p, p)
    ensures PartLt(p, q) && PartLt(q, r) ==> PartLt(p, r)
    ensures p != q ==> PartLt(p, q) || PartLt(q, p)
  {
    if p.Text? { StrLtIrreflexive(p.s); }
    if p.Text? && q.Text? && r.Text? && StrLt(p.s, q.s) && StrLt(q.s, r.s) {
      StrLtTransitive(p.s, q.s, r.s);
    }
    if p.Text? && q.Text? && p != q { StrLtTotal(p.s, q.s); }
  }

  /** Lexicographic order on keys; a key comes no later than any key it is a prefix of. */
  predicate KeyLe(a: SortKey, b: SortKey)
    decreases |a|
  {
    |a| == 0 || (|b| > 0 && (PartLt(a[0], b[0]) || (a[0] == b[0] && KeyLe(a[1..], b[1..]))))
  }

  lemma {:induction false} KeyLeReflexive(a: SortKey)
    ensures KeyLe(a, a)
    decreases |a|
  {
    if |a| > 0 { KeyLeReflexive(a[1..]); }
  }

  lemma {:induction false} KeyLeTotal(a: SortKey, b: SortKey)
    ensures KeyLe(a, b) || KeyLe(b, a)
    decreases |a|
  {
    if |a| > 0 && |b| > 0 {
      PartLtStrictTotal(a[0], b[0], b[0]);
      if a[0] == b[0] { KeyLeTotal(a[1..], b[1..]); }
    }
  }

  lemma {:induction false} KeyLeTransitive(a: SortKey, b: SortKey, c: SortKey)
    requires KeyLe(a, b) && KeyLe(b, c)
    ensures KeyLe(a, c)
    decreases |a|
  {
    if |a| > 0 {
      PartLtStrictTotal(a[0], b[0], c[0]);
      if a[0] == b[0] && b[0] == c[0] { KeyLeTransitive(a[1..], b[1..], c[1..]); }
    }
  }

  ghost predicate SortedBy<T>(s: seq<T>, key: T -> SortKey)
  {
    forall i, j :: 0 <= i < j < |s| ==> KeyLe(key(s[i]), key(s[j]))
  }

  /** Inserts `x` before the first element whose key is not smaller than its own. */
  function InsertBy<T>(x: T, s: seq<T>, key: T -> SortKey): (r: seq<T>)
    requires SortedBy(s, key)
    ensures SortedBy(r, key)
    ensures multiset(r) == multiset(s) + multiset{x}
    decreases |s|
  {
    if s == [] then [x]
    else if KeyLe(key(x), key(s[0])) then
      InsertFront(x, s, key);
      [x] + s
    else
      var tail := InsertBy(x, s[1..], key);
      KeyLeTotal(key(x), key(s[0]));
      InsertAfterHead(x, s, tail, key);
      assert s == [s[0]] + s[1..];
      [s[0]] + tail
  }

  lemma InsertFront<T>(x: T, s: seq<T>, key: T -> SortKey)
    requires SortedBy(s, key) && |s| > 0 && KeyLe(key(x), key(s[0]))
    ensures SortedBy([x] + s, key)
  {
    var r := [x] + s;
    forall i, j | 0 <= i < j < |r| ensures KeyLe(key(r[i]), key(r[j])) {
      if i == 0 && j > 1 { KeyLeTransitive(key(x), key(s[0]), key(s[j - 1])); }
    }
  }

  lemma InsertAfterHead<T>(x: T, s: seq<T>, tail: seq<T>, key: T -> SortKey)
    requires SortedBy(s, key) && |s| > 0 && KeyLe(key(s[0]), key(x))
    requires SortedBy(tail, key) && multiset(tail) == multiset(s[1..]) + multiset{x}
    ensures SortedBy([s[0]] + tail, key)
  {
    var r := [s[0]] + tail;
    forall j | 0 < j < |r| ensures KeyLe(key(s[0]), key(r[j])) {
      assert r[j] in multiset(tail);
      if r[j] != x {
        assert r[j] in multiset(s[1..]);
        var k :| 0 <= k < |s[1..]| && s[1..][k] == r[j];
        assert s[k + 1] == r[j];
      }
    }
  }

  /** The sequence ordered by `key`: sorted, and a permutation of the input. */
  function SortBy<T>(s: seq<T>, key: T -> SortKey): (r: seq<T>)
    ensures SortedBy(r, key)
    ensures multiset(r) == multiset(s)
    ensures |r| == |s|
    decreases |s|
  {
    if s == [] then []
    else
      assert s == [s[0]] + s[1..];
      var r := InsertBy(s[0], SortBy(s[1..], key), key);
      assert |r| == |multiset(r)|;
      r
  }

  /** A subsequence of a sorted sequence is sorted. */
  lemma SubseqKeepsSorted<T>(a: seq<T>, b: seq<T>, key: T -> SortKey)
    requires Seqs.IsSubseq(a, b) && SortedBy(b, key)
    ensures SortedBy(a, key)
  {
    var idx :| Seqs.Embeds(a, b, idx);
    forall i, j | 0 <= i < j < |a| ensures KeyLe(key(a[i]), key(a[j])) {
      assert idx[i] < idx[j];
    }
  }

}
