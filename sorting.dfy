/** Python's `sorted`: a stable sort driven by a "less than" relation. The
    core sorts match lists by distance (`key=lambda x: x[1]`) and file paths
    by their natural order; both relations are strict weak orders. */
module Sorting {

  /** `lt` behaves like `<` on a key: asymmetric, and "not less than" is
      transitive (so equivalent elements form classes). */
  ghost predicate StrictWeakOrder<T(!new)>(lt: (T, T) -> bool) {
    && (forall a, b :: lt(a, b) ==> !lt(b, a))
    && (forall a, b, c :: !lt(b, a) && !lt(c, b) ==> !lt(c, a))
  }

  /** Moreover any two distinct elements are ordered. */
  ghost predicate StrictTotalOrder<T(!new)>(lt: (T, T) -> bool) {
    && StrictWeakOrder(lt)
    && (forall a, b :: a != b ==> lt(a, b) || lt(b, a))
  }

  /** No element is less than one listed before it. */
  predicate Sorted<T>(s: seq<T>, lt: (T, T) -> bool) {
    forall i, j :: 0 <= i < j < |s| ==> !lt(s[j], s[i])
  }

  /** Insert `x` before the first element that is not less than it. */
  function Insert<T>(x: T, s: seq<T>, lt: (T, T) -> bool): (r: seq<T>)
    ensures multiset(r) == multiset(s) + multiset{x}
    ensures |r| == |s| + 1
  {
    if s == [] || !lt(s[0], x) then [x] + s
    else
      assert s == [s[0]] + s[1..];
      [s[0]] + Insert(x, s[1..], lt)
  }

  /** `sorted(s)`: insertion sort, each element placed in front of the
      elements it ties with that come after it in `s`. */
  function Sort<T>(s: seq<T>, lt: (T, T) -> bool): (r: seq<T>)
    ensures multiset(r) == multiset(s)
    ensures |r| == |s|
  {
    if s == [] then []
    else
      assert s == [s[0]] + s[1..];
      Insert(s[0], Sort(s[1..], lt), lt)
  }

  /** The comparison `key(a) < key(b)` of `sorted(..., key=key)`. */
  function ByKey<T>(key: T -> real): (T, T) -> bool {
    (a: T, b: T) => key(a) < key(b)
  }

  lemma ByKeyIsStrictWeakOrder<T(!new)>(key: T -> real)
    ensures StrictWeakOrder(ByKey(key))
  {
  }

  lemma {:induction false} InsertSorted<T(!new)>(x: T, s: seq<T>, lt: (T, T) -> bool)
    requires StrictWeakOrder(lt) && Sorted(s, lt)
    ensures Sorted(Insert(x, s, lt), lt)
    decreases |s|
  {
    if s != [] && lt(s[0], x) {
      InsertSorted(x, s[1..], lt);
      var r := Insert(x, s, lt);
      var t := Insert(x, s[1..], lt);
      assert r == [s[0]] + t;
      forall k | 0 <= k < |t|
        ensures !lt(t[k], s[0])
      {
        assert t[k] in multiset(t);
        if t[k] != x {
          assert t[k] in multiset(s[1..]);
          var m :| 0 <= m < |s[1..]| && s[1..][m] == t[k];
          assert s[m + 1] == t[k];
        }
      }
    }
  }

  /** The result of `sorted` is in order. */
  lemma {:induction false} SortSorted<T(!new)>(s: seq<T>, lt: (T, T) -> bool)
    requires StrictWeakOrder(lt)
    ensures Sorted(Sort(s, lt), lt)
    decreases |s|
  {
    if s != [] {
      SortSorted(s[1..], lt);
      InsertSorted(s[0], Sort(s[1..], lt), lt);
    }
  }

  /** Elements are tied with respect to `lt`. */
  predicate Tied<T>(lt: (T, T) -> bool, a: T, b: T) {
    !lt(a, b) && !lt(b, a)
  }

  /** Stability: tied elements keep the relative order `g` ranks them in,
      given that `s` lists them in ascending `g`. */
  predicate KeepsOrder<T>(s: seq<T>, lt: (T, T) -> bool, g: T -> int) {
    forall i, j :: 0 <= i < j < |s| && Tied(lt, s[i], s[j]) ==> g(s[i]) <= g(s[j])
  }

  predicate Ascending<T>(s: seq<T>, g: T -> int) {
    forall i, j :: 0 <= i < j < |s| ==> g(s[i]) <= g(s[j])
  }

  lemma {:induction false} InsertStable<T(!new)>(x: T, s: seq<T>, lt: (T, T) -> bool, g: T -> int)
    requires StrictWeakOrder(lt) && Sorted(s, lt) && KeepsOrder(s, lt, g)
    requires forall k :: 0 <= k < |s| ==> g(x) <= g(s[k])
    ensures KeepsOrder(Insert(x, s, lt), lt, g)
    decreases |s|
  {
    if s != [] && lt(s[0], x) {
      InsertStable(x, s[1..], lt, g);
      var t := Insert(x, s[1..], lt);
      assert Insert(x, s, lt) == [s[0]] + t;
      forall k | 0 <= k < |t| && Tied(lt, s[0], t[k])
        ensures g(s[0]) <= g(t[k])
      {
        assert t[k] in multiset(t);
        if t[k] == x {
          assert false;
        } else {
          assert t[k] in multiset(s[1..]);
          var m :| 0 <= m < |s[1..]| && s[1..][m] == t[k];
          assert s[m + 1] == t[k];
        }
      }
    }
  }

  /** `sorted` is stable: when `s` is in ascending `g`, tied elements of the
      result are still in ascending `g`. */
  lemma {:induction false} SortStable<T(!new)>(s: seq<T>, lt: (T, T) -> bool, g: T -> int)
    requires StrictWeakOrder(lt) && Ascending(s, g)
    ensures KeepsOrder(Sort(s, lt), lt, g)
    decreases |s|
  {
    if s != [] {
      SortStable(s[1..], lt, g);
      SortSorted(s[1..], lt);
      var t := Sort(s[1..], lt);
      forall k | 0 <= k < |t|
        ensures g(s[0]) <= g(t[k])
      {
        assert t[k] in multiset(s[1..]);
        var m :| 0 <= m < |s[1..]| && s[1..][m] == t[k];
        assert s[m + 1] == t[k];
      }
      InsertStable(s[0], t, lt, g);
    }
  }

  /** Any two distinct elements of `s` are ordered by `lt`. */
  ghost predicate TotalOn<T>(s: seq<T>, lt: (T, T) -> bool) {
    forall i, j :: 0 <= i < |s| && 0 <= j < |s| && s[i] != s[j] ==> lt(s[i], s[j]) || lt(s[j], s[i])
  }

  /** The first element of a sorted sequence is not greater than any other. */
  lemma HeadIsLeast<T(!new)>(s: seq<T>, x: T, lt: (T, T) -> bool)
    requires StrictWeakOrder(lt) && Sorted(s, lt) && x in multiset(s)
    ensures !lt(x, s[0])
  {
    var k :| 0 <= k < |s| && s[k] == x;
    if k > 0 {
      assert !lt(s[k], s[0]);
    }
  }

  lemma SortedHeadsEqual<T(!new)>(a: seq<T>, b: seq<T>, lt: (T, T) -> bool)
    requires StrictWeakOrder(lt) && TotalOn(a, lt) && Sorted(a, lt) && Sorted(b, lt)
    requires multiset(a) == multiset(b) && a != [] && b != []
    ensures a[0] == b[0]
  {
    HeadIsLeast(a, b[0], lt);
    HeadIsLeast(b, a[0], lt);
    var k :| 0 <= k < |a| && a[k] == b[0];
  }

  lemma TailsAgree<T>(a: seq<T>, b: seq<T>)
    requires multiset(a) == multiset(b) && a != [] && b != [] && a[0] == b[0]
    ensures multiset(a[1..]) == multiset(b[1..])
  {
    assert a == [a[0]] + a[1..] && b == [b[0]] + b[1..];
    calc {
      multiset(a[1..]);
      multiset(a) - multiset{a[0]};
      multiset(b) - multiset{b[0]};
      multiset(b[1..]);
    }
  }

  lemma TotalOnTail<T>(a: seq<T>, lt: (T, T) -> bool)
    requires TotalOn(a, lt) && a != []
    ensures TotalOn(a[1..], lt)
  {
    forall i, j | 0 <= i < |a[1..]| && 0 <= j < |a[1..]| && a[1..][i] != a[1..][j]
      ensures lt(a[1..][i], a[1..][j]) || lt(a[1..][j], a[1..][i])
    {
      assert a[1..][i] == a[i + 1] && a[1..][j] == a[j + 1];
    }
  }

  /** When `lt` orders any two distinct elements, there is only one sorted
      arrangement of a multiset of elements. */
  lemma {:induction false} SortedUnique<T(!new)>(a: seq<T>, b: seq<T>, lt: (T, T) -> bool)
    requires StrictWeakOrder(lt) && TotalOn(a, lt) && Sorted(a, lt) && Sorted(b, lt)
    requires multiset(a) == multiset(b)
    ensures a == b
    decreases |a|
  {
    if a != [] {
      assert |b| == |a| by { assert |multiset(b)| == |multiset(a)|; }
      SortedHeadsEqual(a, b, lt);
      TailsAgree(a, b);
      TotalOnTail(a, lt);
      SortedUnique(a[1..], b[1..], lt);
    }
  }

  /** When `lt` orders any two distinct elements supplied, `sorted` depends
      only on the elements, not on the order they were supplied in. */
  lemma SortOrderIndependent<T(!new)>(s: seq<T>, t: seq<T>, lt: (T, T) -> bool)
    requires StrictWeakOrder(lt) && TotalOn(s, lt) && multiset(s) == multiset(t)
    ensures Sort(s, lt) == Sort(t, lt)
  {
    SortSorted(s, lt);
    SortSorted(t, lt);
    var a := Sort(s, lt);
    assert TotalOn(a, lt) by {
      forall i, j | 0 <= i < |a| && 0 <= j < |a| && a[i] != a[j]
        ensures lt(a[i], a[j]) || lt(a[j], a[i])
      {
        assert a[i] in multiset(s) && a[j] in multiset(s);
        var i' :| 0 <= i' < |s| && s[i'] == a[i];
        var j' :| 0 <= j' < |s| && s[j'] == a[j];
      }
    }
    SortedUnique(a, Sort(t, lt), lt);
  }

  // ---------------------------------------------------------------------
  // Lexicographic order, as Python compares strings and path parts

  /** `a < b` for sequences compared element by element with `lt`, a proper
      prefix coming first. */
  predicate LexLess<T(==)>(a: seq<T>, b: seq<T>, lt: (T, T) -> bool)
    decreases |a|
  {
    b != [] && (a == [] || lt(a[0], b[0]) || (a[0] == b[0] && LexLess(a[1..], b[1..], lt)))
  }

  function LexOrder<T(==)>(lt: (T, T) -> bool): (seq<T>, seq<T>) -> bool {
    (a: seq<T>, b: seq<T>) => LexLess(a, b, lt)
  }

  /** `lt` compared through `key`: `key(a) < key(b)`. */
  function Through<T, K>(key: T -> K, lt: (K, K) -> bool): (T, T) -> bool {
    (a: T, b: T) => lt(key(a), key(b))
  }

  lemma {:induction false} LexAsymmetric<T(!new)>(a: seq<T>, b: seq<T>, lt: (T, T) -> bool)
    requires StrictWeakOrder(lt) && LexLess(a, b, lt)
    ensures !LexLess(b, a, lt)
    decreases |a|
  {
    if a != [] && !lt(a[0], b[0]) {
      LexAsymmetric(a[1..], b[1..], lt);
    }
  }

  lemma {:induction false} LexTransitive<T(!new)>(a: seq<T>, b: seq<T>, c: seq<T>, lt: (T, T) -> bool)
    requires StrictWeakOrder(lt) && LexLess(a, b, lt) && LexLess(b, c, lt)
    ensures LexLess(a, c, lt)
    decreases |a|
  {
    if a != [] {
      if a[0] == b[0] && b[0] == c[0] {
        LexTransitive(a[1..], b[1..], c[1..], lt);
      }
    }
  }

  lemma {:induction false} LexTotal<T(!new)>(a: seq<T>, b: seq<T>, lt: (T, T) -> bool)
    requires StrictTotalOrder(lt) && a != b
    ensures LexLess(a, b, lt) || LexLess(b, a, lt)
    decreases |a|
  {
    if a != [] && b != [] && a[0] == b[0] {
      assert a == [a[0]] + a[1..] && b == [b[0]] + b[1..];
      LexTotal(a[1..], b[1..], lt);
    }
  }

  /** Lexicographic comparison of a strict total order is a strict total order. */
  lemma LexIsStrictTotalOrder<T(!new)>(lt: (T, T) -> bool)
    requires StrictTotalOrder(lt)
    ensures StrictTotalOrder(LexOrder(lt))
  {
    var lex := LexOrder(lt);
    forall a, b | lex(a, b) ensures !lex(b, a) {
      LexAsymmetric(a, b, lt);
    }
    forall a, b | a != b ensures lex(a, b) || lex(b, a) {
      LexTotal(a, b, lt);
    }
    forall a, b, c | !lex(b, a) && !lex(c, b) ensures !lex(c, a) {
      if lex(c, a) {
        if a == b {
        } else if b == c {
        } else {
          LexTotal(a, b, lt);
          LexTotal(b, c, lt);
          LexTransitive(c, a, b, lt);
        }
      }
    }
  }

  /** A strict total order compared through a key is a strict weak order,
      total on any sequence whose elements have distinct keys. */
  lemma ThroughKey<T(!new), K(!new)>(key: T -> K, lt: (K, K) -> bool, s: seq<T>)
    requires StrictTotalOrder(lt)
    requires forall i, j :: 0 <= i < |s| && 0 <= j < |s| && key(s[i]) == key(s[j]) ==> s[i] == s[j]
    ensures StrictWeakOrder(Through(key, lt)) && TotalOn(s, Through(key, lt))
  {
  }
}
