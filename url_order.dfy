/**
 * The order in which resolved URLs are listed: Python's
 * `sort(key=lambda x: (x.count("/"), x))`, i.e. first by the number of `/`
 * characters anywhere in the URL (the two of `https://` included), then by
 * Python's string order (code point by code point, a proper prefix first).
 */
module UrlOrder {
  import opened Text

  /** The first component of the sort key: the number of `/` anywhere in the URL. */
  function Depth(u: string): (d: nat)
    ensures d == multiset(u)['/']
  {
    CountIsMultiplicity(u, '/');
    Count(u, '/')
  }

  /** Joining two strings adds their depths. */
  lemma DepthAppend(a: string, b: string)
    ensures Depth(a + b) == Depth(a) + Depth(b)
  {
    assert multiset(a + b) == multiset(a) + multiset(b);
  }

  /** Python's `<` on strings. */
  predicate StrLess(a: string, b: string)
    decreases |a|
  {
    if a == [] then b != []
    else if b == [] then false
    else if a[0] != b[0] then a[0] < b[0]
    else StrLess(a[1..], b[1..])
  }

  /**
   * Lexicographic order, stated without recursion: a proper prefix comes
   * first; otherwise the first position at which the strings differ decides.
   */
  ghost predicate Lexicographic(a: string, b: string) {
    || (|a| < |b| && a == b[..|a|])
    || exists k :: 0 <= k < |a| && k < |b| && a[..k] == b[..k] && a[k] < b[k]
  }

  /** Dropping a common first character keeps the lexicographic order. */
  lemma LexicographicTail(a: string, b: string)
    requires a != [] && b != [] && a[0] == b[0]
    ensures Lexicographic(a, b) <==> Lexicographic(a[1..], b[1..])
  {
    var a', b' := a[1..], b[1..];
    if |a| < |b| {
      assert b'[..|a'|] == b[1..|a|];
      assert a == [a[0]] + a' && b[..|a|] == [b[0]] + b[1..|a|];
    }
    if k :| 0 <= k < |a| && k < |b| && a[..k] == b[..k] && a[k] < b[k] {
      assert k > 0;
      assert a'[..k - 1] == a[..k][1..] && b'[..k - 1] == b[..k][1..];
      assert a'[k - 1] < b'[k - 1];
    }
    if k :| 0 <= k < |a'| && k < |b'| && a'[..k] == b'[..k] && a'[k] < b'[k] {
      assert a[..k + 1] == [a[0]] + a'[..k] && b[..k + 1] == [b[0]] + b'[..k];
      assert a[k + 1] < b[k + 1];
    }
  }

  /** Python's `<` on strings is the lexicographic order. */
  lemma {:induction false} StrLessIff(a: string, b: string)
    ensures StrLess(a, b) <==> Lexicographic(a, b)
    decreases |a|
  {
    if a == [] || b == [] {
    } else if a[0] != b[0] {
      assert a[..0] == b[..0];
    } else {
      StrLessIff(a[1..], b[1..]);
      LexicographicTail(a, b);
    }
  }

  lemma {:induction false} StrLessIrreflexive(a: string)
    ensures !StrLess(a, a)
    decreases |a|
  {
    if a != [] {
      StrLessIrreflexive(a[1..]);
    }
  }

  lemma {:induction false} StrLessTransitive(a: string, b: string, c: string)
    requires StrLess(a, b) && StrLess(b, c)
    ensures StrLess(a, c)
    decreases |a|
  {
    if a != [] && a[0] == b[0] && b[0] == c[0] {
      StrLessTransitive(a[1..], b[1..], c[1..]);
    }
  }

  /** Any two different strings are ordered one way or the other. */
  lemma {:induction false} StrLessTotal(a: string, b: string)
    requires a != b
    ensures StrLess(a, b) || StrLess(b, a)
    decreases |a|
  {
    if a != [] && b != [] && a[0] == b[0] {
      assert a == [a[0]] + a[1..] && b == [b[0]] + b[1..];
      StrLessTotal(a[1..], b[1..]);
    }
  }

  /** Strict comparison of the sort keys `(x.count("/"), x)`. */
  predicate KeyLess(a: string, b: string) {
    Depth(a) < Depth(b) || (Depth(a) == Depth(b) && StrLess(a, b))
  }

  /** The key order is a strict total order on strings. */
  lemma KeyLessStrictTotal(a: string, b: string, c: string)
    ensures !KeyLess(a, a)
    ensures KeyLess(a, b) && KeyLess(b, c) ==> KeyLess(a, c)
    ensures a != b ==> KeyLess(a, b) || KeyLess(b, a)
  {
    StrLessIrreflexive(a);
    if KeyLess(a, b) && KeyLess(b, c) && Depth(a) == Depth(b) == Depth(c) {
      StrLessTransitive(a, b, c);
    }
    if a != b {
      StrLessTotal(a, b);
    }
  }

  /** Strictly increasing by key (and therefore free of duplicates). */
  predicate Ordered(xs: seq<string>) {
    forall i, j :: 0 <= i < j < |xs| ==> KeyLess(xs[i], xs[j])
  }

  predicate Distinct(xs: seq<string>) {
    forall i, j :: 0 <= i < j < |xs| ==> xs[i] != xs[j]
  }

  lemma OrderedIsDistinct(xs: seq<string>)
    requires Ordered(xs)
    ensures Distinct(xs)
  {
    forall i, j | 0 <= i < j < |xs| ensures xs[i] != xs[j] {
      KeyLessStrictTotal(xs[i], xs[j], xs[j]);
    }
  }

  /** Insertion of `x` before the first element whose key is not smaller. */
  function Insert(x: string, xs: seq<string>): (r: seq<string>)
    ensures multiset(r) == multiset(xs) + multiset{x}
  {
    if xs == [] || !KeyLess(xs[0], x) then [x] + xs
    else
      assert xs == [xs[0]] + xs[1..];
      [xs[0]] + Insert(x, xs[1..])
  }

  /** The list sorted by key; Python's sort is stable, which equal keys never test here. */
  function SortByKey(xs: seq<string>): (r: seq<string>)
    ensures multiset(r) == multiset(xs)
  {
    if xs == [] then []
    else
      assert xs == [xs[0]] + xs[1..];
      Insert(xs[0], SortByKey(xs[1..]))
  }

  lemma {:induction false} InsertOrdered(x: string, xs: seq<string>)
    requires Ordered(xs) && x !in xs
    ensures Ordered(Insert(x, xs))
  {
    if xs == [] {
    } else if !KeyLess(xs[0], x) {
      KeyLessStrictTotal(x, xs[0], xs[0]);
      forall j | 0 <= j < |xs| ensures KeyLess(x, xs[j]) {
        if j > 0 {
          KeyLessStrictTotal(x, xs[0], xs[j]);
        }
      }
    } else {
      InsertOrdered(x, xs[1..]);
      var r := Insert(x, xs[1..]);
      forall j | 0 <= j < |r| ensures KeyLess(xs[0], r[j]) {
        assert r[j] in multiset(r);
        if r[j] != x {
          assert r[j] in xs[1..];
        }
      }
    }
  }

  /** Sorting a duplicate-free list gives a strictly ordered one. */
  lemma {:induction false} SortOrdered(xs: seq<string>)
    requires Distinct(xs)
    ensures Ordered(SortByKey(xs))
  {
    if xs != [] {
      SortOrdered(xs[1..]);
      assert xs[0] !in multiset(xs[1..]);
      InsertOrdered(xs[0], SortByKey(xs[1..]));
    }
  }

  /**
   * A strictly ordered list is determined by its elements: whatever order
   * the URLs were discovered in, the resolved list is the same.
   */
  lemma {:induction false} OrderedUnique(a: seq<string>, b: seq<string>)
    requires Ordered(a) && Ordered(b)
    requires forall u :: u in a <==> u in b
    ensures a == b
  {
    if a != [] {
      assert a[0] in b;
    }
    if b != [] {
      assert b[0] in a;
    }
    if a != [] && b != [] {
      if a[0] != b[0] {
        var i :| 0 <= i < |a| && a[i] == b[0];
        var j :| 0 <= j < |b| && b[j] == a[0];
        KeyLessStrictTotal(a[0], b[0], a[0]);
      }
      OrderedIsDistinct(a);
      OrderedIsDistinct(b);
      forall u ensures u in a[1..] <==> u in b[1..] {
        if u in a[1..] {
          var i :| 1 <= i < |a| && a[i] == u;
          assert u in b;
          var j :| 0 <= j < |b| && b[j] == u;
          assert j != 0;
          assert b[1..][j - 1] == u;
        }
        if u in b[1..] {
          var j :| 1 <= j < |b| && b[j] == u;
          assert u in a;
          var i :| 0 <= i < |a| && a[i] == u;
          assert i != 0;
          assert a[1..][i - 1] == u;
        }
      }
      OrderedUnique(a[1..], b[1..]);
      assert a == [a[0]] + a[1..] && b == [b[0]] + b[1..];
    }
  }
}
