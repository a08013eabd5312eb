/**
 * The `Routes` slice type and the three methods that let `sort.Sort`
 * order it by path: `Len`, `Less` and `Swap`.
 *
 * `Less` is `strings.Compare(a, b) == -1`. Go compares strings byte by
 * byte. Here strings are sequences of Unicode scalar values, and ordering
 * by code point gives the same order as ordering their UTF-8 encodings
 * byte by byte.
 */
module Ordering {
  import opened Scope

  /** `strings.Compare`: -1, 0 or 1 as `a` sorts before, equal to, or after `b`. */
  function Compare(a: string, b: string): (c: int)
    ensures -1 <= c <= 1
    ensures c == 0 <==> a == b
  {
    if a == [] && b == [] then 0
    else if a == [] then -1
    else if b == [] then 1
    else if a[0] < b[0] then -1
    else if b[0] < a[0] then 1
    else
      var c := Compare(a[1..], b[1..]);
      assert c == 0 ==> a == [a[0]] + a[1..] == [b[0]] + b[1..] == b;
      c
  }

  /** `a` is a proper prefix of `b`. */
  predicate ProperPrefix(a: string, b: string) {
    |a| < |b| && b[..|a|] == a
  }

  /** `a` and `b` agree before position `k` and `a` has the smaller character there. */
  predicate DiffersAt(a: string, b: string, k: int) {
    0 <= k < |a| && k < |b| && a[..k] == b[..k] && a[k] < b[k]
  }

  /**
   * Reference definition of strict lexicographic order: `a` is a proper
   * prefix of `b`, or both agree up to a first differing position where
   * `a` has the smaller character.
   */
  predicate LexLess(a: string, b: string) {
    ProperPrefix(a, b) || exists k :: 0 <= k < |a| && DiffersAt(a, b, k)
  }

  /** Adding a common first character to a proper prefix keeps it one, and back. */
  lemma ProperPrefixCons(x: char, a: string, b: string)
    ensures ProperPrefix([x] + a, [x] + b) <==> ProperPrefix(a, b)
  {
    if |a| < |b| {
      assert ([x] + b)[..|[x] + a|] == [x] + b[..|a|];
    }
    if ProperPrefix([x] + a, [x] + b) {
      assert b[..|a|] == ([x] + b)[..|[x] + a|][1..];
    }
  }

  /** A first difference at `k` moves to `k + 1` under a common first character, and back. */
  lemma DiffersAtCons(x: char, a: string, b: string, k: int)
    ensures DiffersAt([x] + a, [x] + b, k + 1) <==> DiffersAt(a, b, k)
  {
    var a', b' := [x] + a, [x] + b;
    if 0 <= k < |a| && k < |b| {
      assert a'[..k + 1] == [x] + a[..k] && b'[..k + 1] == [x] + b[..k];
      assert a[..k] == a'[..k + 1][1..] && b[..k] == b'[..k + 1][1..];
    }
  }

  /** Peeling off a common first character does not change the order. */
  lemma LexLessCons(x: char, a: string, b: string)
    ensures LexLess([x] + a, [x] + b) <==> LexLess(a, b)
  {
    var a', b' := [x] + a, [x] + b;
    ProperPrefixCons(x, a, b);
    if k :| DiffersAt(a, b, k) {
      DiffersAtCons(x, a, b, k);
    }
    if k :| DiffersAt(a', b', k) {
      assert k != 0;
      DiffersAtCons(x, a, b, k - 1);
    }
  }

  /** When the first characters differ, they alone decide the order. */
  lemma LexLessHead(a: string, b: string)
    requires a != [] && b != [] && a[0] != b[0]
    ensures LexLess(a, b) <==> a[0] < b[0]
  {
    assert a[0] < b[0] ==> DiffersAt(a, b, 0) by {
      assert a[..0] == b[..0];
    }
    assert |a| < |b| ==> b[..|a|][0] == b[0];
    assert forall k :: 0 < k <= |a| && k <= |b| ==> a[..k][0] == a[0] && b[..k][0] == b[0];
  }

  /** `strings.Compare(a, b) == -1` is exactly strict lexicographic order. */
  lemma {:induction false} CompareLess(a: string, b: string)
    ensures Compare(a, b) == -1 <==> LexLess(a, b)
    decreases |a|
  {
    if a == [] && b == [] {
    } else if a == [] {
      assert ProperPrefix(a, b);
    } else if b == [] {
    } else if a[0] != b[0] {
      LexLessHead(a, b);
    } else {
      CompareLess(a[1..], b[1..]);
      LexLessCons(a[0], a[1..], b[1..]);
      assert a == [a[0]] + a[1..] && b == [a[0]] + b[1..];
    }
  }

  /** Swapping the arguments negates the comparison. */
  lemma {:induction false} CompareAntisymmetric(a: string, b: string)
    ensures Compare(a, b) == -Compare(b, a)
    decreases |a|
  {
    if a != [] && b != [] && a[0] == b[0] {
      CompareAntisymmetric(a[1..], b[1..]);
    }
  }

  /** Comparison is transitive on "sorts before". */
  lemma {:induction false} CompareTransitive(a: string, b: string, c: string)
    requires Compare(a, b) == -1 && Compare(b, c) == -1
    ensures Compare(a, c) == -1
    decreases |a|
  {
    if a != [] && b != [] && c != [] && a[0] == b[0] && b[0] == c[0] {
      CompareTransitive(a[1..], b[1..], c[1..]);
    }
  }

  /** No string is lexicographically smaller than itself. */
  lemma LexLessIrreflexive(a: string)
    ensures !LexLess(a, a)
  {
    CompareLess(a, a);
  }

  /** Of two strings at most one is smaller than the other. */
  lemma LexLessAsymmetric(a: string, b: string)
    requires LexLess(a, b)
    ensures !LexLess(b, a)
  {
    CompareLess(a, b);
    CompareLess(b, a);
    CompareAntisymmetric(a, b);
  }

  /** Lexicographic order is transitive. */
  lemma LexLessTransitive(a: string, b: string, c: string)
    requires LexLess(a, b) && LexLess(b, c)
    ensures LexLess(a, c)
  {
    CompareLess(a, b);
    CompareLess(b, c);
    CompareLess(a, c);
    CompareTransitive(a, b, c);
  }

  /** Two different strings are always ordered one way or the other. */
  lemma LexLessTotal(a: string, b: string)
    requires a != b
    ensures LexLess(a, b) || LexLess(b, a)
  {
    CompareLess(a, b);
    CompareLess(b, a);
    CompareAntisymmetric(a, b);
  }

  /** `Routes.Len`: the number of routes in the slice. */
  function Len(r: array<RouteInfo>): (n: nat)
    ensures n == r.Length
  {
    r.Length
  }

  /** `Routes.Less`: route `i` sorts before route `j` by path. */
  function Less(r: array<RouteInfo>, i: int, j: int): (b: bool)
    requires 0 <= i < r.Length && 0 <= j < r.Length
    reads r
    ensures b <==> LexLess(r[i].path, r[j].path)
  {
    CompareLess(r[i].path, r[j].path);
    Compare(r[i].path, r[j].path) == -1
  }

  /** `Less` never holds between a route and itself. */
  lemma LessIrreflexive(r: array<RouteInfo>, i: int)
    requires 0 <= i < r.Length
    ensures !Less(r, i, i)
  {
    LexLessIrreflexive(r[i].path);
  }

  /** `Less` holds in at most one direction. */
  lemma LessAsymmetric(r: array<RouteInfo>, i: int, j: int)
    requires 0 <= i < r.Length && 0 <= j < r.Length
    requires Less(r, i, j)
    ensures !Less(r, j, i)
  {
    LexLessAsymmetric(r[i].path, r[j].path);
  }

  /** `Less` is transitive. */
  lemma LessTransitive(r: array<RouteInfo>, i: int, j: int, k: int)
    requires 0 <= i < r.Length && 0 <= j < r.Length && 0 <= k < r.Length
    requires Less(r, i, j) && Less(r, j, k)
    ensures Less(r, i, k)
  {
    LexLessTransitive(r[i].path, r[j].path, r[k].path);
  }

  /**
   * Routes with different paths are ordered one way or the other; routes
   * with equal paths are incomparable and `sort.Sort` may leave them in
   * either order.
   */
  lemma LessTotal(r: array<RouteInfo>, i: int, j: int)
    requires 0 <= i < r.Length && 0 <= j < r.Length
    ensures r[i].path != r[j].path <==> Less(r, i, j) || Less(r, j, i)
  {
    if r[i].path != r[j].path {
      LexLessTotal(r[i].path, r[j].path);
    } else {
      LexLessIrreflexive(r[i].path);
    }
  }

  /** `Routes.Swap`: exchanges routes `i` and `j` in place. */
  method Swap(r: array<RouteInfo>, i: int, j: int)
    requires 0 <= i < r.Length && 0 <= j < r.Length
    modifies r
    ensures r[..] == old(r[..])[i := old(r[j])][j := old(r[i])]
    ensures r[i] == old(r[j]) && r[j] == old(r[i])
    ensures forall k :: 0 <= k < r.Length && k != i && k != j ==> r[k] == old(r[k])
    ensures multiset(r[..]) == multiset(old(r[..]))
  {
    r[i], r[j] := r[j], r[i];
  }
}
