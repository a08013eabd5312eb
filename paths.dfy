/**
 * Path strings and the segment sequences the resolver compares.
 *
 * `Split` and `Join` are Go's `strings.Split(s, "/")` and
 * `strings.Join(elems, "/")`; `UriSegments` is `getStringSliceFromURI`;
 * `NormalizeMounts` is the `strings.Replace` call that turns every mount
 * marker (slash, star, slash) of a walked pattern into a single slash, the
 * step that makes a mounted sub-router's star segment disappear.
 */
module Paths {

  /** `strings.Split(s, "/")`: the pieces between the slashes, always at least one. */
  function Split(s: string): (r: seq<string>)
    ensures |r| >= 1
    ensures forall k :: 0 <= k < |r| ==> '/' !in r[k]
    decreases |s|
  {
    if s == [] then [""]
    else if s[0] == '/' then [""] + Split(s[1..])
    else
      var rest := Split(s[1..]);
      [[s[0]] + rest[0]] + rest[1..]
  }

  /** `strings.Join(segs, "/")`. */
  function Join(segs: seq<string>): string
    decreases |segs|
  {
    if |segs| == 0 then ""
    else if |segs| == 1 then segs[0]
    else segs[0] + "/" + Join(segs[1..])
  }

  /**
   * `getStringSliceFromURI`: `Split`, except that the root "/" (which
   * `Split` turns into two empty segments) keeps only the second one.
   */
  function UriSegments(uri: string): (r: seq<string>)
    ensures |r| >= 1
    ensures forall k :: 0 <= k < |r| ==> '/' !in r[k]
    ensures uri == "/" ==> r == [""]
    ensures uri != "/" ==> Join(r) == uri
  {
    JoinSplit(uri);
    var v := Split(uri);
    if uri == "/" then v[1..] else v
  }

  /** The mount marker (slash, star, slash) starts at index i of s. */
  predicate MarkerAt(s: string, i: nat) {
    i + 3 <= |s| && s[i] == '/' && s[i + 1] == '*' && s[i + 2] == '/'
  }

  /**
   * `strings.Replace` of the mount marker by "/" with no limit: scanning
   * from the left, every non-overlapping marker becomes one slash; the
   * slash put in its place is not rescanned.
   */
  function NormalizeMounts(s: string): (r: string)
    decreases |s|
  {
    if MarkerAt(s, 0) then "/" + NormalizeMounts(s[3..])
    else if s == [] then []
    else [s[0]] + NormalizeMounts(s[1..])
  }

  // ---------------------------------------------------------------------
  // Split and Join are inverse to each other.

  /** Joining what `Split` produced gives back the input. */
  lemma {:induction false} JoinSplit(s: string)
    ensures Join(Split(s)) == s
    decreases |s|
  {
    if s == [] {
    } else if s[0] == '/' {
      JoinSplit(s[1..]);
      assert s == "/" + s[1..];
    } else {
      var rest := Split(s[1..]);
      JoinSplit(s[1..]);
      if |rest| == 1 {
        assert Join(Split(s)) == [s[0]] + rest[0];
      } else {
        assert Join(rest) == rest[0] + "/" + Join(rest[1..]);
        assert Join(Split(s)) == [s[0]] + rest[0] + "/" + Join(rest[1..]);
      }
      assert s == [s[0]] + s[1..];
    }
  }

  /** A string without a slash is a single segment. */
  lemma {:induction false} SplitNoSlash(s: string)
    requires '/' !in s
    ensures Split(s) == [s]
    decreases |s|
  {
    if s != [] {
      assert '/' !in s[1..] by {
        forall k | 0 <= k < |s[1..]| ensures s[1..][k] != '/' {
          assert s[1..][k] == s[k + 1];
        }
      }
      SplitNoSlash(s[1..]);
      assert s == [s[0]] + s[1..];
    }
  }

  /** Splitting at a slash splits the segment sequence there. */
  lemma {:induction false} SplitAppend(a: string, b: string)
    ensures Split(a + "/" + b) == Split(a) + Split(b)
    decreases |a|
  {
    var s := a + "/" + b;
    if a == [] {
      assert s == "/" + b;
      assert s[1..] == b;
    } else {
      assert s[0] == a[0];
      assert s[1..] == a[1..] + "/" + b;
      SplitAppend(a[1..], b);
    }
  }

  /** Splitting a join of slash-free segments gives the segments back. */
  lemma {:induction false} SplitJoin(segs: seq<string>)
    requires |segs| >= 1
    requires forall k :: 0 <= k < |segs| ==> '/' !in segs[k]
    ensures Split(Join(segs)) == segs
    decreases |segs|
  {
    if |segs| == 1 {
      SplitNoSlash(segs[0]);
    } else {
      SplitNoSlash(segs[0]);
      SplitJoin(segs[1..]);
      SplitAppend(segs[0], Join(segs[1..]));
      assert segs == [segs[0]] + segs[1..];
    }
  }

  /** Joining a concatenation puts one slash between the two joins. */
  lemma {:induction false} JoinAppend(a: seq<string>, b: seq<string>)
    requires |a| >= 1 && |b| >= 1
    ensures Join(a + b) == Join(a) + "/" + Join(b)
    decreases |a|
  {
    if |a| == 1 {
      assert (a + b)[1..] == b;
    } else {
      assert (a + b)[1..] == a[1..] + b;
      JoinAppend(a[1..], b);
    }
  }

  /** The root "/" and the empty URI have the same segments. */
  lemma RootLikeEmpty()
    ensures UriSegments("/") == UriSegments("") == [""]
  {
  }

  /** Only the root and the empty URI give the single empty segment. */
  lemma {:induction false} SingleEmptySegment(uri: string)
    ensures UriSegments(uri) == [""] <==> uri == "" || uri == "/"
  {
    if uri != "/" && UriSegments(uri) == [""] {
      assert uri == Join([""]);
    }
  }

  // ---------------------------------------------------------------------
  // Mount normalisation.

  /**
   * Normalising never lengthens a pattern, keeps its first character (so an
   * absolute pattern stays absolute) and maps only "" to "".
   */
  lemma {:induction false} NormalizeShape(s: string)
    ensures |NormalizeMounts(s)| <= |s|
    ensures NormalizeMounts(s) == [] <==> s == []
    ensures s != [] ==> NormalizeMounts(s)[0] == s[0]
    decreases |s|
  {
    if MarkerAt(s, 0) {
      NormalizeShape(s[3..]);
    } else if s != [] {
      NormalizeShape(s[1..]);
    }
  }

  /** A pattern with no mount marker is left as it is. */
  lemma {:induction false} NormalizeWithoutMarker(s: string)
    requires forall i: nat :: i < |s| ==> !MarkerAt(s, i)
    ensures NormalizeMounts(s) == s
    decreases |s|
  {
    if s != [] {
      assert !MarkerAt(s, 0);
      forall i: nat | i < |s[1..]| ensures !MarkerAt(s[1..], i) {
        assert !MarkerAt(s, i + 1);
      }
      NormalizeWithoutMarker(s[1..]);
      assert s == [s[0]] + s[1..];
    }
  }

  /**
   * A star-free prefix is copied unchanged, as long as what follows does
   * not start with '*' (which would close a marker across the boundary).
   */
  lemma {:induction false} NormalizeStarFreePrefix(p: string, x: string)
    requires '*' !in p
    requires x == [] || x[0] != '*'
    ensures NormalizeMounts(p + x) == p + NormalizeMounts(x)
    decreases |p|
  {
    if p == [] {
      assert p + x == x;
    } else {
      StarFreeStep(p, x);
      NormalizeStarFreePrefix(p[1..], x);
      assert p == [p[0]] + p[1..];
    }
  }

  /** One step of the induction above: the first character is copied. */
  lemma StarFreeStep(p: string, x: string)
    requires '*' !in p && p != []
    requires x == [] || x[0] != '*'
    ensures '*' !in p[1..]
    ensures NormalizeMounts(p + x) == [p[0]] + NormalizeMounts(p[1..] + x)
  {
    var s := p + x;
    assert s[1..] == p[1..] + x;
    assert |s| >= 2 ==> s[1] != '*' by {
      if |p| >= 2 { assert s[1] == p[1]; }
      else if x != [] { assert s[1] == x[0]; }
    }
    assert !MarkerAt(s, 0);
    assert forall c :: c in p[1..] ==> c in p;
  }

  /** Through a mount marker after a star-free prefix, only one slash is left. */
  lemma MountedPattern(p: string, q: string)
    requires '*' !in p
    requires q == [] || q[0] != '*'
    ensures NormalizeMounts(p + "/*/" + q) == p + "/" + NormalizeMounts(q)
  {
    var m: string := "/*/" + q;
    assert p + "/*/" + q == p + m;
    MarkerHead(q);
    NormalizeStarFreePrefix(p, m);
    assert p + ("/" + NormalizeMounts(q)) == p + "/" + NormalizeMounts(q);
  }

  /** The directly registered pattern normalises the same way. */
  lemma DirectPattern(p: string, q: string)
    requires '*' !in p
    requires q == [] || q[0] != '*'
    ensures NormalizeMounts(p + "/" + q) == p + "/" + NormalizeMounts(q)
  {
    assert forall c :: c in p + "/" ==> c in p || c == '/';
    NormalizeStarFreePrefix(p + "/", q);
  }

  /**
   * Mount transparency: a route reached through a mount marker between p
   * and q has the same segments as the directly registered p + "/" + q.
   */
  lemma MountTransparency(p: string, q: string)
    requires '*' !in p
    requires q == [] || q[0] != '*'
    ensures NormalizeMounts(p + "/*/" + q) == NormalizeMounts(p + "/" + q)
    ensures UriSegments(NormalizeMounts(p + "/*/" + q)) == UriSegments(NormalizeMounts(p + "/" + q))
  {
    MountedPattern(p, q);
    DirectPattern(p, q);
  }

  lemma MarkerHead(q: string)
    ensures NormalizeMounts("/*/" + q) == "/" + NormalizeMounts(q)
  {
    var m := "/*/" + q;
    assert MarkerAt(m, 0);
    assert m[3..] == q;
  }

  /** Replacement is non-overlapping: two markers sharing a slash leave one marker. */
  lemma NormalizeNonOverlapping()
    ensures NormalizeMounts("/*/*/") == "/*/"
  {
    assert MarkerAt("/*/*/", 0);
    assert "/*/*/"[3..] == "*/";
    assert !MarkerAt("*/", 0);
  }

  /** A leftover star segment is copied, and what follows it normalised. */
  lemma StarHead(q: string)
    requires q == [] || q[0] != '*'
    ensures NormalizeMounts("*/" + q) == "*/" + NormalizeMounts(q)
  {
    var t: string := "*/" + q;
    assert !MarkerAt(t, 0) && t[1..] == "/" + q;
    NormalizeStarFreePrefix("/", q);
  }

  /** Two markers sharing a slash at the front: only the first is replaced. */
  lemma OverlapHead(q: string)
    requires q == [] || q[0] != '*'
    ensures NormalizeMounts("/*/*/" + q) == "/*/" + NormalizeMounts(q)
  {
    var t: string := "*/" + q;
    assert "/*/*/" + q == "/*/" + t;
    MarkerHead(t);
    StarHead(q);
  }

  /**
   * Where two mount markers share a slash, mount transparency fails: the
   * second marker is not replaced, so a literal "*" segment stays in the
   * normalised pattern, which then differs from the directly registered
   * p + "/" + q.
   */
  lemma OverlappingMarkers(p: string, q: string)
    requires '*' !in p
    requires q == [] || q[0] != '*'
    ensures NormalizeMounts(p + "/*/*/" + q) == p + "/*/" + NormalizeMounts(q)
    ensures NormalizeMounts(p + "/*/*/" + q) != NormalizeMounts(p + "/" + q)
  {
    var m: string := "/*/*/" + q;
    assert p + "/*/*/" + q == p + m;
    OverlapHead(q);
    NormalizeStarFreePrefix(p, m);
    var n := NormalizeMounts(q);
    assert p + ("/*/" + n) == p + "/*/" + n;
    DirectPattern(p, q);
    assert |p + "/*/" + n| == |p| + 3 + |n|;
  }
}
