/** Sequence update by segment: the shape in which every in-place buffer write is specified. */
module Splices {

  /** s with the segment starting at `at` overwritten by x. */
  function Splice<T>(s: seq<T>, at: nat, x: seq<T>): (t: seq<T>)
    requires at + |x| <= |s|
    ensures |t| == |s|
  {
    seq(|s|, k requires 0 <= k < |s| => if at <= k < at + |x| then x[k - at] else s[k])
  }

  lemma SpliceAt<T>(s: seq<T>, at: nat, x: seq<T>, k: nat)
    requires at + |x| <= |s| && k < |s|
    ensures Splice(s, at, x)[k] == if at <= k < at + |x| then x[k - at] else s[k]
  {
  }

  /** Reading back the segment just written. */
  lemma ReadWritten<T>(s: seq<T>, at: nat, x: seq<T>)
    requires at + |x| <= |s|
    ensures Splice(s, at, x)[at..at + |x|] == x
  {
  }

  /** Reading a segment the write does not meet. */
  lemma ReadElsewhere<T>(s: seq<T>, at: nat, x: seq<T>, lo: nat, hi: nat)
    requires at + |x| <= |s| && lo <= hi <= |s| && (hi <= at || at + |x| <= lo)
    ensures Splice(s, at, x)[lo..hi] == s[lo..hi]
  {
  }

  /** A write directly behind a written segment extends it. */
  lemma Append<T>(s: seq<T>, at: nat, x: seq<T>, y: seq<T>)
    requires at + |x| + |y| <= |s|
    ensures Splice(Splice(s, at, x), at + |x|, y) == Splice(s, at, x + y)
  {
    var l, r := Splice(Splice(s, at, x), at + |x|, y), Splice(s, at, x + y);
    assert |l| == |r|;
    forall k | 0 <= k < |l| ensures l[k] == r[k] {
      SpliceAt(s, at, x, k);
      SpliceAt(Splice(s, at, x), at + |x|, y, k);
      SpliceAt(s, at, x + y, k);
    }
  }

  /** Writes to disjoint segments commute. */
  lemma Commute<T>(s: seq<T>, a: nat, x: seq<T>, b: nat, y: seq<T>)
    requires a + |x| <= b && b + |y| <= |s|
    ensures Splice(Splice(s, a, x), b, y) == Splice(Splice(s, b, y), a, x)
  {
    var l, r := Splice(Splice(s, a, x), b, y), Splice(Splice(s, b, y), a, x);
    forall k | 0 <= k < |l| ensures l[k] == r[k] {
      SpliceAt(s, a, x, k);
      SpliceAt(Splice(s, a, x), b, y, k);
      SpliceAt(s, b, y, k);
      SpliceAt(Splice(s, b, y), a, x, k);
    }
  }

  /** The second of two writes of the same length to one place wins. */
  lemma Overwrite<T>(s: seq<T>, at: nat, x: seq<T>, y: seq<T>)
    requires |x| == |y| && at + |x| <= |s|
    ensures Splice(Splice(s, at, x), at, y) == Splice(s, at, y)
  {
    var l, r := Splice(Splice(s, at, x), at, y), Splice(s, at, y);
    forall k | 0 <= k < |l| ensures l[k] == r[k] {
      SpliceAt(s, at, x, k);
      SpliceAt(Splice(s, at, x), at, y, k);
      SpliceAt(s, at, y, k);
    }
  }

  /** Storing one element behind a written segment. */
  lemma StoreNext<T>(s: seq<T>, at: nat, x: seq<T>, v: T)
    requires at + |x| < |s|
    ensures Splice(s, at, x)[at + |x| := v] == Splice(s, at, x + [v])
  {
    var l, r := Splice(s, at, x)[at + |x| := v], Splice(s, at, x + [v]);
    forall k | 0 <= k < |l| ensures l[k] == r[k] {
      SpliceAt(s, at, x, k);
      SpliceAt(s, at, x + [v], k);
    }
  }

  /** Reading past two writes. */
  lemma ReadPast<T>(s: seq<T>, a: nat, x: seq<T>, b: nat, y: seq<T>, lo: nat, hi: nat)
    requires a + |x| <= |s| && b + |y| <= |s| && lo <= hi <= |s|
    requires (hi <= a || a + |x| <= lo) && (hi <= b || b + |y| <= lo)
    ensures Splice(Splice(s, a, x), b, y)[lo..hi] == s[lo..hi]
  {
    ReadElsewhere(s, a, x, lo, hi);
    ReadElsewhere(Splice(s, a, x), b, y, lo, hi);
  }

  lemma SubSlice<T>(s: seq<T>, lo: nat, hi: nat, i: nat, j: nat)
    requires lo <= hi <= |s| && i <= j <= hi - lo
    ensures s[lo..hi][i..j] == s[lo + i..lo + j]
  {
    var l, r := s[lo..hi][i..j], s[lo + i..lo + j];
    forall k | 0 <= k < |l| ensures l[k] == r[k] {}
  }

  lemma ArraySlice<T>(a: array<T>, lo: nat, hi: nat)
    requires lo <= hi <= a.Length
    ensures a[lo..hi] == a[..][lo..hi]
  {
  }

  lemma PrefixSlice<T>(a: array<T>, n: nat, lo: nat, hi: nat)
    requires lo <= hi <= n <= a.Length
    ensures a[lo..hi] == a[..n][lo..hi]
  {
    var l, r := a[lo..hi], a[..n][lo..hi];
    forall k | 0 <= k < |l| ensures l[k] == r[k] {}
  }

  ghost predicate Sized<T>(xs: seq<seq<T>>, w: nat) {
    forall i :: 0 <= i < |xs| ==> |xs[i]| == w
  }

  /** xs[0] || ... || xs[n-1]. */
  ghost function Flatten<T>(xs: seq<seq<T>>, n: nat): seq<T>
    requires n <= |xs|
  {
    if n == 0 then [] else Flatten(xs, n - 1) + xs[n - 1]
  }

  lemma {:induction false} FlattenLength<T>(xs: seq<seq<T>>, w: nat, n: nat)
    requires Sized(xs, w) && n <= |xs|
    ensures |Flatten(xs, n)| == n * w
  {
    if n != 0 {
      FlattenLength(xs, w, n - 1);
      assert n * w == (n - 1) * w + w;
    }
  }

  /** Segment j starts where the first j segments end. */
  lemma {:induction false} FlattenAt<T>(xs: seq<seq<T>>, n: nat, j: nat)
    requires j < n <= |xs|
    ensures |Flatten(xs, j)| + |xs[j]| <= |Flatten(xs, n)|
    ensures Flatten(xs, n)[|Flatten(xs, j)|..|Flatten(xs, j)| + |xs[j]|] == xs[j]
  {
    if j < n - 1 { FlattenAt(xs, n - 1, j); }
  }

  /** Overwriting segment i behind the first i segments. */
  lemma FlattenWrite<T>(s: seq<T>, xs: seq<seq<T>>, i: nat)
    requires i < |xs| && |Flatten(xs, i)| + |xs[i]| <= |s|
    ensures |Flatten(xs, i + 1)| <= |s|
    ensures Splice(Splice(s, 0, Flatten(xs, i)), |Flatten(xs, i)|, xs[i]) == Splice(s, 0, Flatten(xs, i + 1))
  {
    Append(s, 0, Flatten(xs, i), xs[i]);
  }

  /** Writing the next segment behind the table extends it. */
  lemma TableGrows<T>(s: seq<T>, s': seq<T>, t: seq<T>, x: seq<T>)
    requires |t| + |x| <= |s| && s[..|t|] == t && s' == Splice(s, |t|, x)
    ensures s'[..|t| + |x|] == t + x
  {
  }
}
