/**
 Extremum searches over a frequency table, as numpy performs them: `argmin`
 and `argmax` return the FIRST index attaining the extremum, and the
 nearest-channel lookup is `argmin` of the absolute differences to a target.
 */
module Extrema {

  /** `k` indexes a least element of `s`. */
  ghost predicate IsMinAt(s: seq<real>, k: int) {
    0 <= k < |s| && forall j :: 0 <= j < |s| ==> s[k] <= s[j]
  }

  /** `k` indexes a least element of `s` and every earlier element is larger. */
  ghost predicate IsFirstMinAt(s: seq<real>, k: int) {
    IsMinAt(s, k) && forall j :: 0 <= j < k ==> s[k] < s[j]
  }

  /** `k` indexes a greatest element of `s`. */
  ghost predicate IsMaxAt(s: seq<real>, k: int) {
    0 <= k < |s| && forall j :: 0 <= j < |s| ==> s[j] <= s[k]
  }

  /** `k` indexes a greatest element of `s` and every earlier element is smaller. */
  ghost predicate IsFirstMaxAt(s: seq<real>, k: int) {
    IsMaxAt(s, k) && forall j :: 0 <= j < k ==> s[j] < s[k]
  }

  /** Exactly one index attains the minimum of `s`. */
  ghost predicate UniqueMin(s: seq<real>) {
    forall i, j :: IsMinAt(s, i) && IsMinAt(s, j) ==> i == j
  }

  /** Exactly one index attains the maximum of `s`. */
  ghost predicate UniqueMax(s: seq<real>) {
    forall i, j :: IsMaxAt(s, i) && IsMaxAt(s, j) ==> i == j
  }

  lemma FirstMinUnique(s: seq<real>, a: int, b: int)
    requires IsFirstMinAt(s, a) && IsFirstMinAt(s, b)
    ensures a == b
  {
    assert s[a] <= s[b] && s[b] <= s[a];
  }

  lemma FirstMaxUnique(s: seq<real>, a: int, b: int)
    requires IsFirstMaxAt(s, a) && IsFirstMaxAt(s, b)
    ensures a == b
  {
    assert s[a] <= s[b] && s[b] <= s[a];
  }

  /** `np.argmin`: a left-to-right scan that moves only on a strictly smaller element. */
  function ArgMin(s: seq<real>): (k: nat)
    requires |s| > 0
    ensures IsFirstMinAt(s, k)
  {
    if |s| == 1 then 0
    else
      var k := ArgMin(s[..|s| - 1]);
      if s[|s| - 1] < s[k] then |s| - 1 else k
  }

  /** The same scan written as a loop. */
  method ScanArgMin(s: seq<real>) returns (k: nat)
    requires |s| > 0
    ensures IsFirstMinAt(s, k)
    ensures k == ArgMin(s)
  {
    k := 0;
    var i := 1;
    while i < |s|
      invariant 1 <= i <= |s|
      invariant k < i
      invariant forall j :: 0 <= j < i ==> s[k] <= s[j]
      invariant forall j :: 0 <= j < k ==> s[k] < s[j]
    {
      if s[i] < s[k] {
        k := i;
      }
      i := i + 1;
    }
    FirstMinUnique(s, k, ArgMin(s));
  }

  function Negated(s: seq<real>): seq<real> {
    seq(|s|, i requires 0 <= i < |s| => -s[i])
  }

  /** `np.argmax`: the first index of a greatest element. */
  function ArgMax(s: seq<real>): (k: nat)
    requires |s| > 0
    ensures IsFirstMaxAt(s, k)
  {
    var k := ArgMin(Negated(s));
    assert forall j :: 0 <= j < |s| ==> Negated(s)[j] == -s[j];
    k
  }

  /** `np.min` of a non-empty table. */
  function Min(s: seq<real>): (m: real)
    requires |s| > 0
    ensures m in s
    ensures forall j :: 0 <= j < |s| ==> m <= s[j]
  {
    s[ArgMin(s)]
  }

  /** `np.max` of a non-empty table. */
  function Max(s: seq<real>): (m: real)
    requires |s| > 0
    ensures m in s
    ensures forall j :: 0 <= j < |s| ==> s[j] <= m
  {
    s[ArgMax(s)]
  }

  function Abs(x: real): real {
    if x < 0.0 then -x else x
  }

  /** `np.abs(f - t)`: the distance of every channel frequency to the target. */
  function Distances(f: seq<real>, t: real): seq<real> {
    seq(|f|, i requires 0 <= i < |f| => Abs(f[i] - t))
  }

  /** `k` is the lowest index among the channels closest to `t`. */
  ghost predicate IsFirstNearest(f: seq<real>, t: real, k: int) {
    && 0 <= k < |f|
    && (forall j :: 0 <= j < |f| ==> Abs(f[k] - t) <= Abs(f[j] - t))
    && (forall j :: 0 <= j < k ==> Abs(f[k] - t) < Abs(f[j] - t))
  }

  /** `np.argmin(np.abs(f - t))`. */
  function Nearest(f: seq<real>, t: real): (k: nat)
    requires |f| > 0
    ensures IsFirstNearest(f, t, k)
  {
    var d := Distances(f, t);
    var k := ArgMin(d);
    assert forall j :: 0 <= j < |f| ==> d[j] == Abs(f[j] - t);
    k
  }

  lemma FirstNearestUnique(f: seq<real>, t: real, a: int, b: int)
    requires IsFirstNearest(f, t, a) && IsFirstNearest(f, t, b)
    ensures a == b
  {
    assert Abs(f[a] - t) <= Abs(f[b] - t) <= Abs(f[a] - t);
  }

  /** Exactly one channel is closest to `t`. */
  ghost predicate UniqueNearest(f: seq<real>, t: real) {
    UniqueMin(Distances(f, t))
  }

  /** The table read back to front: the same channels stored in the other orientation. */
  function Reverse(s: seq<real>): seq<real> {
    seq(|s|, i requires 0 <= i < |s| => s[|s| - 1 - i])
  }

  ghost predicate StrictlyIncreasing(f: seq<real>) {
    forall i, j :: 0 <= i < j < |f| ==> f[i] < f[j]
  }

  ghost predicate StrictlyDecreasing(f: seq<real>) {
    forall i, j :: 0 <= i < j < |f| ==> f[i] > f[j]
  }

  /** Reading the table backwards moves a unique first minimum to the mirrored index. */
  lemma {:induction false} ArgMinReverse(s: seq<real>)
    requires |s| > 0 && UniqueMin(s)
    ensures ArgMin(Reverse(s)) == |s| - 1 - ArgMin(s)
  {
    var n, k, r := |s|, ArgMin(s), Reverse(s);
    var m := n - 1 - k;
    forall j | 0 <= j < n
      ensures r[m] <= r[j]
    {
      assert r[j] == s[n - 1 - j];
    }
    forall j | 0 <= j < m
      ensures r[m] < r[j]
    {
      var i := n - 1 - j;
      assert r[j] == s[i];
      if s[i] == s[k] {
        assert IsMinAt(s, i);
      }
    }
    FirstMinUnique(r, ArgMin(r), m);
  }

  /** Reading the table backwards moves a unique first maximum to the mirrored index. */
  lemma {:induction false} ArgMaxReverse(s: seq<real>)
    requires |s| > 0 && UniqueMax(s)
    ensures ArgMax(Reverse(s)) == |s| - 1 - ArgMax(s)
  {
    var ns := Negated(s);
    assert Negated(Reverse(s)) == Reverse(ns);
    forall i, j | IsMinAt(ns, i) && IsMinAt(ns, j)
      ensures i == j
    {
      assert IsMaxAt(s, i) by {
        forall l | 0 <= l < |s|
          ensures s[l] <= s[i]
        {
          assert ns[i] <= ns[l];
        }
      }
      assert IsMaxAt(s, j) by {
        forall l | 0 <= l < |s|
          ensures s[l] <= s[j]
        {
          assert ns[j] <= ns[l];
        }
      }
    }
    ArgMinReverse(ns);
  }

  /** The table minimum does not depend on the storage orientation. */
  lemma {:induction false} MinReverse(s: seq<real>)
    requires |s| > 0
    ensures Min(Reverse(s)) == Min(s)
  {
    var n, r := |s|, Reverse(s);
    var k, kr := ArgMin(s), ArgMin(r);
    assert r[kr] == s[n - 1 - kr];
    assert s[k] == r[n - 1 - k];
  }

  /** The table maximum does not depend on the storage orientation. */
  lemma {:induction false} MaxReverse(s: seq<real>)
    requires |s| > 0
    ensures Max(Reverse(s)) == Max(s)
  {
    var n, r := |s|, Reverse(s);
    var k, kr := ArgMax(s), ArgMax(r);
    assert r[kr] == s[n - 1 - kr];
    assert s[k] == r[n - 1 - k];
  }

  /** With one closest channel, the nearest lookup on the reversed table finds its mirror. */
  lemma {:induction false} NearestReverse(f: seq<real>, t: real)
    requires |f| > 0 && UniqueNearest(f, t)
    ensures Nearest(Reverse(f), t) == |f| - 1 - Nearest(f, t)
  {
    assert Distances(Reverse(f), t) == Reverse(Distances(f, t));
    ArgMinReverse(Distances(f, t));
  }

  /** In an ascending table the minimum is the first channel and the maximum the last. */
  lemma {:induction false} IncreasingExtrema(f: seq<real>)
    requires |f| > 0 && StrictlyIncreasing(f)
    ensures ArgMin(f) == 0 && ArgMax(f) == |f| - 1
  {
    assert IsFirstMinAt(f, 0);
    FirstMinUnique(f, ArgMin(f), 0);
    assert IsFirstMaxAt(f, |f| - 1);
    FirstMaxUnique(f, ArgMax(f), |f| - 1);
  }

  /** In a descending table the minimum is the last channel and the maximum the first. */
  lemma {:induction false} DecreasingExtrema(f: seq<real>)
    requires |f| > 0 && StrictlyDecreasing(f)
    ensures ArgMin(f) == |f| - 1 && ArgMax(f) == 0
  {
    assert IsFirstMinAt(f, |f| - 1);
    FirstMinUnique(f, ArgMin(f), |f| - 1);
    assert IsFirstMaxAt(f, 0);
    FirstMaxUnique(f, ArgMax(f), 0);
  }
}
