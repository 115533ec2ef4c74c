/**
 The channel selector of the frequency cutter: it validates the optional
 `--lo_freq`/`--hi_freq` bounds against the frequency table, resolves each
 bound to a channel, orders the two channels and counts the inclusive range.
 */
module ChannelSelector {
  import opened Results
  import opened Extrema

  /** An inclusive channel range and the number of channels it holds (`new_nchans`). */
  datatype Selection = Selection(lochan: nat, hichan: nat, nchans: nat)

  /** `x` is at or above every frequency of the table: `x >= max(f)`. */
  ghost predicate AtOrAboveTop(f: seq<real>, x: real) {
    forall j :: 0 <= j < |f| ==> f[j] <= x
  }

  /** `x` is at or below every frequency of the table: `x <= min(f)`. */
  ghost predicate AtOrBelowBottom(f: seq<real>, x: real) {
    forall j :: 0 <= j < |f| ==> x <= f[j]
  }

  /** The rejection rule for bounds: a high bound at or above the top, or a low bound at or below the bottom. */
  ghost predicate BeyondTable(f: seq<real>, lo: Option<real>, hi: Option<real>) {
    || (hi.Some? && AtOrAboveTop(f, hi.value))
    || (lo.Some? && AtOrBelowBottom(f, lo.value))
  }

  /** Both bounds are given and the low one is not below the high one. */
  predicate OutOfOrder(lo: Option<real>, hi: Option<real>) {
    lo.Some? && hi.Some? && lo.value >= hi.value
  }

  /** The channel a low bound resolves to: the first minimum when absent, the first nearest channel when given. */
  ghost predicate IsLowChannel(f: seq<real>, lo: Option<real>, k: int) {
    match lo
    case None => IsFirstMinAt(f, k)
    case Some(t) => IsFirstNearest(f, t, k)
  }

  /** The channel a high bound resolves to: the first maximum when absent, the first nearest channel when given. */
  ghost predicate IsHighChannel(f: seq<real>, hi: Option<real>, k: int) {
    match hi
    case None => IsFirstMaxAt(f, k)
    case Some(t) => IsFirstNearest(f, t, k)
  }

  function ResolveLow(f: seq<real>, lo: Option<real>): (k: nat)
    requires |f| > 0
    ensures forall j :: IsLowChannel(f, lo, j) <==> j == k
  {
    match lo
    case None =>
      var k := ArgMin(f);
      assert forall j :: IsFirstMinAt(f, j) ==> j == k by {
        forall j | IsFirstMinAt(f, j) ensures j == k {
          FirstMinUnique(f, j, k);
        }
      }
      k
    case Some(t) =>
      var k := Nearest(f, t);
      assert forall j :: IsFirstNearest(f, t, j) ==> j == k by {
        forall j | IsFirstNearest(f, t, j) ensures j == k {
          FirstNearestUnique(f, t, j, k);
        }
      }
      k
  }

  function ResolveHigh(f: seq<real>, hi: Option<real>): (k: nat)
    requires |f| > 0
    ensures forall j :: IsHighChannel(f, hi, j) <==> j == k
  {
    match hi
    case None =>
      var k := ArgMax(f);
      assert forall j :: IsFirstMaxAt(f, j) ==> j == k by {
        forall j | IsFirstMaxAt(f, j) ensures j == k {
          FirstMaxUnique(f, j, k);
        }
      }
      k
    case Some(t) =>
      var k := Nearest(f, t);
      assert forall j :: IsFirstNearest(f, t, j) ==> j == k by {
        forall j | IsFirstNearest(f, t, j) ensures j == k {
          FirstNearestUnique(f, t, j, k);
        }
      }
      k
  }

  /** The bound check against the table extremes: `hi >= max(f)` or `lo <= min(f)`. */
  predicate RejectsBounds(maxfreq: real, minfreq: real, lo: Option<real>, hi: Option<real>) {
    (hi.Some? && hi.value >= maxfreq) || (lo.Some? && lo.value <= minfreq)
  }

  /** The swap of out-of-order channels and the inclusive count with its defensive check. */
  function OrderRange(lochan: nat, hichan: nat): (r: Result<Selection>)
    ensures r.Ok?
    ensures r.value.lochan <= r.value.hichan
    ensures r.value.nchans == r.value.hichan - r.value.lochan + 1
    ensures || (r.value.lochan == lochan && r.value.hichan == hichan)
            || (r.value.lochan == hichan && r.value.hichan == lochan)
  {
    var (l, h) := if lochan > hichan then (hichan, lochan) else (lochan, hichan);
    var n := h - l + 1;
    if n <= 0 then Err(BadChannelCount(n))
    else Ok(Selection(l, h, n))
  }

  /**
   The whole selection: validation, resolution of both bounds, the swap for
   tables stored in descending order, and the inclusive count with its
   defensive check.
   */
  function Select(f: seq<real>, lo: Option<real>, hi: Option<real>): (r: Result<Selection>)
    ensures |f| == 0 ==> r == Err(EmptyFrequencyTable)
    ensures |f| > 0 && BeyondTable(f, lo, hi) ==> r == Err(FrequencyBeyondTable)
    ensures |f| > 0 && !BeyondTable(f, lo, hi) && OutOfOrder(lo, hi) ==> r == Err(FrequenciesOutOfOrder)
    ensures r.Ok? <==> |f| > 0 && !BeyondTable(f, lo, hi) && !OutOfOrder(lo, hi)
    ensures r.Ok? ==> r.value.lochan <= r.value.hichan < |f|
    ensures r.Ok? ==> r.value.nchans == r.value.hichan - r.value.lochan + 1 >= 1
    ensures r.Err? ==> !r.error.BadChannelCount?
    ensures r.Ok? ==>
      || (IsLowChannel(f, lo, r.value.lochan) && IsHighChannel(f, hi, r.value.hichan))
      || (IsLowChannel(f, lo, r.value.hichan) && IsHighChannel(f, hi, r.value.lochan))
  {
    if |f| == 0 then Err(EmptyFrequencyTable)
    else if RejectsBounds(Max(f), Min(f), lo, hi) then Err(FrequencyBeyondTable)
    else if OutOfOrder(lo, hi) then Err(FrequenciesOutOfOrder)
    else OrderRange(ResolveLow(f, lo), ResolveHigh(f, hi))
  }

  /** With both bounds absent, a strictly monotone table is selected whole. */
  lemma {:induction false} SelectFullRange(f: seq<real>)
    requires |f| > 0 && (StrictlyIncreasing(f) || StrictlyDecreasing(f))
    ensures Select(f, None, None) == Ok(Selection(0, |f| - 1, |f|))
  {
    if StrictlyIncreasing(f) {
      IncreasingExtrema(f);
    } else {
      DecreasingExtrema(f);
    }
  }

  /**
   The bound check does not reject a low bound at or above the table maximum
   when no high bound is given: the selection is the single top channel.
   */
  lemma {:induction false} LowBoundAboveTop(f: seq<real>, x: real)
    requires |f| > 0 && x > Min(f) && AtOrAboveTop(f, x)
    ensures Select(f, Some(x), None) == Ok(Selection(ArgMax(f), ArgMax(f), 1))
  {
    var k := ArgMax(f);
    forall j | 0 <= j < |f|
      ensures Abs(f[k] - x) <= Abs(f[j] - x)
    {
      assert f[j] <= f[k] <= x;
    }
    forall j | 0 <= j < k
      ensures Abs(f[k] - x) < Abs(f[j] - x)
    {
      assert f[j] < f[k] <= x;
    }
    assert IsFirstNearest(f, x, k);
    FirstNearestUnique(f, x, Nearest(f, x), k);
  }

  /**
   The bound check does not reject a high bound at or below the table minimum
   when no low bound is given: the selection is the single bottom channel.
   */
  lemma {:induction false} HighBoundBelowBottom(f: seq<real>, x: real)
    requires |f| > 0 && x < Max(f) && AtOrBelowBottom(f, x)
    ensures Select(f, None, Some(x)) == Ok(Selection(ArgMin(f), ArgMin(f), 1))
  {
    var k := ArgMin(f);
    forall j | 0 <= j < |f|
      ensures Abs(f[k] - x) <= Abs(f[j] - x)
    {
      assert x <= f[k] <= f[j];
    }
    forall j | 0 <= j < k
      ensures Abs(f[k] - x) < Abs(f[j] - x)
    {
      assert x <= f[k] < f[j];
    }
    assert IsFirstNearest(f, x, k);
    FirstNearestUnique(f, x, Nearest(f, x), k);
  }

  /** Exactly one channel qualifies for the low bound. */
  ghost predicate LowUntied(f: seq<real>, lo: Option<real>) {
    match lo
    case None => UniqueMin(f)
    case Some(t) => UniqueNearest(f, t)
  }

  /** Exactly one channel qualifies for the high bound. */
  ghost predicate HighUntied(f: seq<real>, hi: Option<real>) {
    match hi
    case None => UniqueMax(f)
    case Some(t) => UniqueNearest(f, t)
  }

  /** Every bound resolves to exactly one channel: no extremum or nearest-channel ties. */
  ghost predicate NoTies(f: seq<real>, lo: Option<real>, hi: Option<real>) {
    LowUntied(f, lo) && HighUntied(f, hi)
  }

  lemma {:induction false} ResolveLowReverse(f: seq<real>, lo: Option<real>)
    requires |f| > 0 && LowUntied(f, lo)
    ensures ResolveLow(Reverse(f), lo) == |f| - 1 - ResolveLow(f, lo)
  {
    match lo {
      case None => ArgMinReverse(f);
      case Some(t) => NearestReverse(f, t);
    }
  }

  lemma {:induction false} ResolveHighReverse(f: seq<real>, hi: Option<real>)
    requires |f| > 0 && HighUntied(f, hi)
    ensures ResolveHigh(Reverse(f), hi) == |f| - 1 - ResolveHigh(f, hi)
  {
    match hi {
      case None => ArgMaxReverse(f);
      case Some(t) => NearestReverse(f, t);
    }
  }

  /** The mirrored range of the reversed table holds the channels of `f[l..h+1]` in reverse. */
  lemma ReverseRange(f: seq<real>, l: nat, h: nat)
    requires l <= h < |f|
    ensures Reverse(f)[|f| - 1 - h..|f| - l] == Reverse(f[l..h + 1])
  {
    var a, b := Reverse(f)[|f| - 1 - h..|f| - l], Reverse(f[l..h + 1]);
    assert |a| == |b|;
    forall i | 0 <= i < |a|
      ensures a[i] == b[i]
    {
      assert a[i] == f[h - i];
    }
  }

  /** Ordering the mirrored channel pair gives the mirrored range. */
  lemma OrderRangeMirror(a: nat, b: nat, n: nat)
    requires a < n && b < n
    ensures OrderRange(n - 1 - a, n - 1 - b).value.lochan == n - 1 - OrderRange(a, b).value.hichan
    ensures OrderRange(n - 1 - a, n - 1 - b).value.hichan == n - 1 - OrderRange(a, b).value.lochan
  {
  }

  /** A successful selection is the ordered pair of resolved channels. */
  lemma SelectIsOrderRange(f: seq<real>, lo: Option<real>, hi: Option<real>)
    requires Select(f, lo, hi).Ok?
    ensures |f| > 0 && Select(f, lo, hi) == OrderRange(ResolveLow(f, lo), ResolveHigh(f, hi))
  {
  }

  /** Without ties, a selection that succeeds on `f` succeeds on the reversed table with the mirrored range. */
  lemma {:induction false} SelectReverseOk(f: seq<real>, lo: Option<real>, hi: Option<real>)
    requires NoTies(f, lo, hi) && Select(f, lo, hi).Ok?
    ensures Select(Reverse(f), lo, hi).Ok?
    ensures Select(Reverse(f), lo, hi).value.lochan == |f| - 1 - Select(f, lo, hi).value.hichan
    ensures Select(Reverse(f), lo, hi).value.hichan == |f| - 1 - Select(f, lo, hi).value.lochan
  {
    var g, n := Reverse(f), |f|;
    var a, b := ResolveLow(f, lo), ResolveHigh(f, hi);
    SelectReverseErrors(f, lo, hi);
    SelectIsOrderRange(f, lo, hi);
    SelectIsOrderRange(g, lo, hi);
    ResolveLowReverse(f, lo);
    ResolveHighReverse(f, hi);
    OrderRangeMirror(a, b, n);
  }

  /**
   Whether a request fails, and with which error, does not depend on the
   storage orientation, ties or not: the checks only see the table's minimum
   and maximum.
   */
  lemma {:induction false} SelectReverseErrors(f: seq<real>, lo: Option<real>, hi: Option<real>)
    ensures Select(Reverse(f), lo, hi).Ok? <==> Select(f, lo, hi).Ok?
    ensures Select(f, lo, hi).Err? ==> Select(Reverse(f), lo, hi) == Select(f, lo, hi)
  {
    if |f| > 0 {
      var g := Reverse(f);
      MinReverse(f);
      MaxReverse(f);
      assert Select(f, lo, hi).Ok? == (!RejectsBounds(Max(f), Min(f), lo, hi) && !OutOfOrder(lo, hi));
      assert Select(g, lo, hi).Ok? == (!RejectsBounds(Max(g), Min(g), lo, hi) && !OutOfOrder(lo, hi));
    }
  }

  /**
   Without ties the selection does not depend on the storage orientation: the
   same requests fail on the reversed table (`SelectReverseErrors`), and the
   others select the mirrored range, which by `ReverseRange` holds the same
   channels in reverse order.
   */
  lemma {:induction false} SelectReverse(f: seq<real>, lo: Option<real>, hi: Option<real>)
    requires NoTies(f, lo, hi)
    ensures Select(Reverse(f), lo, hi).Ok? <==> Select(f, lo, hi).Ok?
    ensures Select(f, lo, hi).Err? ==> Select(Reverse(f), lo, hi) == Select(f, lo, hi)
    ensures Select(f, lo, hi).Ok? ==>
      var fwd, rev := Select(f, lo, hi).value, Select(Reverse(f), lo, hi).value;
      && rev.lochan == |f| - 1 - fwd.hichan
      && rev.hichan == |f| - 1 - fwd.lochan
      && rev.nchans == fwd.nchans
  {
    SelectReverseErrors(f, lo, hi);
    if Select(f, lo, hi).Ok? {
      SelectReverseOk(f, lo, hi);
    }
  }

  /** A descending table: the low bound 98.4 MHz resolves to channel 2 (98 MHz), the absent high bound to channel 0. */
  lemma DescendingTableExample()
    ensures Select([100.0, 99.0, 98.0, 97.0], Some(98.4), None) == Ok(Selection(0, 2, 3))
  {
    var f := [100.0, 99.0, 98.0, 97.0];
    assert IsLowChannel(f, Some(98.4), 2);
    assert IsHighChannel(f, None, 0);
  }

  /**
   A nearest-channel tie: 1.5 MHz is equally far from 1 MHz and 2 MHz, and the
   first of them in storage order wins. In ascending order that is 1 MHz, so
   the cut keeps all three channels.
   */
  lemma TieInAscendingTable()
    ensures Select([1.0, 2.0, 3.0], Some(1.5), None) == Ok(Selection(0, 2, 3))
  {
    var f := [1.0, 2.0, 3.0];
    assert IsLowChannel(f, Some(1.5), 0);
    assert IsHighChannel(f, None, 2);
    assert Max(f) == 3.0 && Min(f) == 1.0;
    assert Select(f, Some(1.5), None) == OrderRange(0, 2);
  }

  /**
   The same tie with the channels stored descending: 2 MHz now comes first and
   wins, so the cut drops the 1 MHz channel. `SelectReverse` needs its no-tie
   premise.
   */
  lemma TieInDescendingTable()
    ensures Select([3.0, 2.0, 1.0], Some(1.5), None) == Ok(Selection(0, 1, 2))
  {
    var f := [3.0, 2.0, 1.0];
    assert IsLowChannel(f, Some(1.5), 1);
    assert IsHighChannel(f, None, 0);
    assert Max(f) == 3.0 && Min(f) == 1.0;
    assert Select(f, Some(1.5), None) == OrderRange(1, 0);
  }
}
