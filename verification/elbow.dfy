/** The elbow heuristic of `elbow_method`: build the inertia curve for
    k = 1..10, then scan its interior points for the first one whose
    drop ratio exceeds 0.1. The KMeans fits are outside the model; the
    inertia each fit reports is a parameter. */
module Elbow {
  import opened Wrappers

  /** Number of candidate cluster counts tried, k = 1..KMax. */
  const KMax: nat := 10

  /** A point is the elbow when its drop ratio exceeds this value. */
  const Threshold: real := 0.1

  /** Why `elbow_method` raises: a candidate fit raised (KMeans rejects more
      clusters than rows), or the drop after interior point `index` is zero. */
  datatype Error = FitError(clusters: nat) | ZeroDivisionError(index: nat)

  datatype Result<T> = Ok(value: T) | Err(error: Error)

  /** The curve the fitting loop has built after the fits for k = 1..n, or the first fit that raised. */
  function CurvePrefix(inertia: nat -> Option<real>, n: nat): Result<seq<real>>
    decreases n
  {
    if n == 0 then Ok([])
    else match CurvePrefix(inertia, n - 1)
      case Err(e) => Err(e)
      case Ok(c) => if inertia(n).None? then Err(FitError(n)) else Ok(c + [inertia(n).value])
  }

  /** The curve the fitting loop builds: entry j holds the inertia for k = j + 1. */
  function InertiaCurve(inertia: nat -> Option<real>): Result<seq<real>>
  {
    CurvePrefix(inertia, KMax)
  }

  /** The fits for k = 1..n succeed exactly when none of them raises; the curve then lists
      their inertias in increasing k, and otherwise the error names the first fit that raised. */
  lemma {:induction false} CurvePrefixOutcome(inertia: nat -> Option<real>, n: nat)
    ensures CurvePrefix(inertia, n).Ok? <==> forall k :: 1 <= k <= n ==> inertia(k).Some?
    ensures CurvePrefix(inertia, n).Ok? ==>
              |CurvePrefix(inertia, n).value| == n
              && forall j :: 0 <= j < n ==> CurvePrefix(inertia, n).value[j] == inertia(j + 1).value
    ensures CurvePrefix(inertia, n).Err? ==>
              CurvePrefix(inertia, n).error.FitError?
              && 1 <= CurvePrefix(inertia, n).error.clusters <= n
              && inertia(CurvePrefix(inertia, n).error.clusters).None?
              && forall k :: 1 <= k < CurvePrefix(inertia, n).error.clusters ==> inertia(k).Some?
    decreases n
  {
    if n > 0 {
      CurvePrefixOutcome(inertia, n - 1);
    }
  }

  /** The append loop that fits k = 1..KMax clusters in increasing order, stopping at a fit that raises. */
  method BuildCurve(inertia: nat -> Option<real>) returns (r: Result<seq<real>>)
    ensures r == InertiaCurve(inertia)
    ensures r.Ok? ==> |r.value| == KMax && forall j :: 0 <= j < KMax ==> r.value[j] == inertia(j + 1).value
    ensures r.Ok? <==> forall k :: 1 <= k <= KMax ==> inertia(k).Some?
  {
    var clusters := [];
    for k := 1 to KMax + 1
      invariant CurvePrefix(inertia, k - 1) == Ok(clusters)
    {
      var fit := inertia(k);
      if fit.None? {
        return Err(FitError(k));
      }
      clusters := clusters + [fit.value];
    }
    r := Ok(clusters);
    CurvePrefixOutcome(inertia, KMax);
  }

  /** The inertia drop after point i: the denominator of its ratio. */
  function DropAfter(c: seq<real>, i: nat): real
    requires i + 1 < |c|
  {
    c[i] - c[i + 1]
  }

  /** The drop before interior point i over the drop after it. */
  function Ratio(c: seq<real>, i: nat): real
    requires 1 <= i && i + 1 < |c| && DropAfter(c, i) != 0.0
  {
    (c[i - 1] - c[i]) / DropAfter(c, i)
  }

  /** The scan moves on past interior point j: its ratio is defined and at most the threshold. */
  predicate Passes(c: seq<real>, j: nat)
    requires 1 <= j && j + 1 < |c|
  {
    DropAfter(c, j) != 0.0 && Ratio(c, j) <= Threshold
  }

  /** Interior point j has a defined ratio above the threshold. */
  predicate Exceeds(c: seq<real>, j: nat)
    requires 1 <= j && j + 1 < |c|
  {
    DropAfter(c, j) != 0.0 && !Passes(c, j)
  }

  /** i is an interior point that exceeds the threshold and every interior point before it passes. */
  predicate IsFirstElbow(c: seq<real>, i: int)
  {
    1 <= i && i + 1 < |c| && Exceeds(c, i) && forall j :: 1 <= j < i ==> Passes(c, j)
  }

  /** Every interior point passes: the scan runs to the end without a match. */
  predicate NoElbow(c: seq<real>)
  {
    forall j :: 1 <= j && j + 1 < |c| ==> Passes(c, j)
  }

  /** The scan reaches interior point i and finds a zero drop after it. */
  predicate FirstZeroDrop(c: seq<real>, i: int)
  {
    1 <= i && i + 1 < |c| && DropAfter(c, i) == 0.0 && forall j :: 1 <= j < i ==> Passes(c, j)
  }

  /** The scan from interior point i on: the elbow index, -1 when none matches, or the fault. */
  function ScanFrom(c: seq<real>, i: nat): Result<int>
    requires 1 <= i
    decreases |c| - i
  {
    if i + 1 >= |c| then Ok(-1)
    else if DropAfter(c, i) == 0.0 then Err(ZeroDivisionError(i))
    else if Ratio(c, i) > Threshold then Ok(i)
    else ScanFrom(c, i + 1)
  }

  /** The value of `elbow_index` after the scan over `range(1, len(c) - 1)`. */
  function ElbowIndex(c: seq<real>): Result<int>
  {
    ScanFrom(c, 1)
  }

  /** The count `elbow_method` returns: `elbow_index + 1`. */
  function OptimalClusters(c: seq<real>): Result<int>
  {
    match ElbowIndex(c)
    case Ok(i) => Ok(i + 1)
    case Err(e) => Err(e)
  }

  /** What a scan started at s can produce, and what it says about the points it passed. */
  lemma {:induction false} ScanFromOutcome(c: seq<real>, s: nat)
    requires 1 <= s
    ensures match ScanFrom(c, s)
            case Ok(v) =>
              (v == -1 && forall j :: s <= j && j + 1 < |c| ==> Passes(c, j))
              || (s <= v && v + 1 < |c| && Exceeds(c, v) && forall j :: s <= j < v ==> Passes(c, j))
            case Err(e) =>
              e.ZeroDivisionError?
              && s <= e.index && e.index + 1 < |c| && DropAfter(c, e.index) == 0.0 && !Passes(c, e.index)
              && forall j :: s <= j < e.index ==> Passes(c, j)
    decreases |c| - s
  {
    if s + 1 < |c| && DropAfter(c, s) != 0.0 && Ratio(c, s) <= Threshold {
      ScanFromOutcome(c, s + 1);
    }
  }

  /** First match: the scan stops at i exactly when i is the first interior point above the threshold. */
  lemma ElbowIndexIsFirstMatch(c: seq<real>, i: int)
    requires i != -1
    ensures ElbowIndex(c) == Ok(i) <==> IsFirstElbow(c, i)
  {
    ScanFromOutcome(c, 1);
  }

  /** No match: `elbow_index` stays -1 exactly when every interior ratio is defined and at most 0.1. */
  lemma ElbowIndexNoMatch(c: seq<real>)
    ensures ElbowIndex(c) == Ok(-1) <==> NoElbow(c)
  {
    ScanFromOutcome(c, 1);
  }

  /** The division at point i faults exactly when the scan reaches i and the drop after it is zero. */
  lemma ElbowIndexFault(c: seq<real>, i: nat)
    ensures ElbowIndex(c) == Err(ZeroDivisionError(i)) <==> FirstZeroDrop(c, i)
  {
    ScanFromOutcome(c, 1);
    if FirstZeroDrop(c, i) {
      assert !Passes(c, i);
    }
  }

  /** `elbow_index` is -1 or an interior index in [1, len(c) - 2]. */
  lemma ElbowIndexRange(c: seq<real>)
    ensures ElbowIndex(c).Ok? ==> ElbowIndex(c).value == -1 || 1 <= ElbowIndex(c).value <= |c| - 2
  {
    ScanFromOutcome(c, 1);
  }

  /** A nonzero drop is needed only up to the first point above the threshold: zero drops after it never fault. */
  lemma NonZeroPrefixSuffices(c: seq<real>, m: nat)
    requires 1 <= m && m + 1 < |c|
    requires forall j :: 1 <= j < m ==> DropAfter(c, j) != 0.0
    requires Exceeds(c, m)
    ensures ElbowIndex(c).Ok?
    ensures 1 <= ElbowIndex(c).value <= m
  {
    ScanFromOutcome(c, 1);
  }

  /** Once the first match is i, the entries after i + 1 are never read: any curve with the same prefix gives i. */
  lemma ElbowDependsOnlyOnPrefix(c: seq<real>, d: seq<real>, i: nat)
    requires IsFirstElbow(c, i)
    requires i + 2 <= |d| && c[..i + 2] == d[..i + 2]
    ensures ElbowIndex(d) == Ok(i)
  {
    forall j | 0 <= j < i + 2
      ensures c[j] == d[j]
    {
      assert c[..i + 2][j] == d[..i + 2][j];
    }
    forall j | 1 <= j <= i
      ensures DropAfter(d, j) == DropAfter(c, j) && Passes(d, j) == Passes(c, j)
    {
    }
    ElbowIndexIsFirstMatch(d, i);
  }

  /** On the 10-entry curve the returned count is 0 when nothing matches, and otherwise the first elbow plus one, in [2, 9]. */
  lemma OptimalClustersOnCurve(c: seq<real>)
    requires |c| == KMax
    ensures OptimalClusters(c).Ok? ==>
              (OptimalClusters(c).value == 0 <==> NoElbow(c))
              && (OptimalClusters(c).value != 0 ==>
                    2 <= OptimalClusters(c).value <= KMax - 1
                    && IsFirstElbow(c, OptimalClusters(c).value - 1))
    ensures forall i :: ElbowIndex(c) == Err(ZeroDivisionError(i)) ==> OptimalClusters(c) == Err(ZeroDivisionError(i))
  {
    ScanFromOutcome(c, 1);
    ElbowIndexNoMatch(c);
  }

  /** The first-match scan with its `break`, as the loop of `elbow_method` runs it. */
  method ScanElbow(clusters: seq<real>) returns (r: Result<int>)
    ensures r == ElbowIndex(clusters)
  {
    var elbowIndex := -1;
    var i := 1;
    while i < |clusters| - 1
      invariant 1 <= i
      invariant ScanFrom(clusters, i) == ElbowIndex(clusters)
    {
      var drop := clusters[i] - clusters[i + 1];
      if drop == 0.0 {
        return Err(ZeroDivisionError(i));
      }
      if (clusters[i - 1] - clusters[i]) / drop > Threshold {
        elbowIndex := i;
        break;
      }
      i := i + 1;
    }
    r := Ok(elbowIndex);
  }

  /** The count `elbow_method` returns for the given fits, or the error it raises. */
  function ElbowCount(inertia: nat -> Option<real>): Result<int>
  {
    match InertiaCurve(inertia)
    case Err(e) => Err(e)
    case Ok(c) => OptimalClusters(c)
  }

  /** `elbow_method`: fit k = 1..10, scan, and return `elbow_index + 1`. */
  method ElbowMethod(inertia: nat -> Option<real>) returns (optimal: Result<int>)
    ensures optimal == ElbowCount(inertia)
    ensures optimal.Ok? ==> optimal.value == 0 || 2 <= optimal.value <= KMax - 1
  {
    var curve := BuildCurve(inertia);
    if curve.Err? {
      return Err(curve.error);
    }
    var clusters := curve.value;
    var scan := ScanElbow(clusters);
    match scan {
      case Ok(elbowIndex) =>
        optimal := Ok(elbowIndex + 1);
      case Err(e) =>
        optimal := Err(e);
    }
    ElbowIndexRange(clusters);
  }
}
