/** The naive segmenter shared by segment_line (columns) and segment_document
    (rows): every closed zero-run of the profile (one followed by a non-zero
    value) yields the floor of its first and last index averaged; those
    midpoints are tagged start, end, start, end, ... and paired positionally. */
module GapMidpoints {

  /** Start of the zero-run that contains index j. */
  function ZeroRunStart(p: seq<int>, j: nat): (f: nat)
    requires j < |p| && p[j] == 0
    ensures f <= j
    ensures forall i :: f <= i <= j ==> p[i] == 0
    ensures f == 0 || p[f - 1] != 0
    decreases j
  {
    if j == 0 || p[j - 1] != 0 then j else ZeroRunStart(p, j - 1)
  }

  /** Index i is the first non-zero value after a zero: the zero-run ending at i - 1 closes. */
  predicate ClosesGap(p: seq<int>, i: int) {
    0 < i < |p| && p[i] != 0 && p[i - 1] == 0
  }

  /** The midpoint of the zero-run closed at i: first = run start, second = i - 1. */
  function GapMidpoint(p: seq<int>, i: int): nat
    requires ClosesGap(p, i)
  {
    (ZeroRunStart(p, i - 1) + (i - 1)) / 2
  }

  /** Midpoints of the gaps closed within the first n entries, in scan order. */
  function Mids(p: seq<int>, n: nat): seq<nat>
    requires n <= |p|
  {
    if n == 0 then []
    else Mids(p, n - 1) + (if ClosesGap(p, n - 1) then [GapMidpoint(p, n - 1)] else [])
  }

  function Midpoints(p: seq<int>): seq<nat> {
    Mids(p, |p|)
  }

  /** The midpoints tagged "start": positions 0, 2, 4, ... */
  function Evens(m: seq<nat>): (r: seq<nat>)
    ensures |r| == (|m| + 1) / 2
  {
    seq((|m| + 1) / 2, k requires 0 <= k < (|m| + 1) / 2 => m[2 * k])
  }

  /** The midpoints tagged "end": positions 1, 3, 5, ... */
  function Odds(m: seq<nat>): (r: seq<nat>)
    ensures |r| == |m| / 2
  {
    seq(|m| / 2, k requires 0 <= k < |m| / 2 => m[2 * k + 1])
  }

  function Starts(p: seq<int>): seq<nat> { Evens(Midpoints(p)) }

  function Ends(p: seq<int>): seq<nat> { Odds(Midpoints(p)) }

  /** A maximal zero-run [first, second] that a non-zero value follows. */
  predicate IsClosedGap(p: seq<int>, first: int, second: int) {
    0 <= first <= second && second + 1 < |p| &&
    (first == 0 || p[first - 1] != 0) &&
    (forall i :: first <= i <= second ==> p[i] == 0) &&
    p[second + 1] != 0
  }

  lemma EvensOddsAppend(m: seq<nat>, x: nat)
    ensures |m| % 2 == 0 ==> Evens(m + [x]) == Evens(m) + [x] && Odds(m + [x]) == Odds(m)
    ensures |m| % 2 == 1 ==> Evens(m + [x]) == Evens(m) && Odds(m + [x]) == Odds(m) + [x]
  {
    var m' := m + [x];
    if |m| % 2 == 0 {
      assert Evens(m') == Evens(m) + [x] by {
        forall k | 0 <= k < |Evens(m')| ensures Evens(m')[k] == (Evens(m) + [x])[k] {
          if k < |Evens(m)| { assert 2 * k < |m|; } else { assert 2 * k == |m|; }
        }
      }
      assert Odds(m') == Odds(m) by {
        forall k | 0 <= k < |Odds(m')| ensures Odds(m')[k] == Odds(m)[k] {
          assert 2 * k + 1 < |m|;
        }
      }
    } else {
      assert Evens(m') == Evens(m) by {
        forall k | 0 <= k < |Evens(m')| ensures Evens(m')[k] == Evens(m)[k] {
          assert 2 * k < |m|;
        }
      }
      assert Odds(m') == Odds(m) + [x] by {
        forall k | 0 <= k < |Odds(m')| ensures Odds(m')[k] == (Odds(m) + [x])[k] {
          if k < |Odds(m)| { assert 2 * k + 1 < |m|; } else { assert 2 * k + 1 == |m|; }
        }
      }
    }
  }

  /** The scan loop: selected is true inside a zero-run, first is its start,
      is_start says whether the next midpoint opens or closes a pair. */
  method ScanGapMidpoints(p: seq<int>) returns (start: seq<nat>, end: seq<nat>)
    ensures start == Starts(p) && end == Ends(p)
  {
    start, end := [], [];
    var isStart := true;
    var selected := false;
    var first: nat := 0;
    var second: nat := 0;
    for index := 0 to |p|
      invariant selected == (index > 0 && p[index - 1] == 0)
      invariant selected ==> first == ZeroRunStart(p, index - 1)
      invariant isStart == (|Mids(p, index)| % 2 == 0)
      invariant start == Evens(Mids(p, index)) && end == Odds(Mids(p, index))
    {
      if p[index] == 0 && !selected {
        first := index;
        selected := true;
      } else if selected && p[index] != 0 {
        second := index - 1;
        var mid := (first + second) / 2;
        selected := false;
        EvensOddsAppend(Mids(p, index), mid);
        if isStart {
          start := start + [mid];
          isStart := false;
        } else {
          end := end + [mid];
          isStart := true;
        }
      }
    }
  }

  /** Each midpoint found in the first n entries lies on a zero before n - 1. */
  lemma {:induction false} MidsOnZeros(p: seq<int>, n: nat)
    requires n <= |p|
    ensures forall k :: 0 <= k < |Mids(p, n)| ==> Mids(p, n)[k] + 1 < n && p[Mids(p, n)[k]] == 0
  {
    if n > 0 {
      MidsOnZeros(p, n - 1);
    }
  }

  /** Some index strictly between lo and hi holds a non-zero value. */
  predicate ContentBetween(p: seq<int>, lo: int, hi: int) {
    exists c :: lo < c < hi && 0 <= c < |p| && p[c] != 0
  }

  /** A non-zero value (the one that closed its gap) follows the last midpoint. */
  lemma {:induction false} MidsClosed(p: seq<int>, n: nat)
    requires n <= |p| && |Mids(p, n)| > 0
    ensures ContentBetween(p, Mids(p, n)[|Mids(p, n)| - 1], n)
  {
    var M := Mids(p, n);
    if ClosesGap(p, n - 1) {
      assert M[|M| - 1] == GapMidpoint(p, n - 1) < n - 1 && p[n - 1] != 0;
    } else {
      assert M == Mids(p, n - 1);
      MidsClosed(p, n - 1);
      var c :| M[|M| - 1] < c < n - 1 && 0 <= c < |p| && p[c] != 0;
      assert M[|M| - 1] < c < n;
    }
  }

  /** When the gap closed at n - 1 adds a midpoint, a non-zero value lies
      between the previous midpoint and the new one. */
  lemma NewMidAfterContent(p: seq<int>, n: nat)
    requires 0 < n <= |p| && ClosesGap(p, n - 1) && |Mids(p, n - 1)| > 0
    ensures ContentBetween(p, Mids(p, n - 1)[|Mids(p, n - 1)| - 1], GapMidpoint(p, n - 1))
  {
    var m := Mids(p, n - 1);
    MidsClosed(p, n - 1);
    var c :| m[|m| - 1] < c < n - 1 && 0 <= c < |p| && p[c] != 0;
    assert c < ZeroRunStart(p, n - 2);
  }

  /** The midpoints strictly increase. */
  lemma {:induction false} MidsIncreasing(p: seq<int>, n: nat)
    requires n <= |p|
    ensures forall j, k :: 0 <= j < k < |Mids(p, n)| ==> Mids(p, n)[j] < Mids(p, n)[k]
  {
    if n > 0 {
      MidsIncreasing(p, n - 1);
      var m := Mids(p, n - 1);
      if ClosesGap(p, n - 1) && |m| > 0 {
        NewMidAfterContent(p, n);
        var x := GapMidpoint(p, n - 1);
        assert Mids(p, n) == m + [x];
        forall k | 0 <= k < |m| ensures m[k] < x {
          assert m[k] <= m[|m| - 1];
        }
      }
    }
  }

  /** A non-zero value separates each midpoint from the next. */
  lemma {:induction false} MidsSeparated(p: seq<int>, n: nat)
    requires n <= |p|
    ensures forall k :: 0 <= k < |Mids(p, n)| - 1 ==> ContentBetween(p, Mids(p, n)[k], Mids(p, n)[k + 1])
  {
    if n > 0 {
      MidsSeparated(p, n - 1);
      var m := Mids(p, n - 1);
      var M := Mids(p, n);
      if ClosesGap(p, n - 1) && |m| > 0 {
        NewMidAfterContent(p, n);
        assert M == m + [GapMidpoint(p, n - 1)];
        forall k | 0 <= k < |M| - 1 ensures ContentBetween(p, M[k], M[k + 1]) {
          if k < |m| - 1 {
            assert M[k] == m[k] && M[k + 1] == m[k + 1];
          }
        }
      }
    }
  }

  /** The shape of all midpoints together. */
  lemma MidsOrdered(p: seq<int>, n: nat)
    requires n <= |p|
    ensures forall k :: 0 <= k < |Mids(p, n)| ==> Mids(p, n)[k] + 1 < n && p[Mids(p, n)[k]] == 0
    ensures forall j, k :: 0 <= j < k < |Mids(p, n)| ==> Mids(p, n)[j] < Mids(p, n)[k]
    ensures forall k :: 0 <= k < |Mids(p, n)| - 1 ==> ContentBetween(p, Mids(p, n)[k], Mids(p, n)[k + 1])
    ensures |Mids(p, n)| > 0 ==> ContentBetween(p, Mids(p, n)[|Mids(p, n)| - 1], n)
  {
    MidsOnZeros(p, n);
    MidsIncreasing(p, n);
    MidsSeparated(p, n);
    if |Mids(p, n)| > 0 {
      MidsClosed(p, n);
    }
  }

  /** Every closing index up to n contributes its gap's midpoint. */
  lemma {:induction false} MidsComplete(p: seq<int>, i: nat, n: nat)
    requires i < n <= |p| && ClosesGap(p, i)
    ensures GapMidpoint(p, i) in Mids(p, n)
  {
    if i < n - 1 {
      MidsComplete(p, i, n - 1);
    }
  }

  /** Every element of Mids(p, n) is the midpoint of a gap closed before n. */
  lemma {:induction false} MidsSound(p: seq<int>, n: nat, x: nat)
    requires n <= |p| && x in Mids(p, n)
    ensures exists i :: 0 < i < n && ClosesGap(p, i) && x == GapMidpoint(p, i)
  {
    if x !in Mids(p, n - 1) {
      assert ClosesGap(p, n - 1) && x == GapMidpoint(p, n - 1);
    } else {
      MidsSound(p, n - 1, x);
    }
  }

  lemma {:induction false} ZeroRunStartIsFirst(p: seq<int>, first: nat, j: nat)
    requires first <= j < |p|
    requires first == 0 || p[first - 1] != 0
    requires forall i :: first <= i <= j ==> p[i] == 0
    ensures ZeroRunStart(p, j) == first
    decreases j
  {
    if j > first {
      ZeroRunStartIsFirst(p, first, j - 1);
    }
  }

  /** The midpoints are exactly the floored midpoints of the closed zero-runs:
      every closed run contributes one, and every midpoint comes from one. */
  lemma MidpointsAreClosedGapMidpoints(p: seq<int>)
    ensures forall first, second :: IsClosedGap(p, first, second) ==> (first + second) / 2 in Midpoints(p)
    ensures forall x :: x in Midpoints(p) ==>
              exists first, second :: IsClosedGap(p, first, second) && x == (first + second) / 2
  {
    forall first, second | IsClosedGap(p, first, second)
      ensures (first + second) / 2 in Midpoints(p)
    {
      ZeroRunStartIsFirst(p, first, second);
      MidsComplete(p, second + 1, |p|);
    }
    forall x | x in Midpoints(p)
      ensures exists first, second :: IsClosedGap(p, first, second) && x == (first + second) / 2
    {
      MidsSound(p, |p|, x);
      var i :| 0 < i < |p| && ClosesGap(p, i) && x == GapMidpoint(p, i);
      assert IsClosedGap(p, ZeroRunStart(p, i - 1), i - 1);
    }
  }

  /** The profile is 0 at every midpoint, and each midpoint is followed by a
      non-zero value (the one that closed its gap). */
  lemma MidpointsOnGaps(p: seq<int>)
    ensures forall x :: x in Midpoints(p) ==> x + 1 < |p| && p[x] == 0
  {
    MidsOrdered(p, |p|);
  }

  /** Tags alternate strictly: there are as many starts as ends, or one more. */
  lemma StartsAndEndsAlternate(p: seq<int>)
    ensures |Starts(p)| == |Ends(p)| || |Starts(p)| == |Ends(p)| + 1
    ensures |Starts(p)| + |Ends(p)| == |Midpoints(p)|
  {
  }

  /** Splitting a strictly increasing sequence into its even and odd
      positions gives pairs that are ordered and do not overlap. */
  lemma EvensOddsOrdered(m: seq<nat>)
    requires forall j, k :: 0 <= j < k < |m| ==> m[j] < m[k]
    ensures forall k :: 0 <= k < |Odds(m)| ==> Evens(m)[k] < Odds(m)[k]
    ensures forall k :: 0 <= k < |Odds(m)| && k + 1 < |Evens(m)| ==> Odds(m)[k] < Evens(m)[k + 1]
    ensures forall j, k :: 0 <= j < k < |Odds(m)| ==> Odds(m)[j] < Evens(m)[k]
  {
    forall k | 0 <= k < |Odds(m)| ensures Evens(m)[k] < Odds(m)[k] {
      assert Evens(m)[k] == m[2 * k] && Odds(m)[k] == m[2 * k + 1];
    }
    forall k | 0 <= k < |Odds(m)| && k + 1 < |Evens(m)| ensures Odds(m)[k] < Evens(m)[k + 1] {
      assert Odds(m)[k] == m[2 * k + 1] && Evens(m)[k + 1] == m[2 * k + 2];
    }
    forall j, k | 0 <= j < k < |Odds(m)| ensures Odds(m)[j] < Evens(m)[k] {
      assert Odds(m)[j] == m[2 * j + 1] && Evens(m)[k] == m[2 * k];
    }
  }

  /** The k-th pair starts before it ends, both on zeros of the profile, and
      ends before the (k+1)-th pair starts. */
  lemma PairsOrdered(p: seq<int>)
    ensures forall k :: 0 <= k < |Ends(p)| ==> Starts(p)[k] < Ends(p)[k]
    ensures forall k :: 0 <= k < |Starts(p)| ==> Starts(p)[k] < |p| && p[Starts(p)[k]] == 0
    ensures forall k :: 0 <= k < |Ends(p)| ==> Ends(p)[k] < |p| && p[Ends(p)[k]] == 0
    ensures forall k :: 0 <= k < |Ends(p)| && k + 1 < |Starts(p)| ==> Ends(p)[k] < Starts(p)[k + 1]
    ensures forall j, k :: 0 <= j < k < |Ends(p)| ==> Ends(p)[j] < Starts(p)[k]
  {
    var m := Midpoints(p);
    MidsOrdered(p, |p|);
    EvensOddsOrdered(m);
    forall k | 0 <= k < |Starts(p)| ensures Starts(p)[k] < |p| && p[Starts(p)[k]] == 0 {
      assert Starts(p)[k] == m[2 * k];
    }
    forall k | 0 <= k < |Ends(p)| ensures Ends(p)[k] < |p| && p[Ends(p)[k]] == 0 {
      assert Ends(p)[k] == m[2 * k + 1];
    }
  }

  /** Content between an end midpoint and the next start midpoint is skipped:
      it holds a non-zero index that lies inside no emitted pair. */
  lemma SkippedContent(p: seq<int>, k: nat)
    requires k < |Ends(p)| && k + 1 < |Starts(p)|
    ensures exists c :: Ends(p)[k] < c < Starts(p)[k + 1] && c < |p| && p[c] != 0 &&
              forall j :: 0 <= j < |Ends(p)| ==> !(Starts(p)[j] <= c <= Ends(p)[j])
  {
    var m := Midpoints(p);
    MidsSeparated(p, |p|);
    PairsOrdered(p);
    var e, s := Ends(p), Starts(p);
    assert e[k] == m[2 * k + 1] && s[k + 1] == m[2 * k + 2];
    assert ContentBetween(p, m[2 * k + 1], m[2 * k + 2]);
    var c :| m[2 * k + 1] < c < m[2 * k + 2] && 0 <= c < |p| && p[c] != 0;
    forall j | 0 <= j < |e| ensures !(s[j] <= c <= e[j]) {
      if j < k {
        assert e[j] < s[k] < e[k];
      } else if j > k + 1 {
        assert s[k + 1] < e[k + 1] < s[j];
      }
    }
  }

  /** A profile made of zeros, then non-zero values, then zeros (either part
      possibly empty; all zero included) closes at most one gap, so it yields
      no pair. */
  lemma SingleRunGivesNoPairs(p: seq<int>, a: nat, b: nat)
    requires a <= b <= |p|
    requires forall i :: 0 <= i < a ==> p[i] == 0
    requires forall i :: a <= i < b ==> p[i] != 0
    requires forall i :: b <= i < |p| ==> p[i] == 0
    ensures |Midpoints(p)| <= 1
    ensures Ends(p) == []
  {
    SingleRunMids(p, a, b, |p|);
  }

  lemma {:induction false} SingleRunMids(p: seq<int>, a: nat, b: nat, n: nat)
    requires a <= b <= |p| && n <= |p|
    requires forall i :: 0 <= i < a ==> p[i] == 0
    requires forall i :: a <= i < b ==> p[i] != 0
    requires forall i :: b <= i < |p| ==> p[i] == 0
    ensures |Mids(p, n)| <= if n > a then 1 else 0
  {
    if n > 0 {
      SingleRunMids(p, a, b, n - 1);
      if ClosesGap(p, n - 1) {
        assert n - 1 == a;
      }
    }
  }

  /** Zeros appended after the profile form an unclosed run: no new midpoint. */
  lemma {:induction false} TrailingZerosIgnored(p: seq<int>, z: seq<int>)
    requires forall i :: 0 <= i < |z| ==> z[i] == 0
    ensures Midpoints(p + z) == Midpoints(p)
  {
    var q := p + z;
    assert q[..|p|] == p[..|p|];
    MidsPrefix(p, q, |p|);
    for n := |p| to |q|
      invariant Mids(q, n) == Mids(p, |p|)
    {
      assert !ClosesGap(q, n) by { assert q[n] == z[n - |p|]; }
    }
  }

  /** Mids(p, n) depends only on the first n entries. */
  lemma {:induction false} MidsPrefix(p: seq<int>, q: seq<int>, n: nat)
    requires n <= |p| && n <= |q| && p[..n] == q[..n]
    ensures Mids(p, n) == Mids(q, n)
  {
    if n > 0 {
      assert p[..n - 1] == q[..n - 1] by { assert p[..n - 1] == p[..n][..n - 1]; }
      MidsPrefix(p, q, n - 1);
      assert p[n - 1] == p[..n][n - 1];
      if n >= 2 {
        assert p[n - 2] == p[..n][n - 2];
        if ClosesGap(p, n - 1) {
          ZeroRunStartPrefix(p, q, n - 2, n);
        }
      }
    }
  }

  lemma {:induction false} ZeroRunStartPrefix(p: seq<int>, q: seq<int>, j: nat, n: nat)
    requires j < n <= |p| && n <= |q| && p[..n] == q[..n] && p[j] == 0
    ensures q[j] == 0 && ZeroRunStart(p, j) == ZeroRunStart(q, j)
    decreases j
  {
    assert p[j] == p[..n][j] && q[j] == q[..n][j];
    if j > 0 {
      assert p[j - 1] == p[..n][j - 1] && q[j - 1] == q[..n][j - 1];
      if p[j - 1] == 0 {
        ZeroRunStartPrefix(p, q, j - 1, n);
      }
    }
  }

  /** Three closed gaps [0,1], [5,6] and [9,10] give midpoints 0, 5 and 9, so
      one pair (0, 5); the trailing gap [13,14] is never closed and the
      unmatched start 9 is dropped by the pairing. */
  lemma MidpointExample()
    ensures var p := [0, 0, 7, 7, 7, 0, 0, 9, 9, 0, 0, 5, 5, 0, 0];
      Midpoints(p) == [0, 5, 9] && Starts(p) == [0, 9] && Ends(p) == [5]
  {
    var p := [0, 0, 7, 7, 7, 0, 0, 9, 9, 0, 0, 5, 5, 0, 0];
    assert ZeroRunStart(p, 1) == 0 && ZeroRunStart(p, 6) == 5 && ZeroRunStart(p, 10) == 9;
    assert Mids(p, 3) == [0];
    assert Mids(p, 8) == [0, 5];
    assert Mids(p, 12) == [0, 5, 9];
    assert Mids(p, 15) == [0, 5, 9];
    assert Evens([0, 5, 9]) == [0, 9] && Odds([0, 5, 9]) == [5];
  }
}
