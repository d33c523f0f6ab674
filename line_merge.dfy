/** The gap-merging line segmenter of segment_document_and_save: a content
    run opens a line one row before its first non-zero row, the first zero
    row after it closes the line, and a run that starts fewer than minGap
    rows after the last recorded end extends that line instead of opening
    a new one. The first detected line is discarded afterwards. */
module LineMerge {
  import opened Crops

  /** The gap before a content run: undefined (NaN in the source) while no
      line has been opened, so that the merge test fails for the first run. */
  datatype Gap = Undefined | Rows(rows: int)

  predicate GapBelow(g: Gap, minGap: int) {
    g.Rows? && g.rows < minGap
  }

  /** The scan's variables: the two lists and the flags is_start, selected
      (inside a content run) and is_append (the current run is being merged). */
  datatype ScanState = ScanState(lineStart: seq<int>, lineEnd: seq<int>,
                                 isStart: bool, selected: bool, isAppend: bool)

  const Initial := ScanState([], [], true, false, false)

  /** The states in which line_end[-1] is read are those where it exists. */
  predicate Indexable(s: ScanState) {
    (!s.isStart && !s.selected ==> |s.lineEnd| > 0) &&
    (s.isAppend ==> s.selected && |s.lineEnd| > 0)
  }

  function Last(xs: seq<int>): int
    requires |xs| > 0
  {
    xs[|xs| - 1]
  }

  /** The gap seen by a content run starting at index. */
  function GapAt(s: ScanState, index: int): Gap
    requires Indexable(s) && !s.selected
  {
    if s.isStart then Undefined else Rows(index - Last(s.lineEnd))
  }

  /** One iteration of the scan, for profile value v at index. Reading
      line_end[-1] never fails: Indexable is preserved. */
  function Step(s: ScanState, index: int, v: int, minGap: int): (r: ScanState)
    requires Indexable(s)
    ensures Indexable(r)
  {
    if !s.selected && v != 0 then
      if GapBelow(GapAt(s, index), minGap) then
        s.(isAppend := true, selected := true, isStart := false)
      else
        s.(lineStart := s.lineStart + [index - 1], selected := true, isStart := false)
    else if s.selected && v == 0 then
      if !s.isAppend then
        s.(lineEnd := s.lineEnd + [index], selected := false)
      else
        s.(lineEnd := s.lineEnd[|s.lineEnd| - 1 := index], selected := false, isAppend := false)
    else
      s
  }

  /** The state after the first n profile values. */
  function ScanUpTo(p: seq<int>, n: nat, minGap: int): (s: ScanState)
    requires n <= |p|
    ensures Indexable(s)
  {
    if n == 0 then Initial else Step(ScanUpTo(p, n - 1, minGap), n - 1, p[n - 1], minGap)
  }

  function Scan(p: seq<int>, minGap: int): ScanState {
    ScanUpTo(p, |p|, minGap)
  }

  /** The scan loop of segment_document_and_save, with min_gap as a parameter. */
  method ScanLines(p: seq<int>, minGap: int) returns (lineStart: seq<int>, lineEnd: seq<int>)
    ensures lineStart == Scan(p, minGap).lineStart && lineEnd == Scan(p, minGap).lineEnd
  {
    lineStart, lineEnd := [], [];
    var isStart := true;
    var selected := false;
    var isAppend := false;
    for index := 0 to |p|
      invariant ScanState(lineStart, lineEnd, isStart, selected, isAppend) == ScanUpTo(p, index, minGap)
    {
      var line := p[index];
      if !selected && line != 0 {
        var gap := Undefined;
        if !isStart {
          gap := Rows(index - lineEnd[|lineEnd| - 1]);
        }
        if GapBelow(gap, minGap) {
          isAppend := true;
          selected := true;
        } else {
          lineStart := lineStart + [index - 1];
          selected := true;
        }
        isStart := false;
      } else if selected && line == 0 {
        if !isAppend {
          lineEnd := lineEnd + [index];
          selected := false;
        } else {
          lineEnd := lineEnd[|lineEnd| - 1 := index];
          selected := false;
          isAppend := false;
        }
      }
    }
  }

  /** The flags and the list lengths after the first n values: selected says
      whether the last value read was content, and an open, unmerged line has
      a start but no end yet. */
  ghost predicate FlagsInv(p: seq<int>, n: nat, s: ScanState)
    requires n <= |p|
  {
    s.selected == (n > 0 && p[n - 1] != 0) &&
    s.isStart == (|s.lineStart| == 0) &&
    (s.isAppend ==> s.selected) &&
    |s.lineStart| == |s.lineEnd| + (if s.selected && !s.isAppend then 1 else 0)
  }

  /** A start is the row before a content run begins; the first start is the
      row before the first content row. */
  ghost predicate StartsInv(p: seq<int>, n: nat, s: ScanState)
    requires n <= |p|
  {
    var st := s.lineStart;
    (forall k :: 0 <= k < |st| ==>
       -1 <= st[k] && st[k] + 1 < n && p[st[k] + 1] != 0 && (st[k] >= 0 ==> p[st[k]] == 0)) &&
    (forall i :: 0 <= i < n && p[i] != 0 ==> |st| > 0 && st[0] < i)
  }

  /** An end is the first zero after content, at least two rows after its start. */
  ghost predicate EndsInv(p: seq<int>, n: nat, s: ScanState)
    requires n <= |p|
    requires |s.lineEnd| <= |s.lineStart|
  {
    var st, en := s.lineStart, s.lineEnd;
    (forall k :: 0 <= k < |en| ==> 0 < en[k] < n && p[en[k]] == 0 && p[en[k] - 1] != 0) &&
    (forall k {:trigger en[k]} :: 0 <= k < |en| ==> st[k] + 2 <= en[k])
  }

  /** Every row of p from lo to hi (inclusive) is zero. */
  ghost predicate ZeroRows(p: seq<int>, lo: int, hi: int) {
    forall i :: 0 <= i < |p| && lo <= i <= hi ==> p[i] == 0
  }

  /** A new line starts only after at least minGap zero rows following the
      previous end; outside content every row since the last end is zero. */
  ghost predicate GapsInv(p: seq<int>, n: nat, minGap: int, s: ScanState)
    requires n <= |p|
    requires |s.lineStart| <= |s.lineEnd| + 1
  {
    var st, en := s.lineStart, s.lineEnd;
    (forall k {:trigger en[k]} :: 0 <= k < |st| - 1 ==> en[k] <= st[k + 1] && st[k + 1] + 1 - en[k] >= minGap) &&
    (forall k {:trigger en[k]} :: 0 <= k < |st| - 1 ==> ZeroRows(p, en[k], st[k + 1])) &&
    (!s.selected && |en| > 0 ==> ZeroRows(p, Last(en), n - 1))
  }

  /** Row a is the first row of a content run. */
  predicate RunBegins(p: seq<int>, a: int) {
    0 <= a < |p| && p[a] != 0 && (a == 0 || p[a - 1] == 0)
  }

  /** With minGap below 2 nothing merges: every content run opens a line. */
  ghost predicate NoMergeInv(p: seq<int>, n: nat, minGap: int, s: ScanState)
    requires n <= |p|
  {
    minGap <= 1 ==> forall a :: a < n && RunBegins(p, a) ==> a - 1 in s.lineStart
  }

  ghost predicate ScanInv(p: seq<int>, n: nat, minGap: int, s: ScanState)
    requires n <= |p|
  {
    FlagsInv(p, n, s) && StartsInv(p, n, s) && EndsInv(p, n, s) &&
    GapsInv(p, n, minGap, s) && NoMergeInv(p, n, minGap, s)
  }

  lemma {:induction false} ScanInvariant(p: seq<int>, n: nat, minGap: int)
    requires n <= |p|
    ensures ScanInv(p, n, minGap, ScanUpTo(p, n, minGap))
  {
    if n > 0 {
      ScanInvariant(p, n - 1, minGap);
      var s := ScanUpTo(p, n - 1, minGap);
      assert ScanUpTo(p, n, minGap) == Step(s, n - 1, p[n - 1], minGap);
      FlagsStep(p, n, minGap, s);
      StartsStep(p, n, minGap, s);
      EndsStep(p, n, minGap, s);
      GapsStep(p, n, minGap, s);
      NoMergeStep(p, n, minGap, s);
    }
  }

  lemma FlagsStep(p: seq<int>, n: nat, minGap: int, s: ScanState)
    requires 0 < n <= |p| && Indexable(s) && FlagsInv(p, n - 1, s)
    ensures FlagsInv(p, n, Step(s, n - 1, p[n - 1], minGap))
  {
  }

  lemma StartsStep(p: seq<int>, n: nat, minGap: int, s: ScanState)
    requires 0 < n <= |p| && Indexable(s)
    requires FlagsInv(p, n - 1, s) && StartsInv(p, n - 1, s)
    ensures StartsInv(p, n, Step(s, n - 1, p[n - 1], minGap))
  {
    var r := Step(s, n - 1, p[n - 1], minGap);
    if !s.selected && p[n - 1] != 0 && !GapBelow(GapAt(s, n - 1), minGap) {
      assert r.lineStart == s.lineStart + [n - 2];
    } else {
      assert r.lineStart == s.lineStart;
    }
  }

  lemma EndsStep(p: seq<int>, n: nat, minGap: int, s: ScanState)
    requires 0 < n <= |p| && Indexable(s)
    requires FlagsInv(p, n - 1, s) && StartsInv(p, n - 1, s) && EndsInv(p, n - 1, s)
    ensures FlagsInv(p, n, Step(s, n - 1, p[n - 1], minGap))
    ensures EndsInv(p, n, Step(s, n - 1, p[n - 1], minGap))
  {
    FlagsStep(p, n, minGap, s);
    var r := Step(s, n - 1, p[n - 1], minGap);
    if !s.selected && p[n - 1] != 0 {
      assert r.lineEnd == s.lineEnd;
      if !GapBelow(GapAt(s, n - 1), minGap) {
        assert r.lineStart == s.lineStart + [n - 2];
      } else {
        assert r.lineStart == s.lineStart;
      }
    } else if s.selected && p[n - 1] == 0 {
      assert r.lineStart == s.lineStart;
      var st := s.lineStart;
      if !s.isAppend {
        assert r.lineEnd == s.lineEnd + [n - 1];
        assert st[|st| - 1] + 1 < n - 1;
      } else {
        assert r.lineEnd == s.lineEnd[|s.lineEnd| - 1 := n - 1];
        assert Last(s.lineEnd) < n - 1;
      }
    } else {
      assert r == s;
    }
  }

  lemma GapsStep(p: seq<int>, n: nat, minGap: int, s: ScanState)
    requires 0 < n <= |p| && Indexable(s)
    requires FlagsInv(p, n - 1, s) && EndsInv(p, n - 1, s) && GapsInv(p, n - 1, minGap, s)
    ensures FlagsInv(p, n, Step(s, n - 1, p[n - 1], minGap))
    ensures GapsInv(p, n, minGap, Step(s, n - 1, p[n - 1], minGap))
  {
    FlagsStep(p, n, minGap, s);
    var r := Step(s, n - 1, p[n - 1], minGap);
    if !s.selected && p[n - 1] != 0 {
      if !GapBelow(GapAt(s, n - 1), minGap) {
        GapsOpen(p, n, minGap, s);
      } else {
        assert r.lineStart == s.lineStart && r.lineEnd == s.lineEnd;
      }
    } else if s.selected && p[n - 1] == 0 {
      GapsClose(p, n, minGap, s);
    } else {
      assert r == s;
    }
  }

  /** Closing a line: the gaps between earlier lines are untouched. */
  lemma GapsClose(p: seq<int>, n: nat, minGap: int, s: ScanState)
    requires 0 < n <= |p| && Indexable(s)
    requires FlagsInv(p, n - 1, s) && GapsInv(p, n - 1, minGap, s)
    requires s.selected && p[n - 1] == 0
    ensures FlagsInv(p, n, Step(s, n - 1, p[n - 1], minGap))
    ensures GapsInv(p, n, minGap, Step(s, n - 1, p[n - 1], minGap))
  {
    FlagsStep(p, n, minGap, s);
    var r := Step(s, n - 1, p[n - 1], minGap);
    var st, en := r.lineStart, r.lineEnd;
    assert st == s.lineStart;
    assert |en| == |s.lineEnd| || |en| == |s.lineEnd| + 1;
    assert forall k :: 0 <= k < |st| - 1 ==> en[k] == s.lineEnd[k];
    assert Last(en) == n - 1;
    assert ZeroRows(p, n - 1, n - 1);
  }

  /** Opening a line: the gap since the previous end was at least minGap and all zero. */
  lemma GapsOpen(p: seq<int>, n: nat, minGap: int, s: ScanState)
    requires 0 < n <= |p| && Indexable(s)
    requires FlagsInv(p, n - 1, s) && EndsInv(p, n - 1, s) && GapsInv(p, n - 1, minGap, s)
    requires !s.selected && p[n - 1] != 0 && !GapBelow(GapAt(s, n - 1), minGap)
    ensures FlagsInv(p, n, Step(s, n - 1, p[n - 1], minGap))
    ensures GapsInv(p, n, minGap, Step(s, n - 1, p[n - 1], minGap))
  {
    FlagsStep(p, n, minGap, s);
    var r := Step(s, n - 1, p[n - 1], minGap);
    var st, en := r.lineStart, r.lineEnd;
    assert st == s.lineStart + [n - 2] && en == s.lineEnd;
    if |st| >= 2 {
      var k := |st| - 2;
      assert en[k] == Last(s.lineEnd) < n - 1;
      assert ZeroRows(p, en[k], st[k + 1]);
      forall j | 0 <= j < |st| - 1
        ensures en[j] <= st[j + 1] && st[j + 1] + 1 - en[j] >= minGap
        ensures ZeroRows(p, en[j], st[j + 1])
      {
        if j < k {
          assert st[j + 1] == s.lineStart[j + 1];
        }
      }
    }
  }

  lemma NoMergeStep(p: seq<int>, n: nat, minGap: int, s: ScanState)
    requires 0 < n <= |p| && Indexable(s)
    requires FlagsInv(p, n - 1, s) && EndsInv(p, n - 1, s) && NoMergeInv(p, n - 1, minGap, s)
    ensures NoMergeInv(p, n, minGap, Step(s, n - 1, p[n - 1], minGap))
  {
    var r := Step(s, n - 1, p[n - 1], minGap);
    if minGap <= 1 {
      if !s.selected && p[n - 1] != 0 {
        if !s.isStart {
          assert Last(s.lineEnd) < n - 1;
        }
        assert r.lineStart == s.lineStart + [n - 2];
      } else {
        assert r.lineStart == s.lineStart;
      }
    }
  }

  /** After the whole scan: starts and ends increase strictly, each line
      starts before it ends, and the next line starts no earlier than the
      previous one ended. */
  lemma ScanOrdered(p: seq<int>, minGap: int)
    ensures var s := Scan(p, minGap);
      |s.lineEnd| <= |s.lineStart| <= |s.lineEnd| + 1 &&
      (forall j, k :: 0 <= j < k < |s.lineStart| ==> s.lineStart[j] < s.lineStart[k]) &&
      (forall j, k :: 0 <= j < k < |s.lineEnd| ==> s.lineEnd[j] < s.lineEnd[k]) &&
      (forall k {:trigger s.lineEnd[k]} :: 0 <= k < |s.lineEnd| ==> s.lineStart[k] < s.lineEnd[k]) &&
      (forall k {:trigger s.lineEnd[k]} :: 0 <= k < |s.lineStart| - 1 ==> s.lineEnd[k] <= s.lineStart[k + 1])
  {
    ScanInvariant(p, |p|, minGap);
    InvOrdered(p, |p|, minGap, Scan(p, minGap));
  }

  lemma InvOrdered(p: seq<int>, n: nat, minGap: int, s: ScanState)
    requires n <= |p| && ScanInv(p, n, minGap, s)
    ensures |s.lineEnd| <= |s.lineStart| <= |s.lineEnd| + 1
    ensures forall j, k :: 0 <= j < k < |s.lineStart| ==> s.lineStart[j] < s.lineStart[k]
    ensures forall j, k :: 0 <= j < k < |s.lineEnd| ==> s.lineEnd[j] < s.lineEnd[k]
    ensures forall k {:trigger s.lineEnd[k]} :: 0 <= k < |s.lineEnd| ==> s.lineStart[k] < s.lineEnd[k]
    ensures forall k {:trigger s.lineEnd[k]} :: 0 <= k < |s.lineStart| - 1 ==> s.lineEnd[k] <= s.lineStart[k + 1]
  {
    StartsIncreasing(s.lineStart, s.lineEnd);
  }

  lemma {:induction false} Chain(xs: seq<int>, j: nat, k: nat)
    requires forall i :: 0 <= i < |xs| - 1 ==> xs[i] < xs[i + 1]
    requires j < k < |xs|
    ensures xs[j] < xs[k]
    decreases k - j
  {
    if j + 1 < k {
      Chain(xs, j + 1, k);
    }
  }

  lemma StartsIncreasing(st: seq<int>, en: seq<int>)
    requires |en| <= |st| <= |en| + 1
    requires forall k {:trigger en[k]} :: 0 <= k < |en| ==> st[k] + 2 <= en[k]
    requires forall k {:trigger en[k]} :: 0 <= k < |st| - 1 ==> en[k] <= st[k + 1]
    ensures forall j, k :: 0 <= j < k < |st| ==> st[j] < st[k]
    ensures forall j, k :: 0 <= j < k < |en| ==> en[j] < en[k]
  {
    forall i | 0 <= i < |st| - 1 ensures st[i] < st[i + 1] {
      assert st[i] + 2 <= en[i];
    }
    forall i | 0 <= i < |en| - 1 ensures en[i] < en[i + 1] {
      assert en[i] <= st[i + 1] && st[i + 1] + 2 <= en[i + 1];
    }
    forall j, k | 0 <= j < k < |st| ensures st[j] < st[k] {
      Chain(st, j, k);
    }
    forall j, k | 0 <= j < k < |en| ensures en[j] < en[k] {
      Chain(en, j, k);
    }
  }

  /** A merged run's closing zero overwrites the last end with a strictly
      larger index; starts and the number of ends are unchanged. */
  lemma MergeOverwritesLastEnd(p: seq<int>, n: nat, minGap: int)
    requires n < |p| && p[n] == 0
    requires ScanUpTo(p, n, minGap).isAppend
    ensures var s, r := ScanUpTo(p, n, minGap), ScanUpTo(p, n + 1, minGap);
      r.lineStart == s.lineStart && |r.lineEnd| == |s.lineEnd| > 0 &&
      r.lineEnd[..|r.lineEnd| - 1] == s.lineEnd[..|s.lineEnd| - 1] &&
      Last(s.lineEnd) < Last(r.lineEnd) == n && !r.isAppend
  {
    ScanInvariant(p, n, minGap);
  }

  /** After the scan every start is the row just before a content run
      begins, and every end is the first zero row after a content row. */
  lemma LineBoundaries(p: seq<int>, minGap: int)
    ensures var s := Scan(p, minGap);
      (forall k :: 0 <= k < |s.lineStart| ==> RunBegins(p, s.lineStart[k] + 1)) &&
      (forall k :: 0 <= k < |s.lineEnd| ==>
         0 < s.lineEnd[k] < |p| && p[s.lineEnd[k]] == 0 && p[s.lineEnd[k] - 1] != 0)
  {
    ScanInvariant(p, |p|, minGap);
  }

  /** The pop(0) of both lists, done only when both are non-empty. */
  function DiscardFirst(lineStart: seq<int>, lineEnd: seq<int>): (r: (seq<int>, seq<int>))
    ensures Min(|r.0|, |r.1|) == if Min(|lineStart|, |lineEnd|) > 0 then Min(|lineStart|, |lineEnd|) - 1 else 0
    ensures Min(|lineStart|, |lineEnd|) > 0 ==>
              forall k :: 0 <= k < Min(|r.0|, |r.1|) ==> r.0[k] == lineStart[k + 1] && r.1[k] == lineEnd[k + 1]
    ensures Min(|lineStart|, |lineEnd|) == 0 ==> r == (lineStart, lineEnd)
  {
    if |lineStart| > 0 && |lineEnd| > 0 then (lineStart[1..], lineEnd[1..]) else (lineStart, lineEnd)
  }

  /** The (start, end) lists that segment_document_and_save zips. */
  function MergedLines(p: seq<int>, minGap: int): (seq<int>, seq<int>) {
    var s := Scan(p, minGap);
    DiscardFirst(s.lineStart, s.lineEnd)
  }

  /** Emitted lines st/en (zipped, so only the first Min(|st|, |en|) pairs
      count): each is a window [start, end) of rows with start >= 0, row start
      is zero, row start + 1 is content and row end is the first zero after
      content; consecutive lines are separated by at least minGap rows, all zero. */
  ghost predicate WellSeparated(p: seq<int>, minGap: int, st: seq<int>, en: seq<int>) {
    (forall k {:trigger en[k]} :: 0 <= k < Min(|st|, |en|) ==>
       0 <= st[k] && st[k] + 2 <= en[k] < |p| &&
       p[st[k]] == 0 && p[st[k] + 1] != 0 && p[en[k]] == 0 && p[en[k] - 1] != 0) &&
    (forall k {:trigger en[k]} :: 0 <= k < Min(|st|, |en|) - 1 ==>
       en[k] <= st[k + 1] && st[k + 1] + 1 - en[k] >= minGap && ZeroRows(p, en[k], st[k + 1]))
  }

  /** The lines segment_document_and_save writes are well separated: the -1
      start of a first line never survives the discard. */
  lemma MergedLinesOrdered(p: seq<int>, minGap: int)
    ensures WellSeparated(p, minGap, MergedLines(p, minGap).0, MergedLines(p, minGap).1)
  {
    ScanInvariant(p, |p|, minGap);
    FinalStateDiscarded(p, minGap, Scan(p, minGap));
  }

  lemma FinalStateDiscarded(p: seq<int>, minGap: int, s: ScanState)
    requires ScanInv(p, |p|, minGap, s)
    ensures WellSeparated(p, minGap, DiscardFirst(s.lineStart, s.lineEnd).0, DiscardFirst(s.lineStart, s.lineEnd).1)
  {
    InvOrdered(p, |p|, minGap, s);
    DiscardedOrdered(p, minGap, s.lineStart, s.lineEnd);
  }

  /** Dropping the first pair leaves well-separated lines whose starts are
      non-negative, since every later start exceeds the first one (>= -1). */
  lemma DiscardedOrdered(p: seq<int>, minGap: int, S: seq<int>, E: seq<int>)
    requires |E| <= |S| <= |E| + 1
    requires forall k :: 0 <= k < |S| ==> -1 <= S[k] && S[k] + 1 < |p| && p[S[k] + 1] != 0 && (S[k] >= 0 ==> p[S[k]] == 0)
    requires forall k :: 0 <= k < |E| ==> 0 < E[k] < |p| && p[E[k]] == 0 && p[E[k] - 1] != 0
    requires forall k {:trigger E[k]} :: 0 <= k < |E| ==> S[k] + 2 <= E[k]
    requires forall k {:trigger E[k]} :: 0 <= k < |S| - 1 ==>
               E[k] <= S[k + 1] && S[k + 1] + 1 - E[k] >= minGap && ZeroRows(p, E[k], S[k + 1])
    requires forall j, k :: 0 <= j < k < |S| ==> S[j] < S[k]
    ensures WellSeparated(p, minGap, DiscardFirst(S, E).0, DiscardFirst(S, E).1)
  {
    var (st, en) := DiscardFirst(S, E);
    if |S| > 0 && |E| > 0 {
      assert st == S[1..] && en == E[1..];
      forall k | 0 <= k < Min(|st|, |en|)
        ensures 0 <= st[k] && st[k] + 2 <= en[k] < |p|
        ensures p[st[k]] == 0 && p[st[k] + 1] != 0 && p[en[k]] == 0 && p[en[k] - 1] != 0
      {
        assert st[k] == S[k + 1] > S[0] >= -1;
        assert en[k] == E[k + 1];
      }
      forall k | 0 <= k < Min(|st|, |en|) - 1
        ensures en[k] <= st[k + 1] && st[k + 1] + 1 - en[k] >= minGap && ZeroRows(p, en[k], st[k + 1])
      {
        assert en[k] == E[k + 1] && st[k + 1] == S[k + 2];
      }
    } else {
      assert Min(|st|, |en|) == 0;
    }
    assert WellSeparated(p, minGap, st, en);
  }

  /** A content run whose gap to the last end is below minGap adds no start
      and no end; the gap it saw is positive. */
  lemma MergeAddsNoLine(p: seq<int>, n: nat, minGap: int)
    requires n < |p| && p[n] != 0
    requires !ScanUpTo(p, n, minGap).selected
    requires GapBelow(GapAt(ScanUpTo(p, n, minGap), n), minGap)
    ensures var s, r := ScanUpTo(p, n, minGap), ScanUpTo(p, n + 1, minGap);
      r.lineStart == s.lineStart && r.lineEnd == s.lineEnd && r.isAppend &&
      0 < n - Last(s.lineEnd) < minGap
  {
    ScanInvariant(p, n, minGap);
  }

  /** The scan only appends to line_start: the starts after m values are a
      prefix of the starts after n >= m values, and every later start is at
      least m - 1. */
  lemma {:induction false} StartsGrow(p: seq<int>, m: nat, n: nat, minGap: int)
    requires m <= n <= |p|
    ensures var s, r := ScanUpTo(p, m, minGap), ScanUpTo(p, n, minGap);
      |s.lineStart| <= |r.lineStart| && r.lineStart[..|s.lineStart|] == s.lineStart &&
      forall k :: |s.lineStart| <= k < |r.lineStart| ==> r.lineStart[k] >= m - 1
    decreases n - m
  {
    if m < n {
      StartsGrow(p, m, n - 1, minGap);
      var q := ScanUpTo(p, n - 1, minGap);
      assert ScanUpTo(p, n, minGap) == Step(q, n - 1, p[n - 1], minGap);
      assert ScanUpTo(p, n, minGap).lineStart == q.lineStart ||
             ScanUpTo(p, n, minGap).lineStart == q.lineStart + [n - 2];
    }
  }

  /** When content row z - 1 is followed by the zero rows z..a - 1, the state
      before row a has closed that content at z, and every start opened so far
      lies before a - 1. */
  lemma StateBeforeRun(p: seq<int>, minGap: int, a: nat, z: nat, s: ScanState)
    requires 0 < z < a < |p| && p[z - 1] != 0
    requires forall i :: z <= i < a ==> p[i] == 0
    requires ScanInv(p, a, minGap, s)
    ensures !s.selected && !s.isStart && |s.lineEnd| > 0 && Last(s.lineEnd) == z
    ensures forall k :: 0 <= k < |s.lineStart| ==> s.lineStart[k] < a - 1
  {
    assert p[a - 1] == 0;
    assert p[z - 1] != 0 && z - 1 < a;
    var e := Last(s.lineEnd);
    assert 0 < e < a && p[e - 1] != 0;
    assert ZeroRows(p, e, a - 1);
  }

  /** The merge rule of segment_document_and_save, both ways: a content run
      at row a whose preceding content ended at row z (rows z..a - 1 zero)
      opens its own line at a - 1 exactly when its gap a - z is at least
      minGap; otherwise it is merged and a - 1 is never a start. */
  lemma GapDecidesNewLine(p: seq<int>, minGap: int, a: nat, z: nat)
    requires 0 < z < a < |p| && p[a] != 0 && p[z - 1] != 0
    requires forall i :: z <= i < a ==> p[i] == 0
    ensures a - 1 in Scan(p, minGap).lineStart <==> a - z >= minGap
  {
    ScanInvariant(p, a, minGap);
    var s := ScanUpTo(p, a, minGap);
    StateBeforeRun(p, minGap, a, z, s);
    var r := ScanUpTo(p, a + 1, minGap);
    assert r == Step(s, a, p[a], minGap);
    assert GapAt(s, a) == Rows(a - z);
    StartsGrow(p, a + 1, |p|, minGap);
    var st := Scan(p, minGap).lineStart;
    if a - z >= minGap {
      assert r.lineStart == s.lineStart + [a - 1];
      assert st[|r.lineStart| - 1] == r.lineStart[|r.lineStart| - 1];
    } else {
      assert r.lineStart == s.lineStart;
      forall k | 0 <= k < |st| ensures st[k] != a - 1 {
        if k < |r.lineStart| {
          assert st[k] == r.lineStart[k];
        }
      }
    }
  }

  /** The first content run always opens a line, one row before it. */
  lemma FirstRunOpensLine(p: seq<int>, minGap: int, a: nat)
    requires a < |p| && p[a] != 0
    requires forall i :: 0 <= i < a ==> p[i] == 0
    ensures |Scan(p, minGap).lineStart| > 0 && Scan(p, minGap).lineStart[0] == a - 1
  {
    ScanInvariant(p, |p|, minGap);
    var st := Scan(p, minGap).lineStart;
    assert |st| > 0 && st[0] < a;
    assert p[st[0] + 1] != 0;
  }

  /** An all-zero profile opens no line at all. */
  lemma NoContentNoLines(p: seq<int>, minGap: int)
    requires forall i :: 0 <= i < |p| ==> p[i] == 0
    ensures Scan(p, minGap).lineStart == [] && Scan(p, minGap).lineEnd == []
    ensures MergedLines(p, minGap) == ([], [])
  {
    ScanInvariant(p, |p|, minGap);
  }

  /** A single content run [a, b) gives one start a - 1 and, when a zero row
      follows it, the end b; either way the discard leaves no line. */
  lemma SingleRunNoLines(p: seq<int>, minGap: int, a: nat, b: nat)
    requires a < b <= |p|
    requires forall i :: 0 <= i < |p| ==> (p[i] != 0 <==> a <= i < b)
    ensures Scan(p, minGap).lineStart == [a - 1]
    ensures Scan(p, minGap).lineEnd == if b < |p| then [b] else []
    ensures MergedLines(p, minGap).0 == [] || MergedLines(p, minGap).1 == []
  {
    ScanInvariant(p, |p|, minGap);
    SingleRunState(p, minGap, a, b, Scan(p, minGap));
  }

  lemma SingleRunState(p: seq<int>, minGap: int, a: nat, b: nat, s: ScanState)
    requires a < b <= |p|
    requires forall i :: 0 <= i < |p| ==> (p[i] != 0 <==> a <= i < b)
    requires ScanInv(p, |p|, minGap, s)
    ensures s.lineStart == [a - 1]
    ensures s.lineEnd == if b < |p| then [b] else []
  {
    var st, en := s.lineStart, s.lineEnd;
    OnlyRunStart(p, a, b, st);
    assert p[a] != 0;
    assert |st| > 0 && st[0] < a;
    if |st| > 1 {
      FirstStartsIncrease(st, en);
    }
    assert st == [a - 1];
    SingleRunEnd(p, minGap, a, b, s);
  }

  /** A second start lies beyond the first line's end, hence beyond the first start. */
  lemma FirstStartsIncrease(st: seq<int>, en: seq<int>)
    requires 1 < |st| <= |en| + 1
    requires forall k {:trigger en[k]} :: 0 <= k < |st| - 1 ==> st[k] + 2 <= en[k]
    requires forall k {:trigger en[k]} :: 0 <= k < |st| - 1 ==> en[k] <= st[k + 1]
    ensures st[0] < st[1]
  {
    assert st[0] + 2 <= en[0] <= st[1];
  }

  lemma SingleRunEnd(p: seq<int>, minGap: int, a: nat, b: nat, s: ScanState)
    requires a < b <= |p|
    requires forall i :: 0 <= i < |p| ==> (p[i] != 0 <==> a <= i < b)
    requires FlagsInv(p, |p|, s) && |s.lineEnd| <= |s.lineStart| && EndsInv(p, |p|, s)
    requires |s.lineStart| == 1
    ensures s.lineEnd == if b < |p| then [b] else []
  {
    var en := s.lineEnd;
    OnlyRunEnd(p, a, b, en);
    if b < |p| {
      assert p[|p| - 1] == 0;
      assert en == [b];
    } else {
      assert |en| == 0;
    }
  }

  lemma OnlyRunStart(p: seq<int>, a: nat, b: nat, st: seq<int>)
    requires forall i :: 0 <= i < |p| ==> (p[i] != 0 <==> a <= i < b)
    requires forall k :: 0 <= k < |st| ==>
               -1 <= st[k] && st[k] + 1 < |p| && p[st[k] + 1] != 0 && (st[k] >= 0 ==> p[st[k]] == 0)
    ensures forall k :: 0 <= k < |st| ==> st[k] == a - 1
  {
    forall k | 0 <= k < |st| ensures st[k] == a - 1 {
      assert a <= st[k] + 1 < b;
    }
  }

  lemma OnlyRunEnd(p: seq<int>, a: nat, b: nat, en: seq<int>)
    requires forall i :: 0 <= i < |p| ==> (p[i] != 0 <==> a <= i < b)
    requires forall k :: 0 <= k < |en| ==> 0 < en[k] < |p| && p[en[k]] == 0 && p[en[k] - 1] != 0
    ensures forall k :: 0 <= k < |en| ==> en[k] == b
    ensures |en| > 0 ==> b < |p|
  {
    forall k | 0 <= k < |en| ensures en[k] == b {
      assert a <= en[k] - 1 < b;
      assert !(a <= en[k] < b);
    }
    if |en| > 0 {
      assert en[0] == b;
    }
  }

  /** With minGap at most 1 nothing is merged: every content run opens a line. */
  lemma SmallGapNeverMerges(p: seq<int>, minGap: int, a: nat)
    requires minGap <= 1 && RunBegins(p, a)
    ensures a - 1 in Scan(p, minGap).lineStart
  {
    ScanInvariant(p, |p|, minGap);
  }

  /** With minGap above the profile length every run after the first is
      merged, so at most one line is opened and none survives the discard. */
  lemma WideGapOneLine(p: seq<int>, minGap: int)
    requires minGap > |p|
    ensures |Scan(p, minGap).lineStart| <= 1
    ensures MergedLines(p, minGap).0 == [] || MergedLines(p, minGap).1 == []
  {
    SecondLineGap(p, minGap);
    ScanInvariant(p, |p|, minGap);
  }

  /** A second line opens only after a gap of at least minGap rows, and that
      gap is shorter than the profile. */
  lemma SecondLineGap(p: seq<int>, minGap: int)
    ensures var s := Scan(p, minGap);
      |s.lineStart| > 1 ==>
        |s.lineEnd| > 0 && minGap <= s.lineStart[1] + 1 - s.lineEnd[0] < |p|
  {
    ScanInvariant(p, |p|, minGap);
    var s := Scan(p, minGap);
    var st, en := s.lineStart, s.lineEnd;
    if |st| > 1 {
      assert st[1] + 1 < |p| && en[0] > 0;
    }
  }

  /** Two content runs whose gap (first row minus the last end) is exactly 3:
      with min_gap 3 they are two lines and the second is written. */
  lemma GapAtMinimumKept()
    ensures var p := [0, 0, 5, 5, 0, 0, 0, 6, 6, 0, 0];
      Scan(p, 3).lineStart == [1, 6] && Scan(p, 3).lineEnd == [4, 9] &&
      MergedLines(p, 3) == ([6], [9])
  {
    var p := [0, 0, 5, 5, 0, 0, 0, 6, 6, 0, 0];
    assert ScanUpTo(p, 1, 3) == Initial;
    assert ScanUpTo(p, 2, 3) == Initial;
    assert ScanUpTo(p, 3, 3) == ScanState([1], [], false, true, false);
    assert ScanUpTo(p, 4, 3) == ScanState([1], [], false, true, false);
    assert ScanUpTo(p, 5, 3) == ScanState([1], [4], false, false, false);
    assert ScanUpTo(p, 6, 3) == ScanState([1], [4], false, false, false);
    assert ScanUpTo(p, 7, 3) == ScanState([1], [4], false, false, false);
    assert ScanUpTo(p, 8, 3) == ScanState([1, 6], [4], false, true, false);
    assert ScanUpTo(p, 9, 3) == ScanState([1, 6], [4], false, true, false);
    assert ScanUpTo(p, 10, 3) == ScanState([1, 6], [4, 9], false, false, false);
    assert ScanUpTo(p, 11, 3) == ScanState([1, 6], [4, 9], false, false, false);
  }

  /** The same profile with min_gap 4: the second run is merged into the
      first, whose end moves from 4 to 9, and the discard leaves nothing. */
  lemma GapBelowMinimumMerged()
    ensures var p := [0, 0, 5, 5, 0, 0, 0, 6, 6, 0, 0];
      Scan(p, 4).lineStart == [1] && Scan(p, 4).lineEnd == [9] &&
      MergedLines(p, 4) == ([], [])
  {
    var p := [0, 0, 5, 5, 0, 0, 0, 6, 6, 0, 0];
    assert ScanUpTo(p, 1, 4) == Initial;
    assert ScanUpTo(p, 2, 4) == Initial;
    assert ScanUpTo(p, 3, 4) == ScanState([1], [], false, true, false);
    assert ScanUpTo(p, 4, 4) == ScanState([1], [], false, true, false);
    assert ScanUpTo(p, 5, 4) == ScanState([1], [4], false, false, false);
    assert ScanUpTo(p, 6, 4) == ScanState([1], [4], false, false, false);
    assert ScanUpTo(p, 7, 4) == ScanState([1], [4], false, false, false);
    assert ScanUpTo(p, 8, 4) == ScanState([1], [4], false, true, true);
    assert ScanUpTo(p, 9, 4) == ScanState([1], [4], false, true, true);
    assert ScanUpTo(p, 10, 4) == ScanState([1], [9], false, false, false);
    assert ScanUpTo(p, 11, 4) == ScanState([1], [9], false, false, false);
  }
}
