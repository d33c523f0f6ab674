/** The three segmenters: a scan of the profile followed by the output loop.
    segment_line and segment_document share the alternating-midpoint scan;
    segment_document_and_save uses the gap-merging scan with min_gap = 3 and
    drops its first line. */
module Segment {
  import opened Projection
  import GapMidpoints
  import LineMerge
  import opened Crops

  /** The hard-coded min_gap of segment_document_and_save. */
  const MinGap := 3

  /** segment_line: the characters of a line image, cut at the midpoints of
      the gaps in its vertical profile. */
  method SegmentLine(line: Matrix, verticalProjection: seq<int>) returns (crops: seq<Crop>)
    ensures crops == Zipped(CharacterMode, line,
                            GapMidpoints.Starts(verticalProjection), GapMidpoints.Ends(verticalProjection))
  {
    var start, end := GapMidpoints.ScanGapMidpoints(verticalProjection);
    crops := EmitCrops(CharacterMode, line, start, end);
  }

  /** segment_document: the lines of a page, cut at the midpoints of the gaps
      in its horizontal profile. */
  method SegmentDocument(document: Matrix, horizontalProjection: seq<int>) returns (crops: seq<Crop>)
    ensures crops == Zipped(LineMode, document,
                            GapMidpoints.Starts(horizontalProjection), GapMidpoints.Ends(horizontalProjection))
  {
    var lineStart, lineEnd := GapMidpoints.ScanGapMidpoints(horizontalProjection);
    crops := EmitCrops(LineMode, document, lineStart, lineEnd);
  }

  /** segment_document_and_save: the merged lines of a page except the first
      detected one. */
  method SegmentDocumentAndSave(document: Matrix, horizontalProjection: seq<int>) returns (crops: seq<Crop>)
    ensures crops == Zipped(MergedLineMode, document,
                            LineMerge.MergedLines(horizontalProjection, MinGap).0,
                            LineMerge.MergedLines(horizontalProjection, MinGap).1)
  {
    var lineStart, lineEnd := LineMerge.ScanLines(horizontalProjection, MinGap);
    if |lineStart| > 0 && |lineEnd| > 0 {
      lineStart := lineStart[1..];
      lineEnd := lineEnd[1..];
    }
    crops := EmitCrops(MergedLineMode, document, lineStart, lineEnd);
  }

  /** For a vertical profile as wide as the line image, the k-th character
      crop keeps every row and exactly the columns from the k-th start to the
      k-th end, both blank columns of the profile, with at least one column
      between them. */
  lemma CharacterCrops(line: Matrix, verticalProjection: seq<int>)
    requires IsRectangular(line) && |verticalProjection| == Width(line)
    ensures var p := verticalProjection;
      var st, en := GapMidpoints.Starts(p), GapMidpoints.Ends(p);
      var crops := Zipped(CharacterMode, line, st, en);
      |crops| == |en| &&
      forall k :: 0 <= k < |crops| ==>
        st[k] + 1 <= en[k] < |p| && p[st[k]] == 0 && p[en[k]] == 0 &&
        |crops[k].pixels| == |line| &&
        forall i :: 0 <= i < |line| ==> crops[k].pixels[i] == line[i][st[k]..en[k] + 1]
  {
    var p := verticalProjection;
    var st, en := GapMidpoints.Starts(p), GapMidpoints.Ends(p);
    GapMidpoints.PairsOrdered(p);
    GapMidpoints.StartsAndEndsAlternate(p);
    var crops := Zipped(CharacterMode, line, st, en);
    forall k | 0 <= k < |crops|
      ensures |crops[k].pixels| == |line|
      ensures forall i :: 0 <= i < |line| ==> crops[k].pixels[i] == line[i][st[k]..en[k] + 1]
    {
      CharacterCropShape(line, st[k], en[k]);
      forall i | 0 <= i < |line| ensures crops[k].pixels[i] == line[i][st[k]..en[k] + 1] {
        assert |line[i]| == Width(line);
      }
    }
  }

  /** For a horizontal profile as tall as the page, the k-th line crop of
      segment_document is the rows from the k-th start up to, but excluding,
      the k-th end. */
  lemma DocumentLineCrops(document: Matrix, horizontalProjection: seq<int>)
    requires |horizontalProjection| == |document|
    ensures var p := horizontalProjection;
      var st, en := GapMidpoints.Starts(p), GapMidpoints.Ends(p);
      var crops := Zipped(LineMode, document, st, en);
      |crops| == |en| &&
      forall k :: 0 <= k < |crops| ==>
        st[k] < en[k] < |p| && p[st[k]] == 0 && p[en[k]] == 0 &&
        crops[k].pixels == document[st[k]..en[k]]
  {
    var p := horizontalProjection;
    var st, en := GapMidpoints.Starts(p), GapMidpoints.Ends(p);
    GapMidpoints.PairsOrdered(p);
    GapMidpoints.StartsAndEndsAlternate(p);
  }

  /** For a horizontal profile as tall as the page, every line written by
      segment_document_and_save is a window of rows that opens on a blank
      row, continues with a content row and ends on the last content row;
      consecutive windows are at least MinGap rows apart. */
  lemma SavedLineCrops(document: Matrix, horizontalProjection: seq<int>)
    requires |horizontalProjection| == |document|
    ensures var p := horizontalProjection;
      var st, en := LineMerge.MergedLines(p, MinGap).0, LineMerge.MergedLines(p, MinGap).1;
      var crops := Zipped(MergedLineMode, document, st, en);
      (forall k :: 0 <= k < |crops| ==>
         0 <= st[k] && st[k] + 2 <= en[k] < |p| &&
         p[st[k]] == 0 && p[st[k] + 1] != 0 && p[en[k] - 1] != 0 &&
         crops[k].pixels == document[st[k]..en[k]]) &&
      (forall k :: 0 <= k < |crops| - 1 ==> st[k + 1] + 1 - en[k] >= MinGap)
  {
    var p := horizontalProjection;
    LineMerge.MergedLinesOrdered(p, MinGap);
  }
}
