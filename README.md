# Projection-profile segmentation, modelled in Dafny

This project models the segmentation engine of `Util.py`. The engine cuts a
binarized text image into lines, and a line image into characters, using
projection profiles.

- **Profiles** (`projection.dfy`, module `Projection`). The horizontal
  profile sums each row of a 0/1 mask. The vertical profile sums each
  column. Any sum at or below the threshold (5 by default,
  `Projection.DefaultThreshold`) becomes 0.
- **Naive segmenter** (`gap_midpoints.dfy`, module `GapMidpoints`). This is
  the scan loop shared by `segment_line` and `segment_document`.
  - It finds each zero-run of the profile that a non-zero value follows.
  - It takes the floor of the run's first and last index averaged.
  - It tags those midpoints start, end, start, … and pairs them by position.
- **Merging segmenter** (`line_merge.dfy`, module `LineMerge`). This is the
  state machine of `segment_document_and_save`.
  - A content run opens a line one row before it.
  - The first zero row after the run closes that line.
  - Suppose a run begins fewer than `min_gap` rows after the last recorded
    end. It is then merged into that line, and its closing row overwrites
    the last end.
  - After the scan the first (start, end) pair is dropped.
- **Crops** (`crops.dfy`, module `Crops`). This is what each output loop
  selects for the k-th zipped pair.
  - A character takes columns `start..end`, both included.
  - A line takes rows `start..end-1`.
  - The file name is `{k}.png`, `Line{k}.png` or `Line {k}.png`; the model
    keeps the stem and the index, `{k}`, `Line{k}` or `Line {k}`.
  - Python's slice-bound normalisation is modelled exactly.
- **Segmenters** (`segment.dfy`, module `Segment`). The three top-level
  functions are each a scan followed by the output loop. `segment_line` and
  `segment_document` use the naive scan. `segment_document_and_save` uses the
  merging scan with `min_gap = 3` and drops the first pair before its loop.

The scans are imperative as in the source: methods with loops whose
invariants tie the running state to a specification function. The
specification functions are `Starts`/`Ends` for the naive scan and
`ScanUpTo`/`Scan` for the merging scan. The properties are proved about
those functions.

Two behaviours of the code worth noting:
- The line crops exclude row `end`, because the code slices
  `document[start:end]`.
- In the naive scan, a trailing zero-run that reaches the end of the
  profile is never closed and yields no midpoint.

## Model

| member | source | states |
|---|---|---|
| Projection.HorizontalProjection | Util.py:22-23 | one entry per mask row; each entry is 0 or the row's sum, and it is the sum exactly when the sum exceeds the threshold |
| Projection.VerticalProjection | Util.py:44-45 | one entry per column of a rectangular mask; each entry is 0 or the column's sum, and it is the sum exactly when the sum exceeds the threshold |
| Projection.SumCountsForeground | Util.py:22 | the sum of a 0/1 row is its number of ones, so it lies between 0 and the row length |
| Projection.HorizontalCountsForeground | Util.py:22-23 | each horizontal entry is the row's foreground count when that count exceeds the threshold and 0 otherwise, and it never exceeds the width |
| Projection.VerticalCountsForeground | Util.py:44-45 | each vertical entry is the column's foreground count when that count exceeds the threshold and 0 otherwise, and it never exceeds the height |
| Projection.RowAndColumnTotalsAgree | Util.py:22-44 | before thresholding, both profiles count the same ink: the total of the row sums equals the total of the column sums |
| Projection.TotalsAreUnthresholdedProfiles | Util.py:22-45 | for a 0/1 mask, the row totals and the column totals are exactly the horizontal and vertical profiles with no noise floor (threshold -1) |
| GapMidpoints.ZeroRunStart | Util.py:115-117 | the `first` of the zero-run holding j: every value from it to j is zero, and it is index 0 or follows a non-zero value |
| GapMidpoints.ScanGapMidpoints | Util.py:106-130 | the scan loop (also Util.py:162-184) returns exactly the even-position and odd-position midpoints of the closed gaps |
| GapMidpoints.EvensOddsAppend | Util.py:125-130 | a new midpoint goes to `start` when the count so far is even and to `end` when it is odd |
| GapMidpoints.MidsOrdered | Util.py:114-122 | midpoints lie on zeros before the last index, increase strictly, are separated by content, and content follows the last one |
| GapMidpoints.MidsComplete | Util.py:119-122 | every gap closed before n contributes its midpoint |
| GapMidpoints.MidsSound | Util.py:119-122 | every midpoint comes from a gap closed before n |
| GapMidpoints.MidpointsAreClosedGapMidpoints | Util.py:114-122 | a value is a midpoint if and only if it is floor((first+second)/2) of a maximal zero-run [first, second] that a non-zero value follows |
| GapMidpoints.MidpointsOnGaps | Util.py:119-122 | the profile is 0 at every midpoint, and a value follows it |
| GapMidpoints.StartsAndEndsAlternate | Util.py:125-130 | there are as many starts as ends, or one more, and together they are all the midpoints |
| GapMidpoints.EvensOddsOrdered | Util.py:142 | splitting an increasing sequence by parity gives positional pairs that are ordered and do not overlap |
| GapMidpoints.PairsOrdered | Util.py:142 | each zipped pair has start < end, both on zeros; the k-th end precedes the (k+1)-th start and every later start |
| GapMidpoints.SkippedContent | Util.py:142-143 | between the k-th end and the (k+1)-th start lies a content index that no emitted pair covers |
| GapMidpoints.SingleRunGivesNoPairs | Util.py:114-130 | zeros, then one content run, then zeros (all-zero included) give at most one midpoint and no pair |
| GapMidpoints.TrailingZerosIgnored | Util.py:114-122 | appending zeros to a profile adds no midpoint: a zero-run reaching the end never closes |
| GapMidpoints.MidpointExample | Util.py:114-130 | gaps [0,1], [5,6], [9,10] and a trailing [13,14] give midpoints 0, 5 and 9, so the single pair (0, 5) |
| LineMerge.Step | Util.py:219-240 | one iteration; whenever `line_end[-1]` is read, the list is non-empty, and that property is preserved |
| LineMerge.ScanUpTo | Util.py:217-240 | the state after n profile values never reads `line_end[-1]` of an empty list |
| LineMerge.ScanLines | Util.py:217-240 | the loop's final lists are those of the specification scan, for any min_gap |
| LineMerge.ScanInvariant | Util.py:217-240 | the scan invariant holds after every prefix (flags, list lengths, where starts and ends lie, gaps of at least min_gap between lines, all zero) |
| LineMerge.ScanOrdered | Util.py:217-240 | at the end, `len(line_end) <= len(line_start) <= len(line_end) + 1`; starts and ends increase strictly; each start precedes its end, and each end is at or before the next start |
| LineMerge.LineBoundaries | Util.py:228-235 | every start is the row just before a content run begins; every end is the first zero row after content |
| LineMerge.FirstRunOpensLine | Util.py:219-231 | the first content run always opens a line, at one row before its first content row |
| LineMerge.MergeAddsNoLine | Util.py:219-226 | a run whose gap to the last end is below min_gap adds neither a start nor an end; that gap is positive |
| LineMerge.StartsGrow | Util.py:219-228 | `line_start` is only appended to: the starts after m rows are a prefix of the starts after any later row, and each start added later is at least m - 1 |
| LineMerge.GapDecidesNewLine | Util.py:219-228 | for a content run at row a whose preceding content ended at row z, a - 1 becomes a start if and only if the gap a - z is at least min_gap |
| LineMerge.MergeOverwritesLastEnd | Util.py:237-240 | closing a merged run overwrites the last end with a strictly larger index; the starts and the number of ends are unchanged |
| LineMerge.SmallGapNeverMerges | Util.py:224-228 | when min_gap is at most 1, every content run opens its own line |
| LineMerge.SecondLineGap | Util.py:222-228 | a second line opens only after a gap of at least min_gap rows, and that gap is shorter than the profile |
| LineMerge.WideGapOneLine | Util.py:222-228 | when min_gap exceeds the profile length, at most one line opens and nothing survives the discard |
| LineMerge.NoContentNoLines | Util.py:217-257 | an all-zero profile gives no starts, no ends and no output |
| LineMerge.SingleRunNoLines | Util.py:217-257 | a single content run [a, b) gives the start a - 1, the end b when a zero row follows it, and no output after the discard |
| LineMerge.DiscardFirst | Util.py:255-257 | when both lists are non-empty, the zip loses exactly its first pair and the rest shift down by one; otherwise nothing changes |
| LineMerge.MergedLinesOrdered | Util.py:255-260 | every written line has start >= 0 (the -1 start never reaches a slice); it opens on a zero row followed by content and ends at the first zero after content; consecutive lines are at least min_gap apart over zero rows |
| LineMerge.GapAtMinimumKept | Util.py:217-257 | runs at rows 2-3 and 7-8 (gap 7 - 4 = 3) stay two lines (1, 4) and (6, 9) with min_gap 3, and (6, 9) is written |
| LineMerge.GapBelowMinimumMerged | Util.py:217-257 | the same runs with min_gap 4 merge into one line (1, 9), its end moved from 4 to 9, and nothing is written |
| Crops.SliceBound | Util.py:143 | Python's slice-bound normalisation: in-range bounds are kept, large ones clip to the length, negative ones count from the end |
| Crops.Slice | Util.py:197 | `xs[lo:hi]` has max(0, h - l) elements for the normalised bounds l and h, and its i-th element is `xs[l + i]` |
| Crops.NatToString | Util.py:143 | the decimal string of an index is non-empty, made of digits, and starts with `0` only for 0, so it is the canonical `str(index)` |
| Crops.DigitsRoundTrip | Util.py:143 | reading the decimal string back gives the index |
| Crops.FileName | Util.py:260 | a name is the mode's stem (`""`, `Line` or `Line `) followed by decimal digits, with no leading zero unless the index is 0 |
| Crops.FileNameIndex | Util.py:260 | the digits after the stem read back as the crop's index |
| Crops.FileNamesDistinct | Util.py:196-197 | within one mode, different indices give different names |
| Crops.CropOf | Util.py:143 | a character crop keeps every row, and a line crop is the row slice `[start:end]` (also Util.py:197, 260) |
| Crops.CharacterCropShape | Util.py:143 | for 0 <= start <= end < width, each row of a character crop is exactly columns start..end of that row, both included |
| Crops.LineCropShape | Util.py:197 | for 0 <= start <= end <= height, a line crop is exactly rows start..end-1 |
| Crops.Zipped | Util.py:142 | `enumerate(zip(...))` yields as many crops as the shorter list |
| Crops.ZippedCrops | Util.py:142-143 | the k-th crop has index k and is cut from the k-th pair, and no two crops share a name |
| Crops.EmitCrops | Util.py:142-143 | the output loop produces exactly the zipped crops, in order |
| Segment.SegmentLine | Util.py:92-143 | the character crops are those of the naive scan's pairs over the vertical profile |
| Segment.SegmentDocument | Util.py:149-197 | the line crops are those of the naive scan's pairs over the horizontal profile |
| Segment.SegmentDocumentAndSave | Util.py:201-260 | the line crops are those of the merging scan with min_gap 3, after the first pair is dropped |
| Segment.CharacterCrops | Util.py:114-143 | for a profile as wide as the line, the k-th character is every row restricted to columns start..end, both blank, with start < end |
| Segment.DocumentLineCrops | Util.py:170-197 | for a profile as tall as the page, the k-th line is rows start..end-1, where start < end are both blank rows |
| Segment.SavedLineCrops | Util.py:217-260 | for a profile as tall as the page, each saved line is rows start..end-1: a blank row, then content, ending on content; successive lines are at least 3 rows apart |

## Left out

- Binarization (Util.py:20, Util.py:42): `cv2.adaptiveThreshold` is a foreign library call. The profiles take a 0/1 mask directly.
- Plot functions (Util.py:53-89): display code only.
- Output directories (Util.py:133-140, 187-194, 245-252): the creation and wiping of `target_path` is filesystem I/O.
- `cv2.imwrite`, the `target_path\\` prefix and the `.png` suffix of each path (Util.py:143, 197, 260): a crop records its index, its name and its pixels instead of writing a file.
- Unused variables: `current_line` and `i` (Util.py:213-215, 229) and the `first` and `second` of the merging scan (Util.py:208-209) do not affect any result.
- Projection.VerticalProjection: `Width` of a matrix with no rows is 0 (a numpy array of shape (0, m) would give m zeros), and the mask must be rectangular, as a numpy array always is.
- GapMidpoints.ScanGapMidpoints: `int((first + second) / 2)` goes through a float. It is modelled as exact floor division of non-negative integers. Rounding of indices beyond 2^53 is not modelled.
- LineMerge.ScanLines: min_gap is a parameter. The source fixes it at 3, and Segment passes that value.
- Segment: profile entries are unbounded integers. numpy's fixed-width sums could only overflow on masks with more than 2^63 pixels in a row or column.
