/** What the output loops of the three segmenters select: for the k-th zipped
    (start, end) pair, a sub-matrix of the image and a file name built from
    k. Writing the file is not modelled; the crop records what would be
    written. */
module Crops {
  import opened Projection

  /** Python's normalisation of a slice bound (step 1) for a sequence of
      length n: a negative bound counts from the end, then it is clipped to
      [0, n]. */
  function SliceBound(i: int, n: nat): (b: nat)
    ensures b <= n
    ensures 0 <= i <= n ==> b == i
    ensures i > n ==> b == n
    ensures i < 0 ==> b == if i + n < 0 then 0 else i + n
  {
    if i < 0 then (if i + n < 0 then 0 else i + n) else if i > n then n else i
  }

  /** xs[lo:hi] in Python: empty when the normalised bounds cross. */
  function Slice<T>(xs: seq<T>, lo: int, hi: int): (r: seq<T>)
    ensures var l, h := SliceBound(lo, |xs|), SliceBound(hi, |xs|);
      |r| == (if l < h then h - l else 0) &&
      forall i :: 0 <= i < |r| ==> r[i] == xs[l + i]
  {
    var l, h := SliceBound(lo, |xs|), SliceBound(hi, |xs|);
    if l < h then xs[l..h] else []
  }

  /** The three output loops: segment_line writes characters, segment_document
      and segment_document_and_save write lines. */
  datatype Mode = CharacterMode | LineMode | MergedLineMode

  /** Decimal digits of n, most significant first, as Python's str(int). */
  function NatToString(n: nat): (s: string)
    ensures |s| > 0
    ensures forall i :: 0 <= i < |s| ==> '0' <= s[i] <= '9'
    ensures s[0] == '0' ==> n == 0
    decreases n
  {
    if n < 10 then [(48 + n) as char] else NatToString(n / 10) + [(48 + n % 10) as char]
  }

  /** The value of a string of decimal digits. */
  function DigitsValue(s: string): nat
    requires forall i :: 0 <= i < |s| ==> '0' <= s[i] <= '9'
  {
    if |s| == 0 then 0 else 10 * DigitsValue(s[..|s| - 1]) + (s[|s| - 1] as int - 48)
  }

  /** Reading the decimal string back gives the number. */
  lemma {:induction false} DigitsRoundTrip(n: nat)
    ensures DigitsValue(NatToString(n)) == n
    decreases n
  {
    var s := NatToString(n);
    if n >= 10 {
      DigitsRoundTrip(n / 10);
      assert s[..|s| - 1] == NatToString(n / 10);
    }
  }

  /** The file name stem of the k-th crop: {k}, Line{k} or Line {k}. */
  function Prefix(mode: Mode): string {
    match mode
    case CharacterMode => ""
    case LineMode => "Line"
    case MergedLineMode => "Line "
  }

  function FileName(mode: Mode, k: nat): (name: string)
    ensures |name| > |Prefix(mode)| && name[..|Prefix(mode)|] == Prefix(mode)
    ensures forall i :: |Prefix(mode)| <= i < |name| ==> '0' <= name[i] <= '9'
    ensures name[|Prefix(mode)|] == '0' ==> k == 0
  {
    Prefix(mode) + NatToString(k)
  }

  /** The digits after the stem read back as the crop's index. */
  lemma FileNameIndex(mode: Mode, k: nat)
    ensures DigitsValue(FileName(mode, k)[|Prefix(mode)|..]) == k
  {
    assert FileName(mode, k)[|Prefix(mode)|..] == NatToString(k);
    DigitsRoundTrip(k);
  }

  /** Within one mode no two crops share a file name. */
  lemma FileNamesDistinct(mode: Mode, j: nat, k: nat)
    requires j != k
    ensures FileName(mode, j) != FileName(mode, k)
  {
    FileNameIndex(mode, j);
    FileNameIndex(mode, k);
  }

  /** line[:, start:end + 1] for a character; document[start:end] for a line. */
  function CropOf(mode: Mode, image: Matrix, start: int, end: int): (pixels: Matrix)
    ensures mode == CharacterMode ==> |pixels| == |image|
    ensures mode != CharacterMode ==> pixels == Slice(image, start, end)
  {
    match mode
    case CharacterMode => seq(|image|, i requires 0 <= i < |image| => Slice(image[i], start, end + 1))
    case LineMode => Slice(image, start, end)
    case MergedLineMode => Slice(image, start, end)
  }

  /** A character crop of a rectangular image with 0 <= start <= end < width
      keeps every row and exactly the columns start..end, both included. */
  lemma CharacterCropShape(image: Matrix, start: nat, end: nat)
    requires IsRectangular(image) && start <= end < Width(image)
    ensures var c := CropOf(CharacterMode, image, start, end);
      |c| == |image| &&
      forall i :: 0 <= i < |c| ==>
        |c[i]| == end - start + 1 && (forall j :: 0 <= j < |c[i]| ==> c[i][j] == image[i][start + j])
  {
  }

  /** A line crop with 0 <= start <= end <= height keeps all columns of
      exactly the rows start..end - 1. */
  lemma LineCropShape(mode: Mode, image: Matrix, start: nat, end: nat)
    requires mode != CharacterMode && start <= end <= |image|
    ensures var c := CropOf(mode, image, start, end);
      |c| == end - start && forall i :: 0 <= i < |c| ==> c[i] == image[start + i]
  {
  }

  /** What one iteration of an output loop produces. */
  datatype Crop = Crop(index: nat, name: string, pixels: Matrix)

  /** The smaller of two lengths: zip stops at the end of the shorter list. */
  function Min(a: int, b: int): int { if a <= b then a else b }

  /** The crops of enumerate(zip(starts, ends)), in order. */
  function Zipped(mode: Mode, image: Matrix, starts: seq<int>, ends: seq<int>): (crops: seq<Crop>)
    ensures |crops| == Min(|starts|, |ends|)
  {
    seq(Min(|starts|, |ends|), k requires 0 <= k < Min(|starts|, |ends|) =>
      Crop(k, FileName(mode, k), CropOf(mode, image, starts[k], ends[k])))
  }

  /** One crop per zipped pair, the k-th numbered k and cut from the k-th
      pair, and no two with the same name. */
  lemma ZippedCrops(mode: Mode, image: Matrix, starts: seq<int>, ends: seq<int>)
    ensures var crops := Zipped(mode, image, starts, ends);
      (forall k :: 0 <= k < |crops| ==>
         crops[k].index == k && crops[k].pixels == CropOf(mode, image, starts[k], ends[k])) &&
      (forall j, k :: 0 <= j < k < |crops| ==> crops[j].name != crops[k].name)
  {
    var crops := Zipped(mode, image, starts, ends);
    forall j, k | 0 <= j < k < |crops| ensures crops[j].name != crops[k].name {
      FileNamesDistinct(mode, j, k);
    }
  }

  /** The output loop: one crop per pair of zip(starts, ends), numbered from 0. */
  method EmitCrops(mode: Mode, image: Matrix, starts: seq<int>, ends: seq<int>) returns (crops: seq<Crop>)
    ensures crops == Zipped(mode, image, starts, ends)
  {
    crops := [];
    for index := 0 to Min(|starts|, |ends|)
      invariant |crops| == index
      invariant forall k :: 0 <= k < index ==>
                  crops[k] == Crop(k, FileName(mode, k), CropOf(mode, image, starts[k], ends[k]))
    {
      crops := crops + [Crop(index, FileName(mode, index), CropOf(mode, image, starts[index], ends[index]))];
    }
    var spec := Zipped(mode, image, starts, ends);
    assert forall k :: 0 <= k < |spec| ==> crops[k] == spec[k];
  }
}
