/**
 * The POST branch of the `index` route: keep the uploads that are present,
 * allowed and convertible, in upload order, and merge them unless none is left.
 */
module Index {
  import opened Wrappers
  import opened Utf8
  import opened Filenames
  import opened Timestamp
  import opened Conversion
  import opened Pdf
  import opened Storage
  import opened Merge

  /** How a POST to `index` ends. */
  datatype Outcome =
    | NoFilesProvided     // "No files provided!"
    | NoValidFiles        // "No valid files to process!"
    | ServerError         // an exception escaped `merge_pdfs`
    | Redirect(filename: string)  // "Files merged successfully!", then `download`

  /** Truth value of a werkzeug `FileStorage`: it has a non-empty filename. */
  predicate Present(file: Upload)
  {
    file.filename != ""
  }

  /** The buffer an upload contributes, if it passes the loop's two checks. */
  function Accepted(file: Upload, conv: Converters): Option<Bytes>
  {
    if Present(file) && AllowedFile(file.filename) then Convert(file, conv) else None
  }

  /** The values `f` yields on `xs`, in order, skipping the `None`s. */
  function FilterMap<T, U>(xs: seq<T>, f: T -> Option<U>): seq<U>
  {
    if xs == [] then []
    else
      var init := FilterMap(xs[..|xs| - 1], f);
      match f(xs[|xs| - 1])
      case None => init
      case Some(y) => init + [y]
  }

  /** The positions of `xs` at which `f` yields a value. */
  function SomePositions<T, U>(xs: seq<T>, f: T -> Option<U>): seq<nat>
  {
    if xs == [] then []
    else
      var init := SomePositions(xs[..|xs| - 1], f);
      if f(xs[|xs| - 1]).Some? then init + [|xs| - 1] else init
  }

  /** `pdf_bytes_list` after the loop. */
  function Batch(files: seq<Upload>, conv: Converters): seq<Bytes>
  {
    FilterMap(files, (file: Upload) => Accepted(file, conv))
  }

  /** Positions of the uploads that make it into the batch. */
  function KeptIndices(files: seq<Upload>, conv: Converters): seq<nat>
  {
    SomePositions(files, (file: Upload) => Accepted(file, conv))
  }

  /** The loop of `index` that fills `pdf_bytes_list`. */
  method CollectBatch(files: seq<Upload>, conv: Converters) returns (pdfBytesList: seq<Bytes>)
    ensures pdfBytesList == Batch(files, conv)
  {
    pdfBytesList := [];
    var i := 0;
    while i < |files|
      invariant 0 <= i <= |files|
      invariant pdfBytesList == Batch(files[..i], conv)
    {
      assert files[..i + 1][..i] == files[..i];
      var file := files[i];
      if Present(file) && AllowedFile(file.filename) {
        var pdfBytes := ConvertToPdf(file, conv);
        if pdfBytes.Some? {
          pdfBytesList := pdfBytesList + [pdfBytes.value];
        }
      }
      i := i + 1;
    }
    assert files[..i] == files;
  }

  /** POST `/`: filter, then merge and redirect to the download of the merged file. */
  method IndexPost(folder: Folder, files: seq<Upload>, conv: Converters, parse: Parser,
                   clock: DateTime, now: int) returns (outcome: Outcome)
    requires Valid(clock)
    modifies folder
    ensures files == [] ==> outcome == NoFilesProvided
    ensures files != [] && Batch(files, conv) == [] ==> outcome == NoValidFiles
    ensures files != [] && Batch(files, conv) != [] ==>
      outcome == (if Merged(Batch(files, conv), parse).Some? then Redirect(MergedFileName(clock)) else ServerError)
    ensures outcome.Redirect? ==>
      folder.entries == old(folder.entries)[MergedFileName(clock) := StoredFile(now, Merged(Batch(files, conv), parse).value)]
    ensures !outcome.Redirect? ==> folder.entries == old(folder.entries)
  {
    if files == [] {
      return NoFilesProvided;
    }
    var pdfBytesList := CollectBatch(files, conv);
    if pdfBytesList == [] {
      return NoValidFiles;
    }
    var mergedPdfPath := MergePdfs(folder, pdfBytesList, parse, clock, now);
    if mergedPdfPath.None? {
      return ServerError;
    }
    MergedNameIsPdf(clock);
    return Redirect(Basename(mergedPdfPath.value));
  }

  /** The `if file` check adds nothing: an allowed name is never empty. */
  lemma AllowedIsPresent(file: Upload)
    requires AllowedFile(file.filename)
    ensures Present(file)
  {
  }

  /** Every present, allowed upload contributes a buffer. */
  lemma AcceptedIff(file: Upload, conv: Converters)
    ensures Accepted(file, conv).Some? <==> Present(file) && AllowedFile(file.filename)
  {
    if '.' in file.filename {
      ConvertNoneIff(file, conv);
    }
  }

  /** Positions that yield a value lie inside the list and increase strictly. */
  lemma {:induction false} SomePositionsIncreasing<T, U>(xs: seq<T>, f: T -> Option<U>)
    ensures forall j :: 0 <= j < |SomePositions(xs, f)| ==> SomePositions(xs, f)[j] < |xs|
    ensures forall j, k :: 0 <= j < k < |SomePositions(xs, f)| ==>
      SomePositions(xs, f)[j] < SomePositions(xs, f)[k]
  {
    if xs != [] {
      SomePositionsIncreasing(xs[..|xs| - 1], f);
    }
  }

  /** Position `i` is listed exactly when `f` yields a value there. */
  lemma {:induction false} SomePositionsExact<T, U>(xs: seq<T>, f: T -> Option<U>, i: nat)
    requires i < |xs|
    ensures i in SomePositions(xs, f) <==> f(xs[i]).Some?
  {
    var n := |xs| - 1;
    var init := xs[..n];
    SomePositionsIncreasing(init, f);
    if i < n {
      SomePositionsExact(init, f, i);
      assert init[i] == xs[i];
    }
  }

  /** The `j`-th value of `FilterMap` is what `f` yields at the `j`-th listed position. */
  lemma {:induction false} FilterMapAt<T, U>(xs: seq<T>, f: T -> Option<U>)
    ensures |FilterMap(xs, f)| == |SomePositions(xs, f)| <= |xs|
    ensures forall j :: 0 <= j < |SomePositions(xs, f)| ==>
      SomePositions(xs, f)[j] < |xs| &&
      f(xs[SomePositions(xs, f)[j]]).Some? &&
      FilterMap(xs, f)[j] == f(xs[SomePositions(xs, f)[j]]).value
  {
    if xs != [] {
      var n := |xs| - 1;
      var init := xs[..n];
      FilterMapAt(init, f);
      assert forall i :: 0 <= i < n ==> init[i] == xs[i];
    }
  }

  /**
   * The batch is the order-preserving subsequence of the accepted uploads:
   * `KeptIndices` increases strictly and lists exactly the accepted positions,
   * and the `j`-th buffer is that of the upload at the `j`-th kept position.
   */
  lemma BatchIsSubsequence(files: seq<Upload>, conv: Converters)
    ensures |Batch(files, conv)| == |KeptIndices(files, conv)| <= |files|
    ensures forall j, k :: 0 <= j < k < |KeptIndices(files, conv)| ==>
      KeptIndices(files, conv)[j] < KeptIndices(files, conv)[k]
    ensures forall i :: 0 <= i < |files| ==>
      (i in KeptIndices(files, conv) <==> Accepted(files[i], conv).Some?)
    ensures forall j :: 0 <= j < |KeptIndices(files, conv)| ==>
      KeptIndices(files, conv)[j] < |files| &&
      Accepted(files[KeptIndices(files, conv)[j]], conv).Some? &&
      Batch(files, conv)[j] == Accepted(files[KeptIndices(files, conv)[j]], conv).value
  {
    var f := (file: Upload) => Accepted(file, conv);
    SomePositionsIncreasing(files, f);
    FilterMapAt(files, f);
    forall i | 0 <= i < |files|
      ensures i in KeptIndices(files, conv) <==> Accepted(files[i], conv).Some?
    {
      SomePositionsExact(files, f, i);
    }
  }

  /** The batch is empty exactly when no upload is present and allowed. */
  lemma BatchEmptyIff(files: seq<Upload>, conv: Converters)
    ensures Batch(files, conv) == [] <==>
      forall i :: 0 <= i < |files| ==> !(Present(files[i]) && AllowedFile(files[i].filename))
  {
    BatchIsSubsequence(files, conv);
    var kept := KeptIndices(files, conv);
    if Batch(files, conv) != [] {
      var i := kept[0];
      AcceptedIff(files[i], conv);
    } else {
      forall i | 0 <= i < |files|
        ensures !(Present(files[i]) && AllowedFile(files[i].filename))
      {
        AcceptedIff(files[i], conv);
      }
    }
  }

  /**
   * Two accepted uploads whose buffers hold one and two pages (a converted
   * image and a PDF, say) merge into three pages, the first upload's first.
   */
  lemma TwoUploads(a: Upload, b: Upload, x: Bytes, y: Bytes, conv: Converters, parse: Parser,
                   p: Page, q1: Page, q2: Page)
    requires Accepted(a, conv) == Some(x) && Accepted(b, conv) == Some(y)
    requires parse(x) == Some([p]) && parse(y) == Some([q1, q2])
    ensures Batch([a, b], conv) == [x, y]
    ensures Merged([x, y], parse) == Some([p, q1, q2])
  {
    var files: seq<Upload> := [a, b];
    var f := (file: Upload) => Accepted(file, conv);
    assert files[..1][..0] == [] && files[..1] == [a];
    assert FilterMap(files[..1], f) == [x];
    MergeOneThenTwo(x, y, parse, p, q1, q2);
  }
}
