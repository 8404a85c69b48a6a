/**
 * `merge_pdfs`: merges the converted buffers into one document and saves it in
 * the merged-file directory as "Merged_File_<time stamp>.pdf".
 */
module Merge {
  import opened Wrappers
  import opened Utf8
  import opened Filenames
  import opened Timestamp
  import opened Pdf
  import opened Storage

  /** The merged file's name for the local time `clock`. */
  function MergedFileName(clock: DateTime): string
    requires Valid(clock)
  {
    "Merged_File_" + Format(clock) + ".pdf"
  }

  /** `os.path.join(MERGED_FOLDER, name)`. */
  function MergedPath(clock: DateTime): string
    requires Valid(clock)
  {
    MergedFolder + "/" + MergedFileName(clock)
  }

  /**
   * `merge_pdfs`.  `clock` is the local time `strftime` reads and `now` the
   * epoch second that becomes the file's modification time.  When PyMuPDF
   * cannot open a buffer the request aborts and nothing is written.
   */
  method MergePdfs(folder: Folder, pdfFiles: seq<Bytes>, parse: Parser, clock: DateTime, now: int)
    returns (path: Option<string>)
    requires Valid(clock)
    modifies folder
    ensures path.Some? <==> Merged(pdfFiles, parse).Some?
    ensures path.Some? ==> path.value == MergedPath(clock)
    ensures path.Some? ==>
      folder.entries == old(folder.entries)[MergedFileName(clock) := StoredFile(now, Merged(pdfFiles, parse).value)]
    ensures path.None? ==> folder.entries == old(folder.entries)
  {
    var pages := MergePages(pdfFiles, parse);
    if pages.None? {
      return None;
    }
    folder.Save(MergedFileName(clock), StoredFile(now, pages.value));
    return Some(MergedPath(clock));
  }

  /** The merged file's name has no '/' and no '.' beyond its extension. */
  lemma {:induction false} MergedFileNameShape(clock: DateTime)
    requires Valid(clock)
    ensures "Merged_File_" + Format(clock) == MergedFileName(clock)[..|MergedFileName(clock)| - 4]
    ensures '/' !in MergedFileName(clock)
    ensures '.' !in MergedFileName(clock)[..|MergedFileName(clock)| - 4]
  {
    var stamp := Format(clock);
    assert forall i :: 0 <= i < |stamp| ==> stamp[i] in "0123456789-_" by {
      forall i | 0 <= i < |stamp| ensures stamp[i] in "0123456789-_" {
        FormatChars(clock, i);
      }
    }
    var name := MergedFileName(clock);
    assert name[..|name| - 4] == "Merged_File_" + stamp;
    assert forall i :: 0 <= i < |name| ==> name[i] != '/' by {
      forall i | 0 <= i < |name| ensures name[i] != '/' {
        if i < 12 {
        } else if i < 31 {
          assert name[i] == stamp[i - 12];
        } else {
          assert name[i] == ".pdf"[i - 31];
        }
      }
    }
    assert forall i :: 0 <= i < |name| - 4 ==> name[i] != '.' by {
      forall i | 0 <= i < |name| - 4 ensures name[i] != '.' {
        if i >= 12 {
          assert name[i] == stamp[i - 12];
        }
      }
    }
  }

  /** Every character of a time stamp is a digit, '-' or '_'. */
  lemma FormatChars(clock: DateTime, i: nat)
    requires Valid(clock) && i < |Format(clock)|
    ensures Format(clock)[i] in "0123456789-_"
  {
  }

  /**
   * The redirect after a merge carries the bare file name, and that name is
   * itself an allowed upload whose extension is "pdf".
   */
  lemma MergedNameIsPdf(clock: DateTime)
    requires Valid(clock)
    ensures Basename(MergedPath(clock)) == MergedFileName(clock)
    ensures AllowedFile(MergedFileName(clock)) && Extension(MergedFileName(clock)) == "pdf"
  {
    var name := MergedFileName(clock);
    MergedFileNameShape(clock);
    assert MergedPath(clock) == MergedFolder + ['/'] + name;
    AfterLastAppend(MergedFolder, '/', name);
    var stem := name[..|name| - 4];
    assert name == stem + ['.'] + "pdf";
    ExtensionOfAppend(stem, "pdf");
    assert Lower("pdf") == "pdf";
  }

  /** Merges in different seconds never share a file name, so neither overwrites the other. */
  lemma MergedFileNameInjective(c1: DateTime, c2: DateTime)
    requires Valid(c1) && Valid(c2) && c1 != c2
    ensures MergedFileName(c1) != MergedFileName(c2)
  {
    if MergedFileName(c1) == MergedFileName(c2) {
      assert Format(c1) == MergedFileName(c1)[12..31];
      assert Format(c2) == MergedFileName(c2)[12..31];
      FormatInjective(c1, c2);
    }
  }
}
