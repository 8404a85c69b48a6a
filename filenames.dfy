/**
 * Filename logic of app.py: the extension check `allowed_file`, the extension that
 * `convert_to_pdf` dispatches on, and `os.path.basename` for the merged file's path.
 */
module Filenames {

  /** The extensions accepted for upload (ALLOWED_EXTENSIONS). */
  const AllowedExtensions: set<string> := {"pdf", "png", "jpg", "jpeg", "csv", "docx"}

  /**
   * The text after the last occurrence of `sep` in `s`, or all of `s` when `sep`
   * does not occur: `s.rsplit(sep, 1)[-1]` in Python, and `os.path.basename` for '/'.
   */
  function AfterLast(s: string, sep: char): (r: string)
    ensures |r| <= |s| && s[|s| - |r|..] == r && sep !in r
    ensures |r| < |s| ==> s[|s| - |r| - 1] == sep
    ensures sep in s <==> |r| < |s|
  {
    if s == [] then []
    else if s[|s| - 1] == sep then []
    else
      var r := AfterLast(s[..|s| - 1], sep) + [s[|s| - 1]];
      assert sep in s ==> sep in s[..|s| - 1];
      r
  }

  /** ASCII case folding of one character. */
  function LowerChar(c: char): char
  {
    if 'A' <= c <= 'Z' then (c as int + 32) as char else c
  }

  /** `str.lower()`, restricted to ASCII letters (see README). */
  function Lower(s: string): (r: string)
    ensures |r| == |s| && forall i :: 0 <= i < |s| ==> r[i] == LowerChar(s[i])
  {
    if s == [] then [] else [LowerChar(s[0])] + Lower(s[1..])
  }

  /** The lower-cased text after the last '.', as `convert_to_pdf` computes it. */
  function Extension(filename: string): string
    requires '.' in filename
  {
    Lower(AfterLast(filename, '.'))
  }

  /** `allowed_file`: the name has a '.' and its lower-cased last suffix is allowed. */
  predicate AllowedFile(filename: string)
  {
    '.' in filename && Extension(filename) in AllowedExtensions
  }

  /** `os.path.basename`. */
  function Basename(path: string): string
  {
    AfterLast(path, '/')
  }

  /** Whatever precedes the last separator does not matter. */
  lemma {:induction false} AfterLastAppend(s: string, sep: char, t: string)
    requires sep !in t
    ensures AfterLast(s + [sep] + t, sep) == t
  {
    var u := s + [sep] + t;
    if t != [] {
      var t' := t[..|t| - 1];
      assert u[..|u| - 1] == s + [sep] + t';
      AfterLastAppend(s, sep, t');
      assert t' + [t[|t| - 1]] == t;
    }
  }

  /** A '.' followed only by dot-free text is the last '.', and that text is the suffix. */
  lemma LastDotSuffix(f: string, i: nat)
    requires i < |f| && f[i] == '.' && '.' !in f[i + 1..]
    ensures AfterLast(f, '.') == f[i + 1..]
  {
    assert f == f[..i] + ['.'] + f[i + 1..];
    AfterLastAppend(f[..i], '.', f[i + 1..]);
  }

  /**
   * Reference characterisation of `allowed_file`: some '.' in the name is followed
   * only by dot-free text whose lower-case form is an allowed extension.
   */
  lemma AllowedFileIff(f: string)
    ensures AllowedFile(f) <==>
      exists i :: 0 <= i < |f| && f[i] == '.' && '.' !in f[i + 1..] && Lower(f[i + 1..]) in AllowedExtensions
  {
    if AllowedFile(f) {
      var r := AfterLast(f, '.');
      var j := |f| - |r| - 1;
      assert f[j + 1..] == r;
      assert f[j] == '.' && '.' !in f[j + 1..] && Lower(f[j + 1..]) in AllowedExtensions;
    }
    if exists i :: 0 <= i < |f| && f[i] == '.' && '.' !in f[i + 1..] && Lower(f[i + 1..]) in AllowedExtensions {
      var i :| 0 <= i < |f| && f[i] == '.' && '.' !in f[i + 1..] && Lower(f[i + 1..]) in AllowedExtensions;
      LastDotSuffix(f, i);
    }
  }

  /** The extension of `stem + "." + ext`, for a dot-free `ext`, is `ext` lower-cased. */
  lemma ExtensionOfAppend(stem: string, ext: string)
    requires '.' !in ext
    ensures '.' in stem + ['.'] + ext
    ensures Extension(stem + ['.'] + ext) == Lower(ext)
  {
    AfterLastAppend(stem, '.', ext);
    assert (stem + ['.'] + ext)[|stem|] == '.';
  }

  /** The extension is compared without regard to case. */
  lemma AllowedFileUpperCase()
    ensures AllowedFile("x.PDF")
  {
    ExtensionOfAppend("x", "PDF");
    assert "x" + ['.'] + "PDF" == "x.PDF";
    assert Lower("PDF") == "pdf" by {
      assert Lower("PDF")[0] == 'p' && Lower("PDF")[1] == 'd' && Lower("PDF")[2] == 'f';
    }
  }

  /** Only the last suffix counts, a name without '.' fails, and so does an empty suffix. */
  lemma AllowedFileRejects()
    ensures !AllowedFile("x.pdf.exe")
    ensures !AllowedFile("pdf")
    ensures !AllowedFile("x.")
  {
    ExtensionOfAppend("x.pdf", "exe");
    assert "x.pdf" + ['.'] + "exe" == "x.pdf.exe";
    assert Lower("exe")[0] == 'e' && |Lower("exe")| == 3;
    ExtensionOfAppend("x", "");
    assert "x" + ['.'] + "" == "x.";
    assert "pdf"[0] != '.' && "pdf"[1] != '.' && "pdf"[2] != '.';
  }
}
