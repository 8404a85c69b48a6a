/**
 * PDF documents as sequences of pages, and the page-appending loop of
 * `merge_pdfs`: PyMuPDF's `fitz.open(stream=...)` is a parser parameter that may
 * fail, and `insert_pdf` appends every page of one document to another.
 */
module Pdf {
  import opened Wrappers
  import opened Utf8

  /** One page, as its serialised content stream. */
  datatype Page = Page(content: Bytes)

  /** `fitz.open(stream=b, filetype="pdf")`: the pages of `b`, or `None` where PyMuPDF raises. */
  type Parser = Bytes -> Option<seq<Page>>

  /** A PyMuPDF document being built in memory. */
  class Document {
    var pages: seq<Page>

    /** `fitz.open()`: an empty document. */
    constructor ()
      ensures pages == []
    {
      pages := [];
    }

    /** `insert_pdf`: appends all pages of `other`, in order. */
    method InsertPdf(other: seq<Page>)
      modifies this
      ensures pages == old(pages) + other
    {
      pages := pages + other;
    }
  }

  /** The documents' pages, one document after another. */
  function Concat(docs: seq<seq<Page>>): seq<Page>
  {
    if docs == [] then [] else Concat(docs[..|docs| - 1]) + docs[|docs| - 1]
  }

  /** The sum of the documents' page counts. */
  function TotalPages(docs: seq<seq<Page>>): nat
  {
    if docs == [] then 0 else TotalPages(docs[..|docs| - 1]) + |docs[|docs| - 1]|
  }

  /** Parses every buffer in order; `None` as soon as one fails. */
  function ParseAll(buffers: seq<Bytes>, parse: Parser): Option<seq<seq<Page>>>
  {
    if buffers == [] then Some([])
    else
      match (ParseAll(buffers[..|buffers| - 1], parse), parse(buffers[|buffers| - 1]))
      case (Some(docs), Some(last)) => Some(docs + [last])
      case _ => None
  }

  /** The merged page sequence, or `None` if some buffer is not a readable PDF. */
  function Merged(buffers: seq<Bytes>, parse: Parser): Option<seq<Page>>
  {
    match ParseAll(buffers, parse)
    case None => None
    case Some(docs) => Some(Concat(docs))
  }

  /** The loop of `merge_pdfs`: open each buffer and insert its pages into one writer. */
  method MergePages(buffers: seq<Bytes>, parse: Parser) returns (r: Option<seq<Page>>)
    ensures r == Merged(buffers, parse)
  {
    var writer := new Document();
    var i := 0;
    while i < |buffers|
      invariant 0 <= i <= |buffers|
      invariant ParseAll(buffers[..i], parse).Some?
      invariant writer.pages == Concat(ParseAll(buffers[..i], parse).value)
    {
      assert buffers[..i + 1][..i] == buffers[..i];
      var reader := parse(buffers[i]);
      if reader.None? {
        ParseAllFails(buffers, parse, i);
        return None;
      }
      writer.InsertPdf(reader.value);
      i := i + 1;
    }
    assert buffers[..i] == buffers;
    return Some(writer.pages);
  }

  /** Parsing succeeds exactly when every buffer parses, and then yields their pages in order. */
  lemma {:induction false} ParseAllSome(buffers: seq<Bytes>, parse: Parser)
    ensures ParseAll(buffers, parse).Some? <==> forall i :: 0 <= i < |buffers| ==> parse(buffers[i]).Some?
    ensures ParseAll(buffers, parse).Some? ==>
      var docs := ParseAll(buffers, parse).value;
      |docs| == |buffers| && forall i :: 0 <= i < |buffers| ==> docs[i] == parse(buffers[i]).value
  {
    if buffers != [] {
      var init := buffers[..|buffers| - 1];
      ParseAllSome(init, parse);
      assert forall i :: 0 <= i < |init| ==> init[i] == buffers[i];
    }
  }

  /** Appending a readable buffer appends its pages as one more document. */
  lemma ParseAllSnoc(buffers: seq<Bytes>, b: Bytes, parse: Parser)
    requires ParseAll(buffers, parse).Some? && parse(b).Some?
    ensures ParseAll(buffers + [b], parse) == Some(ParseAll(buffers, parse).value + [parse(b).value])
  {
    var all := buffers + [b];
    assert all[..|all| - 1] == buffers && all[|all| - 1] == b;
  }

  /** One unreadable buffer makes the whole merge fail. */
  lemma ParseAllFails(buffers: seq<Bytes>, parse: Parser, k: nat)
    requires k < |buffers| && parse(buffers[k]).None?
    ensures ParseAll(buffers, parse).None?
  {
    ParseAllSome(buffers, parse);
  }

  /** Concatenating two lists of documents concatenates their pages. */
  lemma {:induction false} ConcatAppend(a: seq<seq<Page>>, b: seq<seq<Page>>)
    ensures Concat(a + b) == Concat(a) + Concat(b)
  {
    if b != [] {
      var b' := b[..|b| - 1];
      assert (a + b)[..|a + b| - 1] == a + b';
      ConcatAppend(a, b');
    } else {
      assert a + b == a;
    }
  }

  /** The merged page count is the sum of the inputs' page counts. */
  lemma {:induction false} ConcatLength(docs: seq<seq<Page>>)
    ensures |Concat(docs)| == TotalPages(docs)
  {
    if docs != [] {
      ConcatLength(docs[..|docs| - 1]);
    }
  }

  /**
   * Order: page `j` of document `i` sits in the merged output right after the
   * pages of documents `0..i`.
   */
  lemma {:induction false} ConcatPageAt(docs: seq<seq<Page>>, i: nat, j: nat)
    requires i < |docs| && j < |docs[i]|
    ensures TotalPages(docs[..i]) + j < |Concat(docs)|
    ensures Concat(docs)[TotalPages(docs[..i]) + j] == docs[i][j]
  {
    var n := |docs|;
    ConcatLength(docs[..n - 1]);
    ConcatLength(docs);
    if i == n - 1 {
      assert docs[..i] == docs[..n - 1];
    } else {
      assert docs[..n - 1][..i] == docs[..i];
      ConcatPageAt(docs[..n - 1], i, j);
    }
  }

  /** When every input opens, the merge succeeds and has as many pages as the inputs together. */
  lemma MergedPages(buffers: seq<Bytes>, parse: Parser)
    requires forall i :: 0 <= i < |buffers| ==> parse(buffers[i]).Some?
    ensures Merged(buffers, parse).Some?
    ensures |Merged(buffers, parse).value| == TotalPages(ParseAll(buffers, parse).value)
  {
    ParseAllSome(buffers, parse);
    ConcatLength(ParseAll(buffers, parse).value);
  }

  /** A one-page buffer followed by a two-page buffer merges into their three pages, in order. */
  lemma MergeOneThenTwo(x: Bytes, y: Bytes, parse: Parser, p: Page, q1: Page, q2: Page)
    requires parse(x) == Some([p]) && parse(y) == Some([q1, q2])
    ensures Merged([x, y], parse) == Some([p, q1, q2])
  {
    var none: seq<Bytes> := [];
    ParseAllSnoc(none, x, parse);
    assert none + [x] == [x];
    var first: seq<seq<Page>> := [[p]];
    assert ParseAll(none, parse).value + [[p]] == first;
    ParseAllSnoc([x], y, parse);
    assert [x] + [y] == [x, y];
    var docs: seq<seq<Page>> := [[p], [q1, q2]];
    assert first + [[q1, q2]] == docs;
    assert docs[..1][..0] == [] && docs[..1] == [[p]];
    assert Concat(docs[..1]) == [] + [p];
    assert Concat(docs) == [p] + [q1, q2] == [p, q1, q2];
  }
}
