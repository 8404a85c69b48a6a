/**
 * `convert_to_pdf`: routes an uploaded file on its extension and writes the
 * result into an in-memory byte buffer.  The image, CSV and .docx parsing
 * libraries are parameters (`Converters`); the pdf branch and the .docx
 * paragraph loop are modelled exactly.
 */
module Conversion {
  import opened Wrappers
  import opened Utf8
  import opened Filenames

  /** An uploaded file: its declared name and its bytes. */
  datatype Upload = Upload(filename: string, content: Bytes)

  /**
   * The foreign libraries: PIL's image-to-PDF re-encoding, pandas' CSV
   * rendering, and python-docx's list of paragraph texts in document order.
   */
  datatype Converters = Converters(
    image: Bytes -> Bytes,
    csv: Bytes -> Bytes,
    paragraphs: Bytes -> seq<string>)

  /** A `BytesIO` that is only ever written to, then read back whole. */
  class BytesIO {
    var buffer: Bytes

    constructor ()
      ensures buffer == []
    {
      buffer := [];
    }

    method Write(b: Bytes)
      modifies this
      ensures buffer == old(buffer) + b
    {
      buffer := buffer + b;
    }
  }

  /** What the .docx loop writes: each paragraph plus "\n", UTF-8 encoded, in order. */
  function DocxText(paragraphs: seq<string>): Bytes
  {
    if paragraphs == [] then []
    else DocxText(paragraphs[..|paragraphs| - 1]) + Encode(paragraphs[|paragraphs| - 1] + "\n")
  }

  /** The paragraphs' text, each followed by a newline. */
  function Lines(paragraphs: seq<string>): string
  {
    if paragraphs == [] then []
    else Lines(paragraphs[..|paragraphs| - 1]) + paragraphs[|paragraphs| - 1] + "\n"
  }

  /** Total UTF-8 length of the paragraphs' text. */
  function EncodedLength(paragraphs: seq<string>): nat
  {
    if paragraphs == [] then 0
    else EncodedLength(paragraphs[..|paragraphs| - 1]) + |Encode(paragraphs[|paragraphs| - 1])|
  }

  /** The result of `convert_to_pdf` for a file whose name has a '.'; `None` for other extensions. */
  function Convert(file: Upload, conv: Converters): Option<Bytes>
    requires '.' in file.filename
  {
    var ext := Extension(file.filename);
    if ext == "pdf" then Some(file.content)
    else if ext in ["png", "jpg", "jpeg"] then Some(conv.image(file.content))
    else if ext == "csv" then Some(conv.csv(file.content))
    else if ext == "docx" then Some(DocxText(conv.paragraphs(file.content)))
    else None
  }

  /**
   * `convert_to_pdf`.  The name must contain a '.': Python's `rsplit('.', 1)[1]`
   * raises otherwise, and the only caller checks `allowed_file` first.
   */
  method ConvertToPdf(file: Upload, conv: Converters) returns (r: Option<Bytes>)
    requires '.' in file.filename
    ensures r == Convert(file, conv)
  {
    var ext := Extension(file.filename);
    ghost var expected := Convert(file, conv);
    var pdfBytes := new BytesIO();
    if ext == "pdf" {
      assert expected == Some(file.content);
      pdfBytes.Write(file.content);
      assert pdfBytes.buffer == file.content;
      r := Some(pdfBytes.buffer);
    } else if ext in ["png", "jpg", "jpeg"] {
      var rendered := conv.image(file.content);
      assert expected == Some(rendered);
      pdfBytes.Write(rendered);
      assert pdfBytes.buffer == rendered;
      r := Some(pdfBytes.buffer);
    } else if ext == "csv" {
      var rendered := conv.csv(file.content);
      assert expected == Some(rendered);
      pdfBytes.Write(rendered);
      assert pdfBytes.buffer == rendered;
      r := Some(pdfBytes.buffer);
    } else if ext == "docx" {
      var paragraphs := conv.paragraphs(file.content);
      var i := 0;
      while i < |paragraphs|
        invariant 0 <= i <= |paragraphs|
        invariant pdfBytes.buffer == DocxText(paragraphs[..i])
      {
        assert paragraphs[..i + 1][..i] == paragraphs[..i];
        pdfBytes.Write(Encode(paragraphs[i] + "\n"));
        i := i + 1;
      }
      assert paragraphs[..i] == paragraphs;
      r := Some(pdfBytes.buffer);
    } else {
      r := None;
    }
  }

  /** Every extension `allowed_file` accepts has a conversion; only the others yield `None`. */
  lemma ConvertNoneIff(file: Upload, conv: Converters)
    requires '.' in file.filename
    ensures Convert(file, conv).None? <==> !AllowedFile(file.filename)
  {
  }

  /** The pdf branch passes the bytes through unchanged. */
  lemma PdfPassthrough(file: Upload, conv: Converters)
    requires '.' in file.filename && Extension(file.filename) == "pdf"
    ensures Convert(file, conv) == Some(file.content)
  {
  }

  /** The .docx output is the UTF-8 encoding of the paragraphs, each followed by a newline. */
  lemma {:induction false} DocxTextIsEncodedLines(paragraphs: seq<string>)
    ensures DocxText(paragraphs) == Encode(Lines(paragraphs))
  {
    if paragraphs != [] {
      var init, last := paragraphs[..|paragraphs| - 1], paragraphs[|paragraphs| - 1];
      DocxTextIsEncodedLines(init);
      EncodeAppend(Lines(init), last + "\n");
      assert Lines(paragraphs) == Lines(init) + (last + "\n");
    }
  }

  /** The .docx output decodes back to the paragraph text, newline after each paragraph. */
  lemma DocxTextDecodes(paragraphs: seq<string>)
    ensures Decode(DocxText(paragraphs)) == Some(Lines(paragraphs))
  {
    DocxTextIsEncodedLines(paragraphs);
    DecodeEncode(Lines(paragraphs));
  }

  /** Output length: the encoded paragraph lengths plus one newline byte per paragraph. */
  lemma {:induction false} DocxTextLength(paragraphs: seq<string>)
    ensures |DocxText(paragraphs)| == EncodedLength(paragraphs) + |paragraphs|
  {
    if paragraphs != [] {
      var init, last := paragraphs[..|paragraphs| - 1], paragraphs[|paragraphs| - 1];
      DocxTextLength(init);
      EncodeAppend(last, "\n");
      assert Encode("\n") == [10];
    }
  }
}
