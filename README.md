# secure-doc-merger: a Dafny model of the upload-and-merge core

The system is a small Flask application (`app.py`). An administrator logs in and uploads files. Each file whose extension is allowed (pdf, png, jpg, jpeg, csv, docx) is converted to a "PDF" byte buffer. The buffers that convert are merged page by page into one document. That document is saved as `/tmp/merged/Merged_File_<YYYY-mm-dd_HH-MM-SS>.pdf`, and the browser is sent to a download link. A separate `cleanup` endpoint deletes merged files older than 30 days.

This project models that logic in Dafny and proves properties of it. Modules, leaf first:

- `Wrappers`: `Option`, standing in for Python's `None`.
- `Utf8`: `str.encode("utf-8")` as `Encode`, with a decoder proved to invert it.
- `Filenames`: `allowed_file`, the extension `convert_to_pdf` dispatches on, and `os.path.basename`.
- `Timestamp`: the `strftime("%Y-%m-%d_%H-%M-%S")` stamp, with a parser proved to invert it.
- `Conversion`: `convert_to_pdf` as a method writing into a `BytesIO` class, specified by the function `Convert`.
- `Pdf`: documents as page sequences, PyMuPDF's `insert_pdf` as a `Document` class, and the merge loop `MergePages`, specified by `Merged` and `Concat`.
- `Storage`: the `/tmp/merged` directory as a `Folder` class over a map from file name to a stored file (mtime, pages), with `Save`, `Download` and `Cleanup`.
- `Merge`: `merge_pdfs` and the merged file's name.
- `Index`: the filter loop of the `index` route (`CollectBatch`, specified by `Batch`) and the whole POST branch (`IndexPost`).
- `Auth`: `USER_CREDENTIALS`, the check in `login`, and `load_user`.

Two details of `app.py` that the model keeps:

- The retention limit is the constant 30 × 86400 seconds. The comparison is a strict `<`.
- The .docx branch writes `"\n"` after every paragraph, the last one included. It does not join paragraphs with separators.

Where the libraries come in, the model takes them as parameters:

- `Converters` holds PIL's image-to-PDF, pandas' CSV rendering, and python-docx's paragraph list.
- `Parser` is PyMuPDF's `fitz.open(stream=…)`. It returns `None` where PyMuPDF would raise. The merge then aborts and nothing is saved. This is the outcome for the .docx buffers, which hold plain text and not PDF.
- Clocks are inputs: a broken-down local time for the name, and integer epoch seconds for file modification times.

## Model

| member | source | states |
|---|---|---|
| `Filenames.AfterLast` | app.py:55 | The result is the dot-free tail of the name right after its last `.`. When the name has no `.`, the result is the whole name. |
| `Filenames.Extension` | app.py:59 | The lower-cased text after the last `.`; `ExtensionOfAppend` and `LastDotSuffix` characterise it. |
| `Filenames.AllowedFile` | app.py:53-55 | `allowed_file`; `AllowedFileIff` gives its independent characterisation, proved both ways. |
| `Filenames.Basename` | app.py:116 | `os.path.basename`: the text after the last `/`; `MergedNameIsPdf` shows it recovers the merged name from its path. |
| `Filenames.AfterLastAppend` | app.py:55 | Only the text after the last separator matters: `AfterLast(s + "." + t) == t` for any dot-free `t`. |
| `Filenames.LastDotSuffix` | app.py:59 | A `.` followed only by dot-free text is the last one, so that text is the extension `rsplit` gives. |
| `Filenames.AllowedFileIff` | app.py:51-55 | `allowed_file(f)` holds iff some `.` in `f` is followed by dot-free text whose lower-case form is in {pdf, png, jpg, jpeg, csv, docx}. |
| `Filenames.ExtensionOfAppend` | app.py:59 | The extension of `stem + "." + ext`, for a dot-free `ext`, is `ext` lower-cased, whatever the stem holds. |
| `Filenames.AllowedFileUpperCase` | app.py:53-55 | `"x.PDF"` is accepted: case does not matter. |
| `Filenames.AllowedFileRejects` | app.py:53-55 | `"x.pdf.exe"` (only the last suffix counts), `"pdf"` (no dot) and `"x."` (empty suffix) are rejected. |
| `Utf8.EncodeChar` | app.py:73 | A character encodes to 1–4 bytes according to its code point. Only one-byte encodings have a lead byte below 0x80. All later bytes are continuation bytes. |
| `Utf8.Encode` | app.py:73 | `str.encode("utf-8")`; `DecodeEncode` proves a strict decoder inverts it, `EncodeAppend` and `EncodeLength` give its structure and length. |
| `Utf8.DecodeEncodeChar` | app.py:73 | The decoder reads back exactly one encoded character and its length, whatever bytes follow it. |
| `Utf8.EncodeAppend` | app.py:73 | The encoding of `s + t` is the encoding of `s` followed by the encoding of `t`. |
| `Utf8.DecodeEncode` | app.py:73 | Round trip: decoding the UTF-8 encoding of any string gives the string back. |
| `Utf8.EncodeLength` | app.py:73 | The encoding is never shorter than the text. It is exactly as long iff every character is ASCII. |
| `Conversion.BytesIO.Write` | app.py:63 | A write appends its bytes to the buffer. |
| `Conversion.Convert` | app.py:57-78 | The value `convert_to_pdf` returns; `ConvertNoneIff` says it is `None` exactly for rejected names, `PdfPassthrough` and `DocxTextIsEncodedLines` give the pdf and docx branches. |
| `Conversion.ConvertToPdf` | app.py:57-78 | The method (branches plus the paragraph loop over the buffer) returns exactly `Convert`: pdf passes through, png/jpg/jpeg go to the image converter, csv goes to the CSV renderer, docx gives `DocxText` of the paragraphs, and any other extension gives `None`. |
| `Conversion.ConvertNoneIff` | app.py:59-75 | For a name with a `.`, the result is `None` iff `allowed_file` rejects the name. So every accepted name takes a non-`None` branch. |
| `Conversion.PdfPassthrough` | app.py:62-63 | The pdf branch outputs exactly the uploaded bytes. |
| `Conversion.DocxTextIsEncodedLines` | app.py:70-73 | The .docx output is the UTF-8 encoding of the paragraphs in document order, each followed by `"\n"`. |
| `Conversion.DocxTextDecodes` | app.py:70-73 | The .docx output decodes back to that newline-terminated paragraph text. |
| `Conversion.DocxTextLength` | app.py:72-73 | The output length is the sum of the paragraphs' encoded lengths plus the paragraph count. |
| `Pdf.Document.constructor` | app.py:85 | `fitz.open()` starts with no pages. |
| `Pdf.Document.InsertPdf` | app.py:88 | `insert_pdf` appends all of the other document's pages, in order. |
| `Pdf.Merged` | app.py:85-88 | The merged pages, or `None` when a buffer does not open; `MergedPages`, `ParseAllFails` and `ConcatPageAt` characterise it. |
| `Pdf.MergePages` | app.py:85-88 | The loop returns `Merged`: the concatenated pages of all inputs in input order, or `None` as soon as an input cannot be opened. |
| `Pdf.ParseAllSome` | app.py:86-87 | Opening all inputs succeeds iff each input opens. On success there is one page list per input, each equal to that input's parse. |
| `Pdf.ParseAllSnoc` | app.py:86-88 | One more readable input adds its pages as one more document at the end. |
| `Pdf.ParseAllFails` | app.py:87 | A single unreadable input makes the whole merge fail. |
| `Pdf.ConcatAppend` | app.py:86-88 | Merging two lists of documents one after the other gives the first list's pages followed by the second's. |
| `Pdf.ConcatLength` | app.py:86-88 | The merged page count is the sum of the inputs' page counts. |
| `Pdf.ConcatPageAt` | app.py:86-88 | Page `j` of input `i` is at position (pages of inputs `0..i`) + `j` of the output, so order is kept. |
| `Pdf.MergeOneThenTwo` | app.py:85-88 | A one-page buffer followed by a two-page buffer merges into their three pages, in that order. |
| `Pdf.MergedPages` | app.py:85-90 | When every input opens, the merge succeeds and has the sum of the inputs' page counts. |
| `Timestamp.Digits` | app.py:82 | A field is written in exactly `w` decimal digits, with zero padding. |
| `Timestamp.ParseDigitsOfDigits` | app.py:82 | A zero-padded field reads back as its value. |
| `Timestamp.Format` | app.py:82 | The stamp is 19 characters long. |
| `Timestamp.ParseFormat` | app.py:82 | Round trip: parsing the stamp of a valid time gives that time back. |
| `Timestamp.FormatInjective` | app.py:82 | Distinct times give distinct stamps. |
| `Storage.Folder.Save` | app.py:90 | Saving writes the named file and replaces any file with the same name. Nothing else changes. |
| `Storage.Folder.Download` | app.py:122-127 | A name is found iff it is in the directory. When found, the pages returned are that file's pages. |
| `Storage.Folder.Cleanup` | app.py:146-154 | After the sweep the directory is `Swept(old directory, now)`, whatever order the names are visited in. |
| `Storage.Swept` | app.py:149-153 | The directory after a sweep; `SweptSpec` states which files remain, `SweptIdempotent` and `SweptMonotone` how sweeps compose. |
| `Storage.SweptSpec` | app.py:152-153 | A file remains iff it was present and its mtime is no earlier than `now - 2592000`. A remaining file is unchanged. |
| `Storage.SweptKeepsBoundary` | app.py:152 | A file whose mtime is exactly `now - 2592000` is kept. |
| `Storage.SweptIdempotent` | app.py:149-153 | A second sweep at the same `now` removes nothing. |
| `Storage.SweptMonotone` | app.py:152 | A later sweep keeps no file that an earlier sweep removes. |
| `Storage.FreshFileSurvives` | app.py:152 | A file saved at `now` survives a sweep at `now`. |
| `Merge.MergePdfs` | app.py:80-91 | If every buffer opens, the file named `MergedFileName(clock)` is written (mtime `now`, the merged pages) and its path under `/tmp/merged` is returned. Otherwise nothing is written. |
| `Merge.MergedFileName` | app.py:82-83 | `Merged_File_<stamp>.pdf`; `MergedFileNameShape`, `MergedNameIsPdf` and `MergedFileNameInjective` characterise it. |
| `Merge.MergedPath` | app.py:83 | The name joined under `/tmp/merged`; `MergedNameIsPdf` shows its basename is the name. |
| `Merge.MergedFileNameShape` | app.py:82-83 | The merged name holds no `/`, and no `.` comes before its `.pdf`. |
| `Merge.MergedNameIsPdf` | app.py:114-116 | `basename` of the merged path is the merged name. That name passes `allowed_file`, with extension `pdf`. |
| `Merge.MergedFileNameInjective` | app.py:82-83 | Distinct local clock readings give distinct names. |
| `Index.CollectBatch` | app.py:102-108 | The loop builds `Batch`: in upload order, the converted buffer of each upload that is present and allowed and whose conversion is not `None`. |
| `Index.IndexPost` | app.py:96-116 | An empty upload list gives "No files provided!". An empty batch gives "No valid files to process!". In both cases nothing is merged and the directory is unchanged. Otherwise the batch is merged and saved, and the outcome is a redirect to the merged file's bare name, or an error if PyMuPDF cannot open a buffer. |
| `Index.Present` | app.py:105 | The truth value of an upload: a non-empty filename; `AllowedIsPresent` shows it never rejects an allowed name. |
| `Index.Batch` | app.py:102-108 | `pdf_bytes_list` after the loop; `BatchIsSubsequence` and `BatchEmptyIff` characterise it. |
| `Index.AllowedIsPresent` | app.py:105 | The `if file` check never rejects an allowed name, since an allowed name is never empty. |
| `Index.AcceptedIff` | app.py:105-108 | An upload contributes a buffer iff it is present and `allowed_file` accepts its name. |
| `Index.SomePositionsIncreasing` | app.py:104-108 | The kept positions are in range and strictly increasing. |
| `Index.SomePositionsExact` | app.py:104-108 | A position is kept iff the filter yields a value there. |
| `Index.FilterMapAt` | app.py:104-108 | The `j`-th kept value is the one produced at the `j`-th kept position. The result is never longer than its input. |
| `Index.BatchIsSubsequence` | app.py:102-108 | The batch is the order-preserving subsequence of accepted uploads, never longer than the upload list. Position `i` is kept iff upload `i` is accepted, and the `j`-th buffer comes from the `j`-th kept upload. |
| `Index.BatchEmptyIff` | app.py:104-112 | The batch is empty, which is the "No valid files" failure, iff no upload is present with an allowed name. |
| `Index.TwoUploads` | app.py:102-114 | Two accepted uploads with one and two pages (an image and a PDF, say) merge into three pages, the first upload's page first. |
| `Auth.Credentials` | app.py:30-35 | `USER_CREDENTIALS` has exactly one key: the administrator's name. |
| `Auth.GetEnv` | app.py:30-31 | `os.getenv(name, default)`: the variable's value when set, else the default; `DefaultLogin` uses the defaults. |
| `Auth.AdminUsername` | app.py:30 | `ADMIN_USERNAME`, defaulting to `admin`; `DefaultLogin` states the default. |
| `Auth.AdminPassword` | app.py:31 | `ADMIN_PASSWORD`, defaulting to `password`; `DefaultLogin` states the default. |
| `Auth.Login` | app.py:133-134 | The credential check of `login`; `LoginIff` states exactly who logs in, `LoginThenLoad` links it to `load_user`. |
| `Auth.LoadUser` | app.py:41-43 | `load_user` returns a user iff the id is a known name, and that user has the id. |
| `Auth.LoginIff` | app.py:133-134 | Login succeeds iff the name and the password are the configured administrator's. The user logged in is that name. |
| `Auth.DefaultLogin` | app.py:30-35 | With neither environment variable set, only `admin` / `password` logs in. |
| `Auth.LoginThenLoad` | app.py:133-135 | A user who has logged in is found again by `load_user`. |
| `Auth.LoadUserOnlyAdmin` | app.py:42-43 | `load_user` accepts only the administrator's name. |

## Left out

- Flask plumbing is not modelled: routing, `flash`, `redirect`, `render_template`, `send_file`, `jsonify` and flask_login sessions. The `Index.Outcome` datatype names each flash/redirect result. The GET branch of `index`, `logout` and server start-up are not modelled.
- The WTForms validators (required, length 4–25) are not modelled, nor the `.env` loading or `app.secret_key`. `Auth.Login` models the check after the form has validated.
- PIL, pandas and python-docx are parameters and are taken to always return. Their own exceptions (a corrupt image, an unreadable CSV or .docx) are not modelled.
- `Conversion.Convert`: the csv branch is modelled as returning the renderer's bytes. In `app.py` (line 69) `df.to_string` is handed a `BytesIO`, into which pandas writes a `str`, so `BytesIO.write` raises `TypeError` and the whole request fails inside `convert_to_pdf`. The model does not capture that abort; the same holds for `Conversion.ConvertToPdf`.
- PyMuPDF's parsing and serialisation are not modelled: a document is a page sequence. Saving a document with zero pages, which PyMuPDF refuses, is not modelled.
- `Filenames.Lower` folds only ASCII letters, whereas `str.lower` folds all of Unicode. For `allowed_file` the result is the same. The only non-ASCII character that lowers to an ASCII one is KELVIN SIGN, which lowers to `k`, and `k` appears in no allowed extension.
- `Conversion.ConvertToPdf` requires a `.` in the name. Python raises `IndexError` without one, and the only caller checks `allowed_file` first.
- `Merge.MergePdfs` requires a valid time. `Timestamp.Valid` limits years to four digits, and `%Y` is not modelled for other years.
- The link between the local time naming the file and the epoch second used as its mtime (the time zone) is not modelled. They are two independent inputs. In particular, across a daylight-saving fall-back two merges an hour apart read the same local time, get the same name, and the second `Save` replaces the first.
- Filesystem effects are reduced to the map: `os.makedirs`, directories inside `/tmp/merged`, `os.stat` failures and partial writes are not modelled. Float `st_mtime` and `time.time()` become integer seconds.
- `Storage.Folder.Download` looks up the bare name. Names that `os.path.join` would treat specially (absolute paths, `..`) are not modelled.
- Concurrent requests are not modelled. This includes two merges in the same second: `Save` replaces the same-named file, last write wins.
- `secure_filename` is imported but never used, so it is not modelled.
