# MinerU result delivery, modelled in Dafny

This project models the result-delivery layer of the MinerU document parser's web service. That layer sits between the HTTP/WebSocket endpoints and the parsing engine. Two files hold it:

- `mineru/cli/fast_api.py`. The `/file_parse` and `/layout_ocr` endpoints accept uploaded PDF or image files. They keep each accepted file's stem as its document name and give every document a language. `/file_parse` then runs the engine once and answers in one of two forms:
  - a zip archive whose entries sit under a sanitized copy of each document name (`sanitize_filename`);
  - a JSON object with one key per document.

  `/layout_ocr` answers with the JSON built by `format_layout_ocr_result`; only its intake is modelled.
- `mineru/cli/layout_ocr_streaming.py`. `stream_layout_ocr_pages` runs the engine on one document and then streams one JSON event per page over a WebSocket. `format_page_result` turns a page into numbered layout boxes.

The engine, the filesystem and the per-block formatter are inputs of the model:

- The engine is a function from the job to the workspace it leaves, or to an error.
- The filesystem is a `Workspace`: which directories exist, what a file holds, which `*.jpg` files a directory lists.
- The block formatter `format_block_to_layout_box` is a `Converter` from a raw block to an optional box body. The source hands it the running id; the model attaches that id to the body the converter yields (see `PageFormat.FormatBlocks` under "## Left out").
- For the stream, each step that can raise becomes an outcome:
  - workspace and byte preparation;
  - the engine call;
  - the image-writer setup;
  - the work on each page before formatting.

Python's `\w` depends on the Unicode database, so it is a parameter `word`. Every property needs only `WordClass(word)`, which says that underscore, ASCII letters and ASCII digits are word characters.

Modules:

| file | module | what |
|---|---|---|
| wrappers.dfy | Wrappers | `Option`, `Result`, `Outcome` |
| sanitize.dfy | Sanitize | `sanitize_filename` and an independent per-character description of its first step |
| paths.dfy | Paths | `PurePosixPath.name`/`.stem`/`.suffix`, `os.path.basename` |
| uploads.dfy | Uploads | the upload acceptance loop, language reconciliation |
| archive.dfy | Archive | the parse directory, zip entry selection, JSON fields |
| file_parse.dfy | FileParse | the `/file_parse` request end to end, with the archive named as the source names it |
| page_format.dfy | PageFormat | `format_page_result`, as a function and as a loop |
| stream.dfy | Stream | the event sequence and a protocol state machine it satisfies |

## Model

| member | source | states |
|---|---|---|
| Sanitize.StripSeparators | mineru/cli/fast_api.py:36 | The first substitution leaves no `/` or `\` and no two adjacent dots. It never lengthens the name and keeps a leading ordinary character. |
| Sanitize.StripSeparatorsKeepsSurvivors | mineru/cli/fast_api.py:36 | The left-to-right regex scan keeps exactly the characters an independent rule keeps: any character that is not a slash or dot, and any dot with no slash or dot next to it. |
| Sanitize.ReplaceDisallowed | mineru/cli/fast_api.py:37 | The second substitution keeps the length, keeps every word character, `.` and `-` in place, and turns every other character into `_`. When `_` is a word character, every character of the result is allowed. |
| Sanitize.SanitizeFilename | mineru/cli/fast_api.py:30-40 | The result is never empty and never starts with `.`. It contains no slash and no `..`. Every character is a word character, `.` or `-`. The empty name gives `unnamed`. |
| Sanitize.FixedPointIffSafe | mineru/cli/fast_api.py:36-40 | A name is left unchanged exactly when it is already safe: non-empty, no leading dot, no slash, no `..`, only allowed characters. |
| Sanitize.SanitizeIdempotent | mineru/cli/fast_api.py:36-40 | Sanitizing twice gives the same as sanitizing once. |
| Sanitize.StripSeparatorsIdentity | mineru/cli/fast_api.py:36 | A name without slashes or adjacent dots passes the first substitution unchanged. |
| Sanitize.ReplaceDisallowedIdentity | mineru/cli/fast_api.py:37 | A name made only of allowed characters passes the second substitution unchanged. |
| Sanitize.SanitizePlain | mineru/cli/fast_api.py:36-40 | A non-empty name with no slash, backslash or dot is only changed by the second substitution. |
| Sanitize.SanitizeDropsTraversal | mineru/cli/fast_api.py:36-37 | A leading traversal run of two or more separators or dots disappears whole, and so does a lone `/` between two plain parts; what is left is the two parts joined. |
| Sanitize.SanitizeTraversalExample | mineru/cli/fast_api.py:36-40 | `../../etc/passwd` becomes `etcpasswd`. |
| Sanitize.SanitizeSpaceExample | mineru/cli/fast_api.py:37 | `Report v1` becomes `Report_v1`. |
| Sanitize.SanitizeHiddenExample | mineru/cli/fast_api.py:38-39 | `.bashrc` becomes `_bashrc`. |
| Sanitize.SanitizeFallbackExamples | mineru/cli/fast_api.py:40 | `..` and the empty name both become `unnamed`. |
| Paths.JoinSplit | mineru/cli/fast_api.py:99 | Splitting a path at `/` and joining the parts again gives back the path. |
| Paths.PathName | mineru/cli/fast_api.py:99-102 | The final component is the last `/`-separated part that is neither empty nor `.`. It is empty exactly when every part is empty or `.`. It contains no `/` and is never `.`. |
| Paths.BaseName | mineru/cli/fast_api.py:187 | `os.path.basename` is the text after the last `/`: an end of the path preceded by a `/` or by nothing, and containing no `/`. |
| Paths.Stem | mineru/cli/fast_api.py:112 | The stem is a prefix of the final component. It is shorter than the component exactly when the component has a suffix dot (its last dot, neither its first nor its last character), and then it ends right before that dot. |
| Paths.StemSuffixSplitName | mineru/cli/fast_api.py:112 | Stem and suffix concatenate to the final component. The stem has no `/` and is empty only for an empty name. The suffix is empty, or it is a dot followed by at least one character and no further dot. |
| Paths.PathNameAfterDirectory | mineru/cli/fast_api.py:99-102 | Below a slash-free directory, the final component of `dir/file` is `file`, for a slash-free `file` that is neither empty nor `.`. |
| Paths.StemAfterDirectory | mineru/cli/fast_api.py:112 | Below a slash-free directory, the stem of `stem.ext` is `stem` when `ext` is non-empty and has no dot. |
| Paths.StemDirectoryExample | mineru/cli/fast_api.py:112 | `dir/Report v1.pdf` has stem `Report v1`. |
| Paths.StemBackslashExample | mineru/cli/fast_api.py:112 | `..\..\evil.pdf` has stem `..\..\evil`: a backslash is not a separator for a POSIX path. |
| Uploads.AcceptUploads | mineru/cli/fast_api.py:97-123 | Acceptance succeeds exactly when every upload can be stored, has a supported suffix and loads. On success the names are the stems of the uploads, one per upload, in upload order. On failure the error is the rejection of the first failing upload: a storage failure before the suffix check, then an unsupported suffix, then a failed load. |
| Uploads.SomeRejectedIffNotAll | mineru/cli/fast_api.py:97-123 | There is a first rejected upload exactly when not every upload is accepted. |
| Uploads.FirstRejectedUnique | mineru/cli/fast_api.py:97-123 | The first rejected upload is unique. |
| Uploads.FirstFailureDecides | mineru/cli/fast_api.py:97-123 | After any accepted uploads, a rejected upload ends intake with its own rejection, whatever uploads follow it. |
| Uploads.UnsupportedFileRefused | mineru/cli/fast_api.py:119-123 | A storable file with an unsupported suffix, after any accepted uploads, ends intake with its own suffix, whatever uploads follow it. |
| Uploads.ParentNameUnstorable | mineru/cli/fast_api.py:101-104 | A file whose final component is `..`, after any accepted uploads, ends intake as a storage failure, even when a later file has an unsupported suffix. |
| Uploads.ReconcileLanguages | mineru/cli/fast_api.py:126-130 | The result has one language per accepted file, and it is the request's list when the lengths already match. |
| Uploads.ReconciledLanguagesComeFromRequest | mineru/cli/fast_api.py:126-130 | Every entry comes from the request, or is `ch` when the request list was empty. On a length mismatch all entries equal the first requested language. Reconciling twice changes nothing. |
| Uploads.SingleLanguageIsShared | mineru/cli/fast_api.py:128-130 | One requested language `ko` with three files gives `ko` for each file. |
| Uploads.Intake | mineru/cli/fast_api.py:97-130 | The job succeeds exactly when every upload is accepted. Its names are then the uploads' stems, one per upload in order, and its languages are the reconciled request list. A failed intake carries the rejection of the first rejected upload. |
| Archive.ArcNameAsWritten | mineru/cli/fast_api.py:171-192 | As the source names text artifacts: two segments, the first being the sanitized document name. Every artifact except the model output is named as in `ArcName`. |
| Archive.ArcName | mineru/cli/fast_api.py:174-192 | A text artifact's archive name, every artifact named from the sanitized name: two segments, the sanitized document name and then a file name. Neither segment is hidden or contains a slash. |
| Archive.ArcNameFor | mineru/cli/fast_api.py:171-192 | Under either naming the first segment is the sanitized document name. The two namings differ only for the model output. |
| Archive.DocEntries | mineru/cli/fast_api.py:161-199 | A document whose parse directory is missing contributes no entries. Otherwise it contributes at most its four text artifacts and its listed images. Every entry's first archive segment is the sanitized document name. |
| Archive.NamedEntriesUnderSafeName | mineru/cli/fast_api.py:167-199 | For any naming of the text artifacts under the sanitized name, every entry of the document sits under that name. |
| Archive.DocEntriesExactly | mineru/cli/fast_api.py:167-199 | A document contributes a text entry exactly when the parse directory exists, the artifact's flag is set and its file exists. It contributes an image entry exactly when the parse directory exists, images are requested and the file is one of the listed `*.jpg` files. It contributes nothing else. |
| Archive.ArchiveEntryFromSomeDoc | mineru/cli/fast_api.py:160-199 | Every archive entry is an entry of one of the accepted documents. |
| Archive.ArchiveHoldsEveryDoc | mineru/cli/fast_api.py:160-199 | Every entry of every accepted document is in the archive. |
| Archive.ArchiveEntriesUnderSafeName | mineru/cli/fast_api.py:160-199 | Under either naming, so also as the source builds the archive, every entry's first archive segment is the sanitized name of its document. Its source lies inside that document's parse directory, which exists. |
| Archive.DocEntryUnderSafeName | mineru/cli/fast_api.py:161-199 | The same, for the entries of one document, under either naming. |
| Archive.TextEntriesArePlain | mineru/cli/fast_api.py:171-192 | With the corrected naming, each text entry's archive path is two segments, neither hidden nor containing a slash. |
| Archive.ModelOutputNameUnsanitized | mineru/cli/fast_api.py:186-187 | As written, the model-output entry of any slash-free document name that starts with a dot has an archive file name that is not a plain segment. |
| Archive.ModelOutputEvilExample | mineru/cli/fast_api.py:186-187 | As written, the model-output entry of `..\..\evil` has an archive file name that is not a plain segment. |
| Archive.MarkdownOnlyEntries | mineru/cli/fast_api.py:171-174 | With only markdown requested and present, a document contributes exactly its markdown entry, under either naming. |
| Archive.MarkdownOnlyExample | mineru/cli/fast_api.py:171-174 | For `Report v1` with only markdown requested, the archive as written holds exactly `Report_v1/Report_v1.md`. |
| Archive.DocFields | mineru/cli/fast_api.py:209-240 | A document whose parse directory is missing has no fields. The keys are among `md_content`, `middle_json`, `model_output`, `content_list` and `images`. `images` is present exactly when the parse directory exists and images are requested. |
| Archive.DocFieldsExactly | mineru/cli/fast_api.py:219-240 | A JSON field is present exactly when the parse directory exists and its flag is set. Its value is the file's content, or null when the file is missing. `images` is present exactly when images are requested. No other keys appear. |
| Archive.JsonResults | mineru/cli/fast_api.py:209-212 | The `results` keys are exactly the accepted names, and each maps to that document's fields. |
| Archive.ZipAndJsonAgree | mineru/cli/fast_api.py:171-230 | An artifact is in the zip exactly when the JSON answer holds non-null text for it. |
| Archive.SuffixesDiffer | mineru/cli/fast_api.py:172-190 | Different artifacts of one document are read from different files. |
| Archive.BackendChoosesLayout | mineru/cli/fast_api.py:162-185 | A `pipeline*` backend uses `<name>/<parse method>` and `_model.json`. Any other backend uses `<name>/vlm` and `_model_output.txt`. |
| FileParse.FileParse | mineru/cli/fast_api.py:88-255 | The answer is a 400 exactly when the first rejected upload can be stored, and it carries that upload's rejection. It is a storage 500 exactly when the first rejected upload cannot be stored, naming that file. It is an engine 500 exactly when intake succeeded and the engine failed. It is a 200 exactly when every upload was accepted and the engine succeeded. A zip answer only when zip was requested, holding the archive of the accepted stems; JSON only when it was not, echoing the backend and holding the results of the accepted stems. |
| FileParse.FirstRejectedDecides | mineru/cli/fast_api.py:97-123 | A failed intake carries the rejection of the first rejected upload, and it is a storage failure exactly when that upload cannot be stored. |
| FileParse.ParentNameAnswers500 | mineru/cli/fast_api.py:88-255 | An upload whose final component is `..`, after accepted ones, makes the request answer 500 whatever follows it. |
| FileParse.ZipEntriesUnderUploadStems | mineru/cli/fast_api.py:97-199 | Every entry of a zip answer sits under the sanitized stem of one of the uploads and is copied from that upload's parse directory. |
| FileParse.JsonAnswerCoversEveryUpload | mineru/cli/fast_api.py:209-212 | A JSON answer has one key per upload: the stem of its filename. |
| PageFormat.FormatBlocks | mineru/cli/layout_ocr_streaming.py:196-214 | There are as many boxes as blocks whose conversion gives a body, and no more than there are blocks. Box `j` carries the `j`-th emitted body, in block order, with id `first id + j` and the given discarded flag. |
| PageFormat.FormatPage | mineru/cli/layout_ocr_streaming.py:176-216 | The page index and size are copied. There are no more layout boxes than main blocks. `discarded_boxes` is present exactly when requested, and then has no more boxes than there are discarded blocks. |
| PageFormat.AppendBoxes | mineru/cli/layout_ocr_streaming.py:200-204 | The loop produces the same boxes as `FormatBlocks` and leaves the counter one past the last id used. |
| PageFormat.FormatPageResult | mineru/cli/layout_ocr_streaming.py:176-216 | The imperative formatter, with one counter shared by both loops, computes `FormatPage`. |
| PageFormat.FormatPageSpec | mineru/cli/layout_ocr_streaming.py:187-214 | The page index and size are copied. Main blocks are the paragraph blocks if there are any, else the preprocessed blocks. Ids across layout and then discarded boxes are exactly 0..k-1. `discarded_boxes` is present exactly when requested, and every box in it is flagged discarded. |
| PageFormat.DiscardedIgnoredWhenOff | mineru/cli/layout_ocr_streaming.py:207-214 | Without the flag, the discarded blocks have no influence on the result. |
| PageFormat.SkippedBlockTakesNoId | mineru/cli/layout_ocr_streaming.py:200-204 | A block the converter drops uses no id. |
| PageFormat.BoxNumberingExample | mineru/cli/layout_ocr_streaming.py:196-214 | Two layout boxes and one discarded box are numbered 0, 1 and 2. |
| Stream.Progress | mineru/cli/layout_ocr_streaming.py:135-136 | Progress lies in (0, 1], and it is 1 exactly on the last page. |
| Stream.PageEvents | mineru/cli/layout_ocr_streaming.py:104-156 | One event per remaining page, in index order, each the page's own event. |
| Stream.StreamEvents | mineru/cli/layout_ocr_streaming.py:62-173 | Every stream is non-empty and ends with a terminal event, and no earlier event is terminal. It ends with `completed` exactly when every step succeeded. It starts with `started` exactly when preparation succeeded. |
| Stream.SuccessfulStreamShape | mineru/cli/layout_ocr_streaming.py:70-163 | When every step succeeds with N pages, the stream is: `started`, then `analyzing(N)`, then one event per page in order, then `completed(N)`. A page's event is `processing` (with that page's formatted data and its progress) exactly when the page succeeded, and `page_error` exactly when it failed. |
| Stream.EventOfPage | mineru/cli/layout_ocr_streaming.py:104-163 | In a successful stream, the event at position `i + 2` is page `i`'s own event, between `started`, `analyzing(N)` and the final `completed(N)`. |
| Stream.ProgressAt | mineru/cli/layout_ocr_streaming.py:135-143 | A `processing` event at position `j` of a successful stream reports page `j - 2` and that page's progress. |
| Stream.FailedStreamShape | mineru/cli/layout_ocr_streaming.py:62-173 | Failure during preparation gives `error` alone. Failure of the engine gives `started`, then `error`. Failure of the image-writer setup gives `started`, then `analyzing(N)`, then `error`. |
| Stream.ProgressRises | mineru/cli/layout_ocr_streaming.py:135-143 | Exact progress rises strictly from one `processing` event to the next and is 1 on the last page. |
| Stream.ProgressMonotone | mineru/cli/layout_ocr_streaming.py:136 | A later page has a strictly higher exact progress. |
| Stream.StreamFollowsProtocol | mineru/cli/layout_ocr_streaming.py:62-173 | Every stream is accepted by the protocol state machine. It ends in `Done` exactly when every step succeeded, and in `Failed` otherwise. |
| Stream.TerminalEventIsLast | mineru/cli/layout_ocr_streaming.py:158-173 | In any sequence the state machine accepts, the only `completed` or `error` event is the last one. |
| Stream.StreamEndsOnce | mineru/cli/layout_ocr_streaming.py:62-173 | Every stream ends with exactly one terminal event, and it is the last event. |
| Stream.ThreePageExample | mineru/cli/layout_ocr_streaming.py:104-163 | Three pages with the middle one failing give, in order: `processing` at 1/3, `page_error(1)`, `processing` at 1, then `completed(3)`. |

## Left out

- Filesystem, uuid and zip I/O: `os.makedirs`, temporary files, `open`, `zipfile`, `glob`, `cleanup_file`. These become the `Workspace` input. The order of `glob` results is whatever the workspace lists.
- `read_fn` and `guess_suffix_by_path` read file contents. Each upload therefore carries its detected suffix and its load outcome. The list of PDF and image suffixes is a parameter.
- base64 encoding of images in JSON answers (RFC 4648). An image field maps file names to image paths.
- The `version` field and the fixed human-readable `message` strings of the JSON answers and stream events.
- HTTP and WebSocket transport: form parsing, `websocket.receive_json`, base64 decoding of the uploaded PDF, disconnect handling, and errors raised while sending an event.
- The `/layout_ocr/stream` handler's parameter defaults, and the `/layout_ocr` result formatting by `format_layout_ocr_result`. That function is not part of this model; the endpoint's intake is modelled by `Uploads.Intake`.
- `doc_analyze`, `aio_do_parse`, `aio_layout_ocr_parse`, `page_model_info_to_page_info`, `make_page_info_dict`, `restore_chars_to_middle_json`, `format_block_to_layout_box` and `_prepare_pdf_bytes`. These functions are not part of this model, so their outcomes are inputs, and page-range clipping is not modelled.
- An exception raised by the block converter inside `format_page_result`. It falls into the per-page failure outcome.
- `pdf_doc.close()` after `completed`. If it raised, an `error` would follow `completed`; the model assumes it does not raise.
- Stream.Progress: exact rational progress; the `round(progress, 3)` float rounding is not modelled. On the wire the rounded value can be 0.0 (the first page of a document with more than 2000 pages), and it is not strictly increasing once consecutive pages are less than 0.001 apart, which happens above 1000 pages.
- Stream.ProgressRises: states strict growth of the exact progress, not of the rounded value sent to the client (see `Stream.Progress`).
- PageFormat.FormatBlocks: the source calls `format_block_to_layout_box(block, box_id)`, whose code is not part of this model. The model assumes two things about it: it puts its `box_id` argument into the box unchanged, and whether it returns a box does not depend on the id. The ids 0..k-1 of `PageFormat.FormatPageSpec` rest on both.
- Path joining: `os.path.join(unique_dir, pdf_name, parse_method)` is modelled as appending segments. A client-chosen absolute `parse_method` such as `/srv/x` replaces the whole path, and a stem of `..` (from an upload named `...pdf`) puts the parse directory outside the job directory; neither is modelled, so the archive and JSON results read whatever the workspace reports at the appended segments.
- Paths are POSIX paths: only `/` separates components. On Windows a backslash also separates components, which changes `Path(filename).name`, `.stem` and `os.path.basename`; that platform is not modelled.
- The CLI `main` and uvicorn startup, and the example client scripts.
- Paths.Stem: follows `pathlib` up to Python 3.13, where a name ending in a dot has no suffix.
- Archive.JsonResults: a map, so key order in the JSON object is not modelled. Duplicate names collapse to one key, as in the source.
- The docstring of `stream_layout_ocr_pages` lists `total_pages` on the `started` message. The code sends it with `analyzing`, and the model follows the code. Likewise, a failure while preparing the image writer happens after `analyzing` has been sent.

## Findings

| source | as written | input that shows it | evidently intended | confidence | as-written member | corrected member |
|---|---|---|---|---|---|---|
| mineru/cli/fast_api.py:187 | The model-output entry's file name is `os.path.basename` of the path built from the unsanitized document name. The other artifacts use the sanitized name. | An upload named `..\..\evil.pdf` with model output requested is stored as `evil/..\..\evil_model.json`. An upload `.x.pdf` gives the hidden entry `_x/.x_model.json`. | Name the model output `<safe name>_model.json` (or `_model_output.txt`), like the other text artifacts. | medium, not executed | Archive.ModelOutputNameUnsanitized | Archive.ArcName |

`FileParse.FileParse` takes the naming as a parameter: with `Archive.AsWritten` it is the endpoint as the source writes it, and with `Archive.Corrected` it is the endpoint with the correction. The properties of the zip answer that both share (`Archive.ArchiveEntriesUnderSafeName`, `FileParse.ZipEntriesUnderUploadStems`) are proved for either naming.
