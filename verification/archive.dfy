/**
 * Result delivery of the `/file_parse` endpoint in mineru/cli/fast_api.py:
 * which files of a finished job go into the zip archive and under which
 * entry names, and which fields the inline JSON result carries.
 *
 * The job workspace is observed through `Workspace`, a stand-in for the
 * filesystem calls (`os.path.exists`, `open`, `glob.glob`). Paths are
 * sequences of segments relative to the job's workspace directory, and
 * `os.path.join` is appending segments: a client-chosen parse method that
 * is an absolute path, or a document name `..`, which would lead out of that
 * directory, is not given a meaning of its own.
 */
module Archive {
  import opened Wrappers
  import Sanitize
  import Paths

  /** A path inside the job workspace, one string per segment. */
  type Path = seq<string>

  /**
   * What the engine left in the workspace: which directories exist, the text
   * of each existing file (`None` when there is no such file), and the names
   * of the `*.jpg` files `glob` lists in a directory.
   */
  datatype Workspace = Workspace(
    isDir: Path -> bool,
    read: Path -> Option<string>,
    jpgs: Path -> seq<string>)

  /** The form fields of `/file_parse` that shape the answer. */
  datatype Options = Options(
    backend: string,
    parseMethod: string,
    returnMd: bool,
    returnMiddleJson: bool,
    returnModelOutput: bool,
    returnContentList: bool,
    returnImages: bool,
    responseFormatZip: bool)

  /** The four text artifacts a document can produce. */
  datatype Artifact = Markdown | MiddleJson | ModelOutput | ContentList

  /** One archive member: the workspace file it is copied from and its name inside the zip. */
  datatype Entry = Entry(source: Path, arcname: Path)

  /** A field of one document's inline JSON result. */
  datatype Field = Text(content: Option<string>) | Images(files: map<string, Path>)

  /** `backend.startswith("pipeline")`. */
  predicate IsPipeline(backend: string) {
    "pipeline" <= backend
  }

  /** The directory the engine writes a document's results to. */
  function ParseDir(name: string, o: Options): Path {
    [name, if IsPipeline(o.backend) then o.parseMethod else "vlm"]
  }

  /** The flag that requests an artifact. */
  predicate Requested(o: Options, a: Artifact) {
    match a
    case Markdown => o.returnMd
    case MiddleJson => o.returnMiddleJson
    case ModelOutput => o.returnModelOutput
    case ContentList => o.returnContentList
  }

  /** What follows the document name in an artifact's file name. */
  function FileSuffix(a: Artifact, backend: string): string {
    match a
    case Markdown => ".md"
    case MiddleJson => "_middle.json"
    case ModelOutput => if IsPipeline(backend) then "_model.json" else "_model_output.txt"
    case ContentList => "_content_list.json"
  }

  /** The JSON field an artifact is returned in. */
  function JsonKey(a: Artifact): string {
    match a
    case Markdown => "md_content"
    case MiddleJson => "middle_json"
    case ModelOutput => "model_output"
    case ContentList => "content_list"
  }

  const ImagesKey := "images"

  /** The workspace file holding an artifact of a document. */
  function SourceFile(name: string, o: Options, a: Artifact): Path {
    ParseDir(name, o) + [name + FileSuffix(a, o.backend)]
  }

  /** The directory the extracted images of a document are in. */
  function ImagesDir(name: string, o: Options): Path {
    ParseDir(name, o) + ["images"]
  }

  /**
   * Archive name of a text artifact as the source builds it: the sanitized
   * document name, then the sanitized name plus suffix, except for the model
   * output, whose file name is `os.path.basename` of the unsanitized path.
   */
  function ArcNameAsWritten(word: char -> bool, name: string, o: Options, a: Artifact): (p: Path)
    ensures |p| == 2 && p[0] == Sanitize.SanitizeFilename(word, name)
    ensures a != ModelOutput ==> p == ArcName(word, name, o, a)
  {
    var safe := Sanitize.SanitizeFilename(word, name);
    if a == ModelOutput then [safe, Paths.BaseName(name + FileSuffix(a, o.backend))]
    else [safe, safe + FileSuffix(a, o.backend)]
  }

  /** Archive name of a text artifact with every artifact named from the sanitized name. */
  function ArcName(word: char -> bool, name: string, o: Options, a: Artifact): (p: Path)
    ensures |p| == 2 && p[0] == Sanitize.SanitizeFilename(word, name)
    ensures PlainSegment(p[0]) && PlainSegment(p[1])
  {
    var safe := Sanitize.SanitizeFilename(word, name);
    var suffix := FileSuffix(a, o.backend);
    SuffixNoSlash(a, o.backend);
    NoSlashConcat(safe, suffix);
    assert (safe + suffix)[0] == safe[0];
    [safe, safe + suffix]
  }

  lemma SuffixNoSlash(a: Artifact, backend: string)
    ensures Sanitize.NoSlash(FileSuffix(a, backend))
  {
    match a
    case Markdown =>
    case MiddleJson =>
    case ModelOutput =>
    case ContentList =>
  }

  /** The entry for one text artifact: present when requested and its file exists. */
  function TextEntry(ws: Workspace, o: Options, name: string, a: Artifact, arcname: Path): seq<Entry> {
    if Requested(o, a) && ws.read(SourceFile(name, o, a)).Some?
    then [Entry(SourceFile(name, o, a), arcname)]
    else []
  }

  /** One entry per `*.jpg` in the images directory, under `<safe name>/images/`. */
  function ImageEntries(word: char -> bool, ws: Workspace, o: Options, name: string): seq<Entry> {
    var safe := Sanitize.SanitizeFilename(word, name);
    var imgs := ws.jpgs(ImagesDir(name, o));
    seq(|imgs|, k requires 0 <= k < |imgs| => Entry(ImagesDir(name, o) + [imgs[k]], [safe, "images", imgs[k]]))
  }

  /**
   * The entries of one document, in the order the source writes them, for a
   * given naming of the text artifacts. A document whose parse directory is
   * missing contributes nothing.
   */
  function DocEntriesNamed(word: char -> bool, ws: Workspace, o: Options, name: string, arc: Artifact -> Path): seq<Entry> {
    if !ws.isDir(ParseDir(name, o)) then []
    else
      TextEntry(ws, o, name, Markdown, arc(Markdown))
      + TextEntry(ws, o, name, MiddleJson, arc(MiddleJson))
      + TextEntry(ws, o, name, ModelOutput, arc(ModelOutput))
      + TextEntry(ws, o, name, ContentList, arc(ContentList))
      + (if o.returnImages then ImageEntries(word, ws, o, name) else [])
  }

  /**
   * How the text artifacts are named in the archive: `AsWritten` as
   * fast_api.py does (the model output from the unsanitized name), or
   * `Corrected`, every artifact from the sanitized name.
   */
  datatype Naming = AsWritten | Corrected

  /** The archive name of a text artifact under a naming; only the model output differs. */
  function ArcNameFor(naming: Naming, word: char -> bool, name: string, o: Options, a: Artifact): (p: Path)
    ensures |p| == 2 && p[0] == Sanitize.SanitizeFilename(word, name)
    ensures naming == Corrected || a != ModelOutput ==> p == ArcName(word, name, o, a)
  {
    match naming
    case AsWritten => ArcNameAsWritten(word, name, o, a)
    case Corrected => ArcName(word, name, o, a)
  }

  /**
   * One document's entries under a naming. A document whose parse directory
   * is missing contributes none, one that has it at most its four text
   * artifacts and its listed images, and every entry sits under the
   * sanitized name.
   */
  function DocEntries(naming: Naming, word: char -> bool, ws: Workspace, o: Options, name: string): (entries: seq<Entry>)
    ensures !ws.isDir(ParseDir(name, o)) ==> entries == []
    ensures |entries| <= 4 + |ws.jpgs(ImagesDir(name, o))|
    ensures forall e :: e in entries ==> |e.arcname| >= 2 && e.arcname[0] == Sanitize.SanitizeFilename(word, name)
  {
    var arc := a => ArcNameFor(naming, word, name, o, a);
    NamedEntriesUnderSafeName(word, ws, o, name, arc);
    DocEntriesNamed(word, ws, o, name, arc)
  }

  /** With every text artifact named under the sanitized name, so is every entry. */
  lemma NamedEntriesUnderSafeName(word: char -> bool, ws: Workspace, o: Options, name: string, arc: Artifact -> Path)
    requires forall a :: |arc(a)| >= 2 && arc(a)[0] == Sanitize.SanitizeFilename(word, name)
    ensures !ws.isDir(ParseDir(name, o)) ==> DocEntriesNamed(word, ws, o, name, arc) == []
    ensures |DocEntriesNamed(word, ws, o, name, arc)| <= 4 + |ws.jpgs(ImagesDir(name, o))|
    ensures forall e :: e in DocEntriesNamed(word, ws, o, name, arc) ==>
      |e.arcname| >= 2 && e.arcname[0] == Sanitize.SanitizeFilename(word, name)
  {
    forall e | e in DocEntriesNamed(word, ws, o, name, arc)
      ensures |e.arcname| >= 2 && e.arcname[0] == Sanitize.SanitizeFilename(word, name)
    {
      DocEntriesExactly(word, ws, o, name, arc, e);
    }
  }

  /** The whole archive: each accepted document's entries, in upload order. */
  function ArchiveEntries(naming: Naming, word: char -> bool, ws: Workspace, o: Options, names: seq<string>): seq<Entry> {
    if |names| == 0 then []
    else
      var last := |names| - 1;
      ArchiveEntries(naming, word, ws, o, names[..last]) + DocEntries(naming, word, ws, o, names[last])
  }

  /** Every entry of the archive is an entry of one of the accepted documents. */
  lemma {:induction false} ArchiveEntryFromSomeDoc(naming: Naming, word: char -> bool, ws: Workspace, o: Options, names: seq<string>, e: Entry)
    requires e in ArchiveEntries(naming, word, ws, o, names)
    ensures exists k :: 0 <= k < |names| && e in DocEntries(naming, word, ws, o, names[k])
  {
    var last := |names| - 1;
    var earlier := ArchiveEntries(naming, word, ws, o, names[..last]);
    if e in earlier {
      ArchiveEntryFromSomeDoc(naming, word, ws, o, names[..last], e);
      var k :| 0 <= k < last && e in DocEntries(naming, word, ws, o, names[..last][k]);
      assert names[..last][k] == names[k];
    } else {
      assert e in DocEntries(naming, word, ws, o, names[last]);
    }
  }

  /** Conversely, every entry of every accepted document is in the archive. */
  lemma {:induction false} ArchiveHoldsEveryDoc(naming: Naming, word: char -> bool, ws: Workspace, o: Options, names: seq<string>, k: nat, e: Entry)
    requires k < |names| && e in DocEntries(naming, word, ws, o, names[k])
    ensures e in ArchiveEntries(naming, word, ws, o, names)
  {
    var last := |names| - 1;
    if k < last {
      assert names[..last][k] == names[k];
      ArchiveHoldsEveryDoc(naming, word, ws, o, names[..last], k, e);
      ArchiveKeepsEarlier(naming, word, ws, o, names, e);
    } else {
      assert k == last && names[k] == names[last];
      ArchiveHoldsLast(naming, word, ws, o, names, e);
    }
  }

  lemma ArchiveKeepsEarlier(naming: Naming, word: char -> bool, ws: Workspace, o: Options, names: seq<string>, e: Entry)
    requires |names| > 0 && e in ArchiveEntries(naming, word, ws, o, names[..|names| - 1])
    ensures e in ArchiveEntries(naming, word, ws, o, names)
  {
  }

  lemma ArchiveHoldsLast(naming: Naming, word: char -> bool, ws: Workspace, o: Options, names: seq<string>, e: Entry)
    requires |names| > 0 && e in DocEntries(naming, word, ws, o, names[|names| - 1])
    ensures e in ArchiveEntries(naming, word, ws, o, names)
  {
  }

  /** The entry for a text artifact, when present, is requested, existing, and under the given name. */
  predicate IsTextEntry(ws: Workspace, o: Options, name: string, arc: Artifact -> Path, e: Entry, a: Artifact) {
    && ws.isDir(ParseDir(name, o))
    && Requested(o, a)
    && ws.read(SourceFile(name, o, a)).Some?
    && e == Entry(SourceFile(name, o, a), arc(a))
  }

  /** An image entry: images were requested and the file is one `glob` lists. */
  predicate IsImageEntry(word: char -> bool, ws: Workspace, o: Options, name: string, e: Entry) {
    && ws.isDir(ParseDir(name, o))
    && o.returnImages
    && (exists img :: img in ws.jpgs(ImagesDir(name, o))
          && e == Entry(ImagesDir(name, o) + [img], [Sanitize.SanitizeFilename(word, name), "images", img]))
  }

  /**
   * Exactly which entries a document contributes: a text artifact when its
   * flag is set, the parse directory exists and the file exists; an image
   * when images are requested, for every listed `*.jpg`; nothing else.
   */
  lemma DocEntriesExactly(word: char -> bool, ws: Workspace, o: Options, name: string, arc: Artifact -> Path, e: Entry)
    ensures e in DocEntriesNamed(word, ws, o, name, arc) <==>
      (|| IsTextEntry(ws, o, name, arc, e, Markdown)
       || IsTextEntry(ws, o, name, arc, e, MiddleJson)
       || IsTextEntry(ws, o, name, arc, e, ModelOutput)
       || IsTextEntry(ws, o, name, arc, e, ContentList)
       || IsImageEntry(word, ws, o, name, e))
  {
    var imgs := ws.jpgs(ImagesDir(name, o));
    var safe := Sanitize.SanitizeFilename(word, name);
    if ws.isDir(ParseDir(name, o)) && o.returnImages {
      var images := ImageEntries(word, ws, o, name);
      if e in images {
        var k :| 0 <= k < |images| && images[k] == e;
        assert imgs[k] in imgs;
      }
      if IsImageEntry(word, ws, o, name, e) {
        var img :| img in imgs && e == Entry(ImagesDir(name, o) + [img], [safe, "images", img]);
        var k :| 0 <= k < |imgs| && imgs[k] == img;
        assert images[k] == e;
      }
    }
  }

  /**
   * Every archive entry sits under the sanitized name of the document it
   * belongs to, and is copied from inside that document's parse directory,
   * which exists. This holds under either naming, so of the archive as
   * fast_api.py builds it.
   */
  lemma ArchiveEntriesUnderSafeName(naming: Naming, word: char -> bool, ws: Workspace, o: Options, names: seq<string>, e: Entry)
    requires e in ArchiveEntries(naming, word, ws, o, names)
    ensures exists k :: (0 <= k < |names|
      && |e.arcname| >= 2 && e.arcname[0] == Sanitize.SanitizeFilename(word, names[k])
      && |e.source| >= 3 && e.source[..2] == ParseDir(names[k], o)
      && ws.isDir(ParseDir(names[k], o)))
  {
    ArchiveEntryFromSomeDoc(naming, word, ws, o, names, e);
    var k :| 0 <= k < |names| && e in DocEntries(naming, word, ws, o, names[k]);
    DocEntryUnderSafeName(naming, word, ws, o, names[k], e);
  }

  /**
   * One document's entries, under either naming, sit under its sanitized
   * name and come from its existing parse directory.
   */
  lemma DocEntryUnderSafeName(naming: Naming, word: char -> bool, ws: Workspace, o: Options, name: string, e: Entry)
    requires e in DocEntries(naming, word, ws, o, name)
    ensures |e.arcname| >= 2 && e.arcname[0] == Sanitize.SanitizeFilename(word, name)
    ensures |e.source| >= 3 && e.source[..2] == ParseDir(name, o)
    ensures ws.isDir(ParseDir(name, o))
  {
    var arc := a => ArcNameFor(naming, word, name, o, a);
    DocEntriesExactly(word, ws, o, name, arc, e);
    if IsImageEntry(word, ws, o, name, e) {
      ImageEntryInParseDir(word, ws, o, name, e);
    } else if IsTextEntry(ws, o, name, arc, e, Markdown) {
      TextEntryInParseDir(ws, o, name, arc, e, Markdown);
    } else if IsTextEntry(ws, o, name, arc, e, MiddleJson) {
      TextEntryInParseDir(ws, o, name, arc, e, MiddleJson);
    } else if IsTextEntry(ws, o, name, arc, e, ModelOutput) {
      TextEntryInParseDir(ws, o, name, arc, e, ModelOutput);
    } else {
      TextEntryInParseDir(ws, o, name, arc, e, ContentList);
    }
  }

  lemma TextEntryInParseDir(ws: Workspace, o: Options, name: string, arc: Artifact -> Path, e: Entry, a: Artifact)
    requires IsTextEntry(ws, o, name, arc, e, a)
    ensures |e.source| >= 3 && e.source[..2] == ParseDir(name, o)
    ensures ws.isDir(ParseDir(name, o))
  {
  }

  lemma ImageEntryInParseDir(word: char -> bool, ws: Workspace, o: Options, name: string, e: Entry)
    requires IsImageEntry(word, ws, o, name, e)
    ensures |e.source| >= 3 && e.source[..2] == ParseDir(name, o)
    ensures ws.isDir(ParseDir(name, o))
  {
    var img :| img in ws.jpgs(ImagesDir(name, o))
      && e == Entry(ImagesDir(name, o) + [img], [Sanitize.SanitizeFilename(word, name), "images", img]);
    assert e.source == ParseDir(name, o) + ["images", img];
  }

  /** A segment that is not hidden and cannot split into further path segments. */
  predicate PlainSegment(s: string) {
    && |s| > 0
    && s[0] != '.'
    && Sanitize.NoSlash(s)
  }

  /**
   * With every text artifact named from the sanitized name, each text entry's
   * archive path is two plain segments: the sanitized document name and a
   * file name built from it.
   */
  lemma TextEntriesArePlain(word: char -> bool, ws: Workspace, o: Options, name: string, e: Entry)
    requires e in DocEntries(Corrected, word, ws, o, name)
    requires |e.source| == 3
    ensures |e.arcname| == 2 && PlainSegment(e.arcname[0]) && PlainSegment(e.arcname[1])
  {
    DocEntriesExactly(word, ws, o, name, a => ArcNameFor(Corrected, word, name, o, a), e);
  }

  lemma NoSlashConcat(s: string, t: string)
    requires Sanitize.NoSlash(s) && Sanitize.NoSlash(t)
    ensures Sanitize.NoSlash(s + t)
  {
    assert forall i :: |s| <= i < |s + t| ==> (s + t)[i] == t[i - |s|];
  }

  /**
   * The source as written can put a hidden file into the archive: the model
   * output of any slash-free document name starting with a dot keeps that
   * dot in its archive file name, although the directory part is sanitized.
   */
  lemma ModelOutputNameUnsanitized(ws: Workspace, o: Options, name: string)
    requires |name| > 0 && name[0] == '.' && '/' !in name
    requires o.returnModelOutput && o.backend == "pipeline"
    requires ws.isDir(ParseDir(name, o)) && ws.read(SourceFile(name, o, ModelOutput)).Some?
    ensures exists e :: (e in DocEntries(AsWritten, Sanitize.AsciiWord, ws, o, name)
      && |e.arcname| == 2 && !PlainSegment(e.arcname[1]))
  {
    var file := name + FileSuffix(ModelOutput, o.backend);
    var arcname := ArcNameAsWritten(Sanitize.AsciiWord, name, o, ModelOutput);
    var e := Entry(SourceFile(name, o, ModelOutput), arcname);
    assert '/' !in file by {
      assert FileSuffix(ModelOutput, o.backend) == "_model.json";
      assert forall i :: |name| <= i < |file| ==> file[i] == "_model.json"[i - |name|];
    }
    Paths.SplitNoSlash(file);
    assert arcname[1] == file;
    assert file[0] == '.';
    DocEntriesExactly(Sanitize.AsciiWord, ws, o, name, a => ArcNameFor(AsWritten, Sanitize.AsciiWord, name, o, a), e);
  }

  /**
   * The model output of a document named `..\..\evil` (from an upload
   * `..\..\evil.pdf`) is stored as `evil/..\..\evil_model.json`, while
   * its markdown is `evil/evil.md`.
   */
  lemma ModelOutputEvilExample(ws: Workspace, o: Options, name: string)
    requires name == "..\\..\\evil"
    requires o.returnModelOutput && o.backend == "pipeline"
    requires ws.isDir(ParseDir(name, o)) && ws.read(SourceFile(name, o, ModelOutput)).Some?
    ensures exists e :: (e in DocEntries(AsWritten, Sanitize.AsciiWord, ws, o, name)
      && |e.arcname| == 2 && !PlainSegment(e.arcname[1]))
  {
    ModelOutputNameUnsanitized(ws, o, name);
  }

  /**
   * When markdown is the only artifact requested and it exists, a document
   * contributes exactly its markdown entry.
   */
  lemma MarkdownOnlyEntries(naming: Naming, word: char -> bool, ws: Workspace, o: Options, name: string)
    requires o.returnMd && !o.returnMiddleJson && !o.returnModelOutput && !o.returnContentList && !o.returnImages
    requires ws.isDir(ParseDir(name, o)) && ws.read(SourceFile(name, o, Markdown)).Some?
    ensures DocEntries(naming, word, ws, o, name) == [Entry(SourceFile(name, o, Markdown), ArcName(word, name, o, Markdown))]
  {
  }

  /**
   * Only markdown requested, for the document `Report v1` (from an upload
   * `Report v1.pdf`): the archive holds exactly `Report_v1/Report_v1.md`.
   */
  lemma MarkdownOnlyExample(ws: Workspace, o: Options, name: string)
    requires name == "Report v1"
    requires o == Options("pipeline", "auto", true, false, false, false, false, true)
    requires ws.isDir([name, "auto"]) && ws.read([name, "auto", name + ".md"]).Some?
    ensures ArchiveEntries(AsWritten, Sanitize.AsciiWord, ws, o, [name])
      == [Entry([name, "auto", name + ".md"], ["Report_v1", "Report_v1.md"])]
  {
    assert IsPipeline(o.backend);
    assert ParseDir(name, o) == [name, "auto"];
    assert SourceFile(name, o, Markdown) == [name, "auto", name + ".md"];
    MarkdownOnlyEntries(AsWritten, Sanitize.AsciiWord, ws, o, name);
    assert [name][..0] == [];
    ReportMarkdownName(name, o);
  }

  lemma ReportMarkdownName(name: string, o: Options)
    requires name == "Report v1" && o.backend == "pipeline"
    ensures ArcName(Sanitize.AsciiWord, name, o, Markdown) == ["Report_v1", "Report_v1.md"]
  {
    var safe := Sanitize.SanitizeFilename(Sanitize.AsciiWord, name);
    assert safe == "Report_v1" by {
      Sanitize.SanitizeSpaceExample(name);
    }
    assert FileSuffix(Markdown, o.backend) == ".md";
    assert safe + ".md" == "Report_v1.md";
  }

  /** The inline JSON fields of one document. */
  function DocFields(ws: Workspace, o: Options, name: string): (fields: map<string, Field>)
    ensures !ws.isDir(ParseDir(name, o)) ==> fields == map[]
    ensures fields.Keys <= {"md_content", "middle_json", "model_output", "content_list", ImagesKey}
    ensures ImagesKey in fields <==> ws.isDir(ParseDir(name, o)) && o.returnImages
  {
    if !ws.isDir(ParseDir(name, o)) then map[]
    else
      var m0: map<string, Field> := map[];
      var m1 := AddText(m0, ws, o, name, Markdown);
      var m2 := AddText(m1, ws, o, name, MiddleJson);
      var m3 := AddText(m2, ws, o, name, ModelOutput);
      var m4 := AddText(m3, ws, o, name, ContentList);
      if o.returnImages then m4[ImagesKey := Images(ImageFiles(ws, o, name))] else m4
  }

  /** `get_infer_result`: the file's text, or null when it does not exist. */
  function AddText(m: map<string, Field>, ws: Workspace, o: Options, name: string, a: Artifact): map<string, Field> {
    if Requested(o, a) then m[JsonKey(a) := Text(ws.read(SourceFile(name, o, a)))] else m
  }

  /** The listed images, keyed by file name; each value stands for the file's base64 data URI. */
  function ImageFiles(ws: Workspace, o: Options, name: string): map<string, Path> {
    var imgs := ws.jpgs(ImagesDir(name, o));
    map img | img in imgs :: ImagesDir(name, o) + [img]
  }

  /**
   * The fields of a document: a text field exactly for each requested
   * artifact, holding the file's text or null when it is missing; an images
   * field exactly when images are requested; and nothing at all when the
   * parse directory is missing.
   */
  lemma DocFieldsExactly(ws: Workspace, o: Options, name: string, a: Artifact)
    ensures JsonKey(a) in DocFields(ws, o, name) <==> ws.isDir(ParseDir(name, o)) && Requested(o, a)
    ensures JsonKey(a) in DocFields(ws, o, name) ==>
      DocFields(ws, o, name)[JsonKey(a)] == Text(ws.read(SourceFile(name, o, a)))
    ensures ImagesKey in DocFields(ws, o, name) <==> ws.isDir(ParseDir(name, o)) && o.returnImages
    ensures DocFields(ws, o, name).Keys <= {"md_content", "middle_json", "model_output", "content_list", ImagesKey}
  {
  }

  /** The `results` object: one key per accepted name, later duplicates overwriting earlier ones. */
  function JsonResults(ws: Workspace, o: Options, names: seq<string>): (r: map<string, map<string, Field>>)
    ensures r.Keys == set k | 0 <= k < |names| :: names[k]
    ensures forall k :: 0 <= k < |names| ==> r[names[k]] == DocFields(ws, o, names[k])
  {
    if |names| == 0 then map[]
    else
      var last := |names| - 1;
      var earlier := JsonResults(ws, o, names[..last]);
      assert forall k :: 0 <= k < last ==> names[..last][k] == names[k];
      earlier[names[last] := DocFields(ws, o, names[last])]
  }

  /**
   * The two answer shapes agree: the archive holds an artifact of a document
   * exactly when the JSON answer has a non-null field for it.
   */
  lemma ZipAndJsonAgree(naming: Naming, word: char -> bool, ws: Workspace, o: Options, name: string, a: Artifact)
    ensures (exists e :: e in DocEntries(naming, word, ws, o, name) && e.source == SourceFile(name, o, a))
      <==> (JsonKey(a) in DocFields(ws, o, name) && DocFields(ws, o, name)[JsonKey(a)].Text?
            && DocFields(ws, o, name)[JsonKey(a)].content.Some?)
  {
    var arc := b => ArcNameFor(naming, word, name, o, b);
    DocFieldsExactly(ws, o, name, a);
    var fields := DocFields(ws, o, name);
    if exists e :: e in DocEntries(naming, word, ws, o, name) && e.source == SourceFile(name, o, a) {
      var e :| e in DocEntries(naming, word, ws, o, name) && e.source == SourceFile(name, o, a);
      DocEntriesExactly(word, ws, o, name, arc, e);
      forall b: Artifact | b != a ensures SourceFile(name, o, b) != SourceFile(name, o, a) {
        SuffixesDiffer(name, o, a, b);
      }
    }
    if JsonKey(a) in fields && fields[JsonKey(a)].Text? && fields[JsonKey(a)].content.Some? {
      var e := Entry(SourceFile(name, o, a), arc(a));
      DocEntriesExactly(word, ws, o, name, arc, e);
    }
  }

  /** Different artifacts of one document live in different files. */
  lemma SuffixesDiffer(name: string, o: Options, a: Artifact, b: Artifact)
    requires a != b
    ensures SourceFile(name, o, a) != SourceFile(name, o, b)
  {
    var fa, fb := name + FileSuffix(a, o.backend), name + FileSuffix(b, o.backend);
    assert SourceFile(name, o, a)[2] == fa;
    assert SourceFile(name, o, b)[2] == fb;
  }

  /**
   * The parse directory is `<name>/<parse method>` for backends whose name
   * starts with `pipeline` and `<name>/vlm` otherwise, and the model output
   * file name follows the same choice.
   */
  lemma BackendChoosesLayout(name: string, o: Options)
    ensures IsPipeline(o.backend) ==>
      ParseDir(name, o) == [name, o.parseMethod] && SourceFile(name, o, ModelOutput)[2] == name + "_model.json"
    ensures !IsPipeline(o.backend) ==>
      ParseDir(name, o) == [name, "vlm"] && SourceFile(name, o, ModelOutput)[2] == name + "_model_output.txt"
  {
  }
}
