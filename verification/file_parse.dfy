/**
 * The `/file_parse` request of mineru/cli/fast_api.py end to end: intake,
 * one engine call for the whole job, then a zip archive or an inline JSON
 * answer. The engine (`aio_do_parse`) is a parameter that maps the job to the
 * workspace it leaves behind, or to the message of the exception it raised.
 * Every exception raised inside the request's `try` ends in a 500 answer.
 */
module FileParse {
  import opened Wrappers
  import Uploads
  import Archive
  import Paths
  import Sanitize

  /** Why a request ended in the catch-all 500 answer. */
  datatype Failure =
    | StoreFailed(filename: string)
    | EngineFailed(message: string)

  /** The answer of the endpoint. */
  datatype Response =
    | BadRequest(rejection: Uploads.Rejection)
    | ServerError(cause: Failure)
    | JsonBody(backend: string, results: map<string, map<string, Archive.Field>>)
    | ZipBody(entries: seq<Archive.Entry>)

  /** Status code of an answer. */
  function Status(r: Response): int {
    match r
    case BadRequest(_) => Uploads.BadRequestStatus
    case ServerError(_) => Uploads.ServerErrorStatus
    case _ => 200
  }

  /** Every upload passed intake. */
  predicate AllAccepted(uploads: seq<Uploads.Upload>, supported: seq<string>) {
    forall i :: 0 <= i < |uploads| ==> Uploads.Accepted(uploads[i], supported)
  }

  /**
   * One `/file_parse` request. The archive is named as fast_api.py names it
   * when `naming` is `AsWritten`.
   */
  function FileParse(
    naming: Archive.Naming,
    word: char -> bool,
    uploads: seq<Uploads.Upload>,
    supported: seq<string>,
    langList: seq<string>,
    o: Archive.Options,
    engine: Uploads.Job -> Result<Archive.Workspace, string>): (r: Response)
    ensures Status(r) == Uploads.BadRequestStatus <==>
      exists k :: Uploads.FirstRejected(uploads, supported, k) && Uploads.Storable(uploads[k])
    ensures r.BadRequest? ==> exists k :: (Uploads.FirstRejected(uploads, supported, k)
      && r.rejection == Uploads.RejectionOf(uploads[k], supported))
    ensures (r.ServerError? && r.cause.StoreFailed?) <==>
      exists k :: Uploads.FirstRejected(uploads, supported, k) && !Uploads.Storable(uploads[k])
    ensures r.ServerError? && r.cause.StoreFailed? ==>
      exists k :: Uploads.FirstRejected(uploads, supported, k) && r.cause.filename == uploads[k].filename
    ensures (r.ServerError? && r.cause.EngineFailed?) <==>
      Uploads.Intake(uploads, supported, langList).Ok? && engine(Uploads.Intake(uploads, supported, langList).value).Err?
    ensures Status(r) == 200 <==>
      AllAccepted(uploads, supported) && engine(Uploads.Intake(uploads, supported, langList).value).Ok?
    ensures r.ZipBody? ==> (o.responseFormatZip
      && r.entries == Archive.ArchiveEntries(naming, word,
           engine(Uploads.Intake(uploads, supported, langList).value).value, o,
           Uploads.Intake(uploads, supported, langList).value.names))
    ensures r.JsonBody? ==> (!o.responseFormatZip && r.backend == o.backend
      && r.results == Archive.JsonResults(
           engine(Uploads.Intake(uploads, supported, langList).value).value, o,
           Uploads.Intake(uploads, supported, langList).value.names))
  {
    Uploads.SomeRejectedIffNotAll(uploads, supported);
    match Uploads.Intake(uploads, supported, langList)
    case Err(rejection) =>
      FirstRejectedDecides(uploads, supported, langList);
      if rejection.Unstorable? then ServerError(StoreFailed(rejection.filename)) else BadRequest(rejection)
    case Ok(job) =>
      match engine(job)
      case Err(message) => ServerError(EngineFailed(message))
      case Ok(ws) =>
        if o.responseFormatZip then ZipBody(Archive.ArchiveEntries(naming, word, ws, o, job.names))
        else JsonBody(o.backend, Archive.JsonResults(ws, o, job.names))
  }

  /**
   * A failed intake carries the rejection of the one first rejected upload,
   * which is a storage failure exactly when that upload cannot be stored.
   */
  lemma FirstRejectedDecides(uploads: seq<Uploads.Upload>, supported: seq<string>, langList: seq<string>)
    requires Uploads.Intake(uploads, supported, langList).Err?
    ensures forall k :: Uploads.FirstRejected(uploads, supported, k) ==>
      Uploads.Intake(uploads, supported, langList).error == Uploads.RejectionOf(uploads[k], supported)
    ensures forall k :: Uploads.FirstRejected(uploads, supported, k) ==>
      (Uploads.Intake(uploads, supported, langList).error.Unstorable? <==> !Uploads.Storable(uploads[k]))
  {
    var e := Uploads.Intake(uploads, supported, langList).error;
    var k0 :| Uploads.FirstRejected(uploads, supported, k0) && e == Uploads.RejectionOf(uploads[k0], supported);
    forall k | Uploads.FirstRejected(uploads, supported, k)
      ensures e == Uploads.RejectionOf(uploads[k], supported)
    {
      Uploads.FirstRejectedUnique(uploads, supported, k, k0);
    }
  }

  /**
   * An upload whose name ends in `..`, after accepted ones, makes the request
   * answer 500 whatever follows it: storing it opens a directory.
   */
  lemma ParentNameAnswers500(
    naming: Archive.Naming,
    word: char -> bool,
    pre: seq<Uploads.Upload>, bad: Uploads.Upload, post: seq<Uploads.Upload>,
    supported: seq<string>,
    langList: seq<string>,
    o: Archive.Options,
    engine: Uploads.Job -> Result<Archive.Workspace, string>)
    requires AllAccepted(pre, supported)
    requires Paths.PathName(bad.filename) == ".."
    ensures Status(FileParse(naming, word, pre + [bad] + post, supported, langList, o, engine)) == 500
  {
    var uploads := pre + [bad] + post;
    assert uploads[|pre|] == bad;
    assert forall j :: 0 <= j < |pre| ==> uploads[j] == pre[j];
    assert Uploads.FirstRejected(uploads, supported, |pre|);
  }

  /**
   * Every entry of a zip answer sits under the sanitized stem of one of the
   * uploads and comes from that upload's existing parse directory.
   */
  lemma ZipEntriesUnderUploadStems(
    naming: Archive.Naming,
    word: char -> bool,
    uploads: seq<Uploads.Upload>,
    supported: seq<string>,
    langList: seq<string>,
    o: Archive.Options,
    engine: Uploads.Job -> Result<Archive.Workspace, string>,
    e: Archive.Entry)
    requires FileParse(naming, word, uploads, supported, langList, o, engine).ZipBody?
    requires e in FileParse(naming, word, uploads, supported, langList, o, engine).entries
    ensures exists i :: (0 <= i < |uploads|
      && |e.arcname| >= 2
      && e.arcname[0] == Sanitize.SanitizeFilename(word, Paths.Stem(uploads[i].filename))
      && |e.source| >= 3 && e.source[..2] == Archive.ParseDir(Paths.Stem(uploads[i].filename), o))
  {
    var job := Uploads.Intake(uploads, supported, langList).value;
    var ws := engine(job).value;
    assert FileParse(naming, word, uploads, supported, langList, o, engine).entries
      == Archive.ArchiveEntries(naming, word, ws, o, job.names);
    Archive.ArchiveEntriesUnderSafeName(naming, word, ws, o, job.names, e);
    var k :| 0 <= k < |job.names|
      && |e.arcname| >= 2 && e.arcname[0] == Sanitize.SanitizeFilename(word, job.names[k])
      && |e.source| >= 3 && e.source[..2] == Archive.ParseDir(job.names[k], o);
    assert job.names[k] == Paths.Stem(uploads[k].filename);
  }

  /**
   * With every upload accepted and the engine finished, the JSON answer has
   * exactly one key per accepted name, in the stem form of the upload.
   */
  lemma JsonAnswerCoversEveryUpload(
    naming: Archive.Naming,
    word: char -> bool,
    uploads: seq<Uploads.Upload>,
    supported: seq<string>,
    langList: seq<string>,
    o: Archive.Options,
    engine: Uploads.Job -> Result<Archive.Workspace, string>)
    requires FileParse(naming, word, uploads, supported, langList, o, engine).JsonBody?
    ensures FileParse(naming, word, uploads, supported, langList, o, engine).results.Keys
      == set i | 0 <= i < |uploads| :: Paths.Stem(uploads[i].filename)
  {
    var job := Uploads.Intake(uploads, supported, langList).value;
    var r := FileParse(naming, word, uploads, supported, langList, o, engine);
    assert r.results == Archive.JsonResults(engine(job).value, o, job.names);
    SameNames(job.names, uploads);
  }

  /** The set of accepted names is the set of the uploads' stems. */
  lemma SameNames(names: seq<string>, uploads: seq<Uploads.Upload>)
    requires |names| == |uploads|
    requires forall i :: 0 <= i < |uploads| ==> names[i] == Paths.Stem(uploads[i].filename)
    ensures (set k | 0 <= k < |names| :: names[k]) == set i | 0 <= i < |uploads| :: Paths.Stem(uploads[i].filename)
  {
  }
}
