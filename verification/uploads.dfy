/**
 * Upload intake shared by the `/file_parse` and `/layout_ocr` endpoints of
 * mineru/cli/fast_api.py: each uploaded file is stored under the job
 * directory, classified by suffix and loaded, in upload order; the first
 * failure ends the request. The language list is stretched to one language
 * per accepted file.
 */
module Uploads {
  import opened Wrappers
  import Paths

  /** Outcome of `read_fn` on the stored upload (its code is not part of this model). */
  datatype Load = Loaded | LoadError(message: string)

  /**
   * One uploaded file: the client's file name, the suffix that
   * `guess_suffix_by_path` reports for it, and whether its bytes load.
   */
  datatype Upload = Upload(filename: string, suffix: string, load: Load)

  /**
   * Why intake stopped. An unsupported suffix or a failed load is answered
   * with status 400; a file that cannot be stored raises out of the loop and
   * is answered with status 500 by the endpoint's exception handler.
   */
  datatype Rejection =
    | Unstorable(filename: string)
    | UnsupportedType(suffix: string)
    | FailedToLoad(message: string)

  /** The documents handed to the analysis engine: one name and one language each. */
  datatype Job = Job(names: seq<string>, langs: seq<string>)

  /** Status code of an unsupported or unloadable upload. */
  const BadRequestStatus := 400

  /** Status code of an exception the endpoint catches. */
  const ServerErrorStatus := 500

  /** Language used when the client sent an empty language list. */
  const DefaultLang := "ch"

  /** The status a rejection is answered with. */
  function RejectionStatus(r: Rejection): int {
    if r.Unstorable? then ServerErrorStatus else BadRequestStatus
  }

  /**
   * Whether `open(Path(unique_dir) / Path(filename).name, "wb")` can succeed:
   * an empty name would open the job directory itself and `..` its parent,
   * both directories. Other operating-system failures are not modelled.
   */
  predicate Storable(u: Upload) {
    var name := Paths.PathName(u.filename);
    name != "" && name != ".."
  }

  /** Stored, `file_suffix in pdf_suffixes + image_suffixes`, and `read_fn` succeeded. */
  predicate Accepted(u: Upload, supported: seq<string>) {
    Storable(u) && u.suffix in supported && u.load.Loaded?
  }

  /** How intake ends at the first file that is not accepted, checked in the order the loop runs. */
  function RejectionOf(u: Upload, supported: seq<string>): Rejection
    requires !Accepted(u, supported)
  {
    if !Storable(u) then Unstorable(u.filename)
    else if u.suffix !in supported then UnsupportedType(u.suffix)
    else FailedToLoad(u.load.message)
  }

  /** Index `k` is the first upload that is not accepted. */
  predicate FirstRejected(uploads: seq<Upload>, supported: seq<string>, k: int) {
    && 0 <= k < |uploads|
    && !Accepted(uploads[k], supported)
    && forall j :: 0 <= j < k ==> Accepted(uploads[j], supported)
  }

  /**
   * The upload loop: files are taken in upload order; a file that cannot be
   * stored, has an unsupported suffix or fails to load ends the request with
   * that file's rejection; otherwise each file contributes the stem of its name.
   */
  function AcceptUploads(uploads: seq<Upload>, supported: seq<string>): (r: Result<seq<string>, Rejection>)
    ensures r.Ok? <==> forall i :: 0 <= i < |uploads| ==> Accepted(uploads[i], supported)
    ensures r.Ok? ==> r.value == NamesOf(uploads, Paths.Stem)
    ensures r.Err? ==> exists k :: FirstRejected(uploads, supported, k) && r.error == RejectionOf(uploads[k], supported)
  {
    if |uploads| == 0 then Ok([])
    else
      var u := uploads[0];
      if !Accepted(u, supported) then
        assert FirstRejected(uploads, supported, 0);
        Err(RejectionOf(u, supported))
      else
        var tail := uploads[1..];
        assert forall i :: 1 <= i < |uploads| ==> uploads[i] == tail[i - 1];
        match AcceptUploads(tail, supported)
        case Err(e) =>
          var k :| FirstRejected(tail, supported, k) && e == RejectionOf(tail[k], supported);
          assert FirstRejected(uploads, supported, k + 1);
          Err(e)
        case Ok(rest) =>
          NamesOfCons(uploads, Paths.Stem);
          Ok([Paths.Stem(u.filename)] + rest)
  }

  /** A name derived from every upload's file name, in upload order. */
  function NamesOf(uploads: seq<Upload>, derive: string -> string): (names: seq<string>)
    ensures |names| == |uploads|
    ensures forall i :: 0 <= i < |uploads| ==> names[i] == derive(uploads[i].filename)
  {
    seq(|uploads|, i requires 0 <= i < |uploads| => derive(uploads[i].filename))
  }

  lemma NamesOfCons(uploads: seq<Upload>, derive: string -> string)
    requires |uploads| > 0
    ensures NamesOf(uploads, derive) == [derive(uploads[0].filename)] + NamesOf(uploads[1..], derive)
  {
    var a, b := NamesOf(uploads, derive), [derive(uploads[0].filename)] + NamesOf(uploads[1..], derive);
    assert forall i :: 1 <= i < |a| ==> uploads[i] == uploads[1..][i - 1];
    assert forall i :: 0 <= i < |a| ==> a[i] == b[i];
  }

  /** Some upload is rejected exactly when not every upload is accepted. */
  lemma {:induction false} SomeRejectedIffNotAll(uploads: seq<Upload>, supported: seq<string>)
    ensures (exists k :: FirstRejected(uploads, supported, k))
      <==> !(forall i :: 0 <= i < |uploads| ==> Accepted(uploads[i], supported))
    decreases |uploads|
  {
    if !(forall i :: 0 <= i < |uploads| ==> Accepted(uploads[i], supported)) {
      if Accepted(uploads[0], supported) {
        var bad :| 0 <= bad < |uploads| && !Accepted(uploads[bad], supported);
        assert !Accepted(uploads[1..][bad - 1], supported);
        SomeRejectedIffNotAll(uploads[1..], supported);
        var k :| FirstRejected(uploads[1..], supported, k);
        assert forall j :: 0 < j <= k ==> uploads[j] == uploads[1..][j - 1];
        assert FirstRejected(uploads, supported, k + 1);
      } else {
        assert FirstRejected(uploads, supported, 0);
      }
    }
  }

  /** The first rejected upload is unique, so the rejection is determined by the uploads. */
  lemma FirstRejectedUnique(uploads: seq<Upload>, supported: seq<string>, k: int, k': int)
    requires FirstRejected(uploads, supported, k) && FirstRejected(uploads, supported, k')
    ensures k == k'
  {
  }

  /**
   * The per-file language list: kept when it has one entry per accepted
   * file, otherwise replaced by copies of its first entry, or of `ch` when
   * it is empty.
   */
  function ReconcileLanguages(langs: seq<string>, count: nat): (r: seq<string>)
    ensures |r| == count
    ensures |langs| == count ==> r == langs
  {
    if |langs| == count then langs
    else
      var fill := if |langs| > 0 then langs[0] else DefaultLang;
      seq(count, _ => fill)
  }

  /**
   * Every language handed to the engine came from the request, or is the
   * default when the request named none; after a mismatch all files share one
   * language; and reconciling again changes nothing.
   */
  lemma ReconciledLanguagesComeFromRequest(langs: seq<string>, count: nat)
    ensures forall i :: 0 <= i < count ==>
      ReconcileLanguages(langs, count)[i] in langs
      || (langs == [] && ReconcileLanguages(langs, count)[i] == DefaultLang)
    ensures |langs| != count ==> forall i :: 0 <= i < count ==>
      ReconcileLanguages(langs, count)[i] == (if langs == [] then DefaultLang else langs[0])
    ensures ReconcileLanguages(ReconcileLanguages(langs, count), count) == ReconcileLanguages(langs, count)
  {
  }

  /** Three documents and the list `["ko"]`: every document is analysed in Korean. */
  lemma SingleLanguageIsShared()
    ensures ReconcileLanguages(["ko"], 3) == ["ko", "ko", "ko"]
  {
  }

  /**
   * Intake of a request: the accepted names and their languages, or the
   * rejection of the first file that is not accepted.
   */
  function Intake(uploads: seq<Upload>, supported: seq<string>, langList: seq<string>): (r: Result<Job, Rejection>)
    ensures r.Ok? <==> forall i :: 0 <= i < |uploads| ==> Accepted(uploads[i], supported)
    ensures r.Ok? ==> |r.value.names| == |uploads|
    ensures r.Ok? ==> forall i :: 0 <= i < |uploads| ==> r.value.names[i] == Paths.Stem(uploads[i].filename)
    ensures r.Ok? ==> r.value.langs == ReconcileLanguages(langList, |uploads|)
    ensures r.Err? ==> exists k :: FirstRejected(uploads, supported, k) && r.error == RejectionOf(uploads[k], supported)
  {
    match AcceptUploads(uploads, supported)
    case Err(e) => Err(e)
    case Ok(names) => Ok(Job(names, ReconcileLanguages(langList, |names|)))
  }

  /**
   * Files after the first one that is not accepted never matter: with every
   * earlier file accepted, intake ends with that file's rejection.
   */
  lemma FirstFailureDecides(pre: seq<Upload>, bad: Upload, post: seq<Upload>, supported: seq<string>)
    requires forall i :: 0 <= i < |pre| ==> Accepted(pre[i], supported)
    requires !Accepted(bad, supported)
    ensures AcceptUploads(pre + [bad] + post, supported) == Err(RejectionOf(bad, supported))
  {
    var uploads := pre + [bad] + post;
    assert uploads[|pre|] == bad;
    assert FirstRejected(uploads, supported, |pre|);
    var k :| FirstRejected(uploads, supported, k)
      && AcceptUploads(uploads, supported).error == RejectionOf(uploads[k], supported);
    FirstRejectedUnique(uploads, supported, k, |pre|);
  }

  /** An unsupported file after accepted ones ends intake with its suffix, whatever follows it. */
  lemma UnsupportedFileRefused(pre: seq<Upload>, bad: Upload, post: seq<Upload>, supported: seq<string>)
    requires forall i :: 0 <= i < |pre| ==> Accepted(pre[i], supported)
    requires Storable(bad) && bad.suffix !in supported
    ensures AcceptUploads(pre + [bad] + post, supported) == Err(UnsupportedType(bad.suffix))
  {
    FirstFailureDecides(pre, bad, post, supported);
  }

  /**
   * A file named `..` (or `dir/..`) after accepted ones ends intake as a
   * storage failure, even when a later file has an unsupported suffix.
   */
  lemma ParentNameUnstorable(pre: seq<Upload>, bad: Upload, post: seq<Upload>, supported: seq<string>)
    requires forall i :: 0 <= i < |pre| ==> Accepted(pre[i], supported)
    requires Paths.PathName(bad.filename) == ".."
    ensures AcceptUploads(pre + [bad] + post, supported) == Err(Unstorable(bad.filename))
  {
    FirstFailureDecides(pre, bad, post, supported);
  }
}
