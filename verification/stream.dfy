/**
 * The event sequence of `stream_layout_ocr_pages` in
 * mineru/cli/layout_ocr_streaming.py. The engine runs once over the whole
 * document; the pages it returns are then formatted and sent one at a time.
 *
 * Every step that can raise is an input: preparing the workspace and the
 * document bytes, the engine call, preparing the image writer, and the work
 * on each page before formatting (page conversion and character restoration,
 * whose code is not part of this model). The event list is then a function
 * of those outcomes.
 */
module Stream {
  import opened Wrappers
  import PageFormat

  /** A page the engine returned: ready to format, or failed with a message. */
  datatype PageOutcome = PageReady(info: PageFormat.PageInfo) | PageFailed(message: string)

  /** The outcomes of one streaming job's steps, in the order they run. */
  datatype StreamRun = StreamRun(
    prepare: Outcome,
    analysis: Result<seq<PageOutcome>, string>,
    setup: Outcome,
    includeDiscarded: bool)

  /** The JSON messages sent to the client, by their `status`. */
  datatype Event =
    | Started
    | Analyzing(totalPages: nat)
    | Processing(pageIndex: nat, totalPages: nat, progress: real, data: PageFormat.PageData)
    | PageError(pageIndex: nat, message: string)
    | Completed(totalPages: nat)
    | Error(message: string)

  /** `completed` and `error` end the stream. */
  predicate IsTerminal(e: Event) {
    e.Completed? || e.Error?
  }

  /** `(page_index + 1) / total_pages`, exactly, before rounding to three places. */
  function Progress(i: nat, total: nat): (p: real)
    requires i < total
    ensures 0.0 < p <= 1.0
    ensures p == 1.0 <==> i == total - 1
  {
    (i + 1) as real / total as real
  }

  /** The event for page `i`: its formatted data, or the failure message. */
  function PageEvent(p: PageOutcome, i: nat, total: nat, includeDiscarded: bool, convert: PageFormat.Converter): (e: Event)
    requires i < total
  {
    match p
    case PageReady(info) =>
      Processing(i, total, Progress(i, total), PageFormat.FormatPage(info, includeDiscarded, convert))
    case PageFailed(message) => PageError(i, message)
  }

  /** The events for pages `from` to the last, in index order. */
  function PageEvents(pages: seq<PageOutcome>, from: nat, includeDiscarded: bool, convert: PageFormat.Converter): (es: seq<Event>)
    requires from <= |pages|
    ensures |es| == |pages| - from
    ensures forall k :: 0 <= k < |es| ==>
      es[k] == PageEvent(pages[from + k], from + k, |pages|, includeDiscarded, convert)
    decreases |pages| - from
  {
    if from == |pages| then []
    else
      [PageEvent(pages[from], from, |pages|, includeDiscarded, convert)]
      + PageEvents(pages, from + 1, includeDiscarded, convert)
  }

  /** Everything the server sends for one job. */
  function StreamEvents(run: StreamRun, convert: PageFormat.Converter): (es: seq<Event>)
    ensures |es| > 0 && IsTerminal(es[|es| - 1])
    ensures es[|es| - 1].Completed? <==> Succeeds(run)
    ensures forall i :: 0 <= i < |es| - 1 ==> !IsTerminal(es[i])
    ensures es[0] == Started <==> run.prepare.Pass?
  {
    match run.prepare
    case Fail(message) => [Error(message)]
    case Pass =>
      [Started] +
      match run.analysis
      case Err(message) => [Error(message)]
      case Ok(pages) =>
        [Analyzing(|pages|)] +
        match run.setup
        case Fail(message) => [Error(message)]
        case Pass => PageEvents(pages, 0, run.includeDiscarded, convert) + [Completed(|pages|)]
  }

  /** Whether every step of a run succeeds (page failures do not count). */
  predicate Succeeds(run: StreamRun) {
    run.prepare.Pass? && run.analysis.Ok? && run.setup.Pass?
  }

  /**
   * When the steps succeed with N pages the events are `started`,
   * `analyzing(N)`, then for each page in increasing index order exactly one
   * of `processing` (the page formatted) or `page_error` (the page failed),
   * and finally `completed(N)`; a failed page does not stop the stream.
   */
  lemma SuccessfulStreamShape(run: StreamRun, convert: PageFormat.Converter)
    requires Succeeds(run)
    ensures var es := StreamEvents(run, convert);
      var pages := run.analysis.value;
      var n := |pages|;
      && |es| == n + 3
      && es[0] == Started
      && es[1] == Analyzing(n)
      && es[n + 2] == Completed(n)
      && forall i :: 0 <= i < n ==>
        && (es[i + 2].Processing? <==> pages[i].PageReady?)
        && (es[i + 2].PageError? <==> pages[i].PageFailed?)
        && es[i + 2].pageIndex == i
        && (pages[i].PageReady? ==>
              es[i + 2].data == PageFormat.FormatPage(pages[i].info, run.includeDiscarded, convert)
              && es[i + 2].totalPages == n && es[i + 2].progress == Progress(i, n))
  {
    var pages := run.analysis.value;
    var n := |pages|;
    var body := PageEvents(pages, 0, run.includeDiscarded, convert);
    var es := StreamEvents(run, convert);
    assert es == [Started] + ([Analyzing(n)] + (body + [Completed(n)]));
    assert |es| == n + 3 && es[0] == Started && es[1] == Analyzing(n) && es[n + 2] == Completed(n);
    forall i | 0 <= i < n
      ensures && (es[i + 2].Processing? <==> pages[i].PageReady?)
              && (es[i + 2].PageError? <==> pages[i].PageFailed?)
              && es[i + 2].pageIndex == i
              && (pages[i].PageReady? ==>
                    es[i + 2].data == PageFormat.FormatPage(pages[i].info, run.includeDiscarded, convert)
                    && es[i + 2].totalPages == n && es[i + 2].progress == Progress(i, n))
    {
      assert es[i + 2] == body[i];
      assert body[i] == PageEvent(pages[i], i, n, run.includeDiscarded, convert);
    }
  }

  /**
   * A failure before the engine returns sends no `analyzing` and no page
   * events: `error` alone when the workspace or the bytes could not be
   * prepared, `started` then `error` when the engine raised. A failure while
   * preparing the image writer comes after `analyzing` and before any page.
   */
  lemma FailedStreamShape(run: StreamRun, convert: PageFormat.Converter)
    ensures run.prepare.Fail? ==> StreamEvents(run, convert) == [Error(run.prepare.message)]
    ensures run.prepare.Pass? && run.analysis.Err? ==>
      StreamEvents(run, convert) == [Started, Error(run.analysis.error)]
    ensures run.prepare.Pass? && run.analysis.Ok? && run.setup.Fail? ==>
      StreamEvents(run, convert) == [Started, Analyzing(|run.analysis.value|), Error(run.setup.message)]
  {
  }

  /**
   * Progress over the `processing` events of a stream: it rises strictly
   * from one such event to the next, and is exactly 1 on the last page.
   */
  lemma ProgressRises(run: StreamRun, convert: PageFormat.Converter, a: nat, b: nat)
    requires Succeeds(run)
    requires a < b < |StreamEvents(run, convert)|
    requires StreamEvents(run, convert)[a].Processing? && StreamEvents(run, convert)[b].Processing?
    ensures StreamEvents(run, convert)[a].progress < StreamEvents(run, convert)[b].progress
    ensures StreamEvents(run, convert)[b].pageIndex == |run.analysis.value| - 1 ==>
      StreamEvents(run, convert)[b].progress == 1.0
  {
    var pages := run.analysis.value;
    var n := |pages|;
    var es := StreamEvents(run, convert);
    EventOfPage(run, convert, 0);
    assert 2 <= a && b < n + 2;
    var i, j := a - 2, b - 2;
    ProgressAt(run, convert, a);
    assert es[a].progress == Progress(i, n);
    ProgressAt(run, convert, b);
    assert es[b].progress == Progress(j, n);
    ProgressBelow(es[a].progress, es[b].progress, i, j, n);
  }

  /** Two reported progress values, of an earlier and a later page, are ordered. */
  lemma ProgressBelow(x: real, y: real, i: nat, j: nat, n: nat)
    requires i < j < n && x == Progress(i, n) && y == Progress(j, n)
    ensures x < y
  {
    ProgressMonotone(i, j, n);
  }

  /** A `processing` event at position `j` reports page `j - 2` and its progress. */
  lemma ProgressAt(run: StreamRun, convert: PageFormat.Converter, j: nat)
    requires Succeeds(run)
    requires 2 <= j < |run.analysis.value| + 2
    requires j < |StreamEvents(run, convert)| && StreamEvents(run, convert)[j].Processing?
    ensures StreamEvents(run, convert)[j].pageIndex == j - 2
    ensures StreamEvents(run, convert)[j].progress == Progress(j - 2, |run.analysis.value|)
  {
    var i := j - 2;
    EventOfPage(run, convert, i);
    assert StreamEvents(run, convert)[i + 2]
      == PageEvent(run.analysis.value[i], i, |run.analysis.value|, run.includeDiscarded, convert);
  }

  /** The event of page `i` of a successful stream follows `started` and `analyzing`. */
  lemma EventOfPage(run: StreamRun, convert: PageFormat.Converter, i: nat)
    requires Succeeds(run)
    ensures var es := StreamEvents(run, convert);
      var n := |run.analysis.value|;
      && |es| == n + 3 && es[0] == Started && es[1] == Analyzing(n) && es[n + 2] == Completed(n)
      && (i < n ==> es[i + 2] == PageEvent(run.analysis.value[i], i, n, run.includeDiscarded, convert))
  {
    var pages := run.analysis.value;
    var n := |pages|;
    var body := PageEvents(pages, 0, run.includeDiscarded, convert);
    var es := StreamEvents(run, convert);
    assert es == [Started] + ([Analyzing(n)] + (body + [Completed(n)]));
    if i < n {
      assert es[i + 2] == body[i];
    }
  }

  lemma ProgressMonotone(i: nat, j: nat, n: nat)
    requires i < j < n
    ensures Progress(i, n) < Progress(j, n)
  {
    var d := n as real;
    assert (i + 1) as real < (j + 1) as real;
    assert (i + 1) as real / d < (j + 1) as real / d;
  }

  /** The connection's state machine, as a client of the stream sees it. */
  datatype Phase = Init | Opened | Paging(total: nat, next: nat) | Done | Failed

  /**
   * One transition: `started` opens, `analyzing` announces the page count,
   * each page in turn gets `processing` (with its progress) or `page_error`,
   * `completed` follows the last page, and `error` may end any non-terminal
   * phase. Nothing follows `completed` or `error`.
   */
  function Step(p: Phase, e: Event): Option<Phase> {
    match p
    case Init =>
      if e == Started then Some(Opened) else if e.Error? then Some(Failed) else None
    case Opened =>
      if e.Analyzing? then Some(Paging(e.totalPages, 0)) else if e.Error? then Some(Failed) else None
    case Paging(total, next) =>
      if e.Error? then Some(Failed)
      else if next < total && e.Processing? && e.pageIndex == next && e.totalPages == total
          && e.progress == Progress(next, total) then Some(Paging(total, next + 1))
      else if next < total && e.PageError? && e.pageIndex == next then Some(Paging(total, next + 1))
      else if next == total && e == Completed(total) then Some(Done)
      else None
    case Done => None
    case Failed => None
  }

  /** Run the state machine over a sequence of events; `None` when some event is not allowed. */
  function Run(p: Phase, es: seq<Event>): Option<Phase>
    decreases |es|
  {
    if |es| == 0 then Some(p)
    else match Step(p, es[0])
      case None => None
      case Some(q) => Run(q, es[1..])
  }

  lemma {:induction false} RunConcat(p: Phase, a: seq<Event>, b: seq<Event>)
    ensures Run(p, a + b) == match Run(p, a) case None => None case Some(q) => Run(q, b)
    decreases |a|
  {
    if |a| == 0 {
      assert a + b == b;
    } else {
      assert (a + b)[1..] == a[1..] + b;
      match Step(p, a[0])
      case None =>
      case Some(q) => RunConcat(q, a[1..], b);
    }
  }

  /** The page events take the machine from page `from` to past the last page. */
  lemma {:induction false} PageEventsAdvance(pages: seq<PageOutcome>, from: nat, includeDiscarded: bool, convert: PageFormat.Converter)
    requires from <= |pages|
    ensures Run(Paging(|pages|, from), PageEvents(pages, from, includeDiscarded, convert)) == Some(Paging(|pages|, |pages|))
    decreases |pages| - from
  {
    if from < |pages| {
      var es := PageEvents(pages, from, includeDiscarded, convert);
      assert es[1..] == PageEvents(pages, from + 1, includeDiscarded, convert);
      PageEventsAdvance(pages, from + 1, includeDiscarded, convert);
    }
  }

  /**
   * Every stream the server sends is accepted by the state machine, ending
   * in `Done` exactly when every step succeeded and in `Failed` otherwise.
   */
  lemma StreamFollowsProtocol(run: StreamRun, convert: PageFormat.Converter)
    ensures Run(Init, StreamEvents(run, convert)) == Some(if Succeeds(run) then Done else Failed)
  {
    if Succeeds(run) {
      var n := |run.analysis.value|;
      var body := PageEvents(run.analysis.value, 0, run.includeDiscarded, convert);
      var head := [Started, Analyzing(n)];
      var tail := body + [Completed(n)];
      assert StreamEvents(run, convert) == head + tail;
      assert Run(Opened, [Analyzing(n)]) == Some(Paging(n, 0)) by {
        assert [Analyzing(n)][1..] == [];
      }
      assert Run(Init, head) == Some(Paging(n, 0)) by {
        assert head[1..] == [Analyzing(n)];
      }
      RunConcat(Init, head, tail);
      PageEventsAdvance(run.analysis.value, 0, run.includeDiscarded, convert);
      RunConcat(Paging(n, 0), body, [Completed(n)]);
      assert Run(Paging(n, n), [Completed(n)]) == Some(Done) by {
        assert [Completed(n)][1..] == [];
      }
    } else if run.prepare.Pass? && run.analysis.Ok? {
      var es := [Started, Analyzing(|run.analysis.value|), Error(run.setup.message)];
      assert es[1..][1..][1..] == [];
      assert Run(Paging(|run.analysis.value|, 0), es[1..][1..]) == Some(Failed);
      assert Run(Opened, es[1..]) == Some(Failed);
    } else if run.prepare.Pass? {
      var es := [Started, Error(run.analysis.error)];
      assert es[1..][1..] == [];
      assert Run(Opened, es[1..]) == Some(Failed);
    } else {
      assert [Error(run.prepare.message)][1..] == [];
    }
  }

  /**
   * Any event sequence the machine accepts from a live phase into a finished
   * one ends with its only terminal event: nothing is sent after `completed`
   * or `error`.
   */
  lemma {:induction false} TerminalEventIsLast(p: Phase, es: seq<Event>)
    requires p != Done && p != Failed
    requires Run(p, es) == Some(Done) || Run(p, es) == Some(Failed)
    ensures |es| > 0 && IsTerminal(es[|es| - 1])
    ensures forall k :: 0 <= k < |es| - 1 ==> !IsTerminal(es[k])
    decreases |es|
  {
    var q := Step(p, es[0]).value;
    if IsTerminal(es[0]) {
      assert q == Done || q == Failed;
    } else {
      assert q != Done && q != Failed;
      TerminalEventIsLast(q, es[1..]);
    }
  }

  /** The stream of every job ends with exactly one terminal event, its last. */
  lemma StreamEndsOnce(run: StreamRun, convert: PageFormat.Converter)
    ensures var es := StreamEvents(run, convert);
      && |es| > 0 && IsTerminal(es[|es| - 1])
      && forall k :: 0 <= k < |es| - 1 ==> !IsTerminal(es[k])
  {
    StreamFollowsProtocol(run, convert);
    TerminalEventIsLast(Init, StreamEvents(run, convert));
  }

  /**
   * Three pages with the middle one failing: `processing(0)` at progress
   * 1/3, `page_error(1)`, `processing(2)` at progress 1, then `completed(3)`.
   */
  lemma ThreePageExample(run: StreamRun, convert: PageFormat.Converter)
    requires Succeeds(run) && |run.analysis.value| == 3
    requires run.analysis.value[0].PageReady? && run.analysis.value[1].PageFailed? && run.analysis.value[2].PageReady?
    ensures var es := StreamEvents(run, convert);
      && |es| == 6 && es[0] == Started && es[1] == Analyzing(3)
      && es[2].Processing? && es[2].pageIndex == 0 && es[2].progress == 1.0 / 3.0
      && es[3] == PageError(1, run.analysis.value[1].message)
      && es[4].Processing? && es[4].pageIndex == 2 && es[4].progress == 1.0
      && es[5] == Completed(3)
  {
    var pages := run.analysis.value;
    var es := StreamEvents(run, convert);
    EventOfPage(run, convert, 0);
    assert es[2] == PageEvent(pages[0], 0, 3, run.includeDiscarded, convert);
    EventOfPage(run, convert, 1);
    assert es[3] == PageEvent(pages[1], 1, 3, run.includeDiscarded, convert);
    EventOfPage(run, convert, 2);
    assert es[4] == PageEvent(pages[2], 2, 3, run.includeDiscarded, convert);
  }
}
