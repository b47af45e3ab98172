/**
 * The client-side orchestration of one document: the `useHierarchyExtraction`
 * hook. Its state (status, result, file name) lives in a class; `ProcessFile`
 * runs one attempt with the extractor's outcome and the edge-function call
 * given as parameters, and `Reset` returns to the idle state. Attempts are
 * sequential; the artificial delays and notifications are not modelled.
 */
module HierarchyExtraction {
  import opened Wrappers
  import opened JsStrings
  import opened Hierarchy
  import opened PdfExtractor

  /** The dropped file; only its name is read here. */
  datatype File = File(name: string)

  /** The body sent to the `extract-hierarchy` function. */
  datatype ServiceRequest = ServiceRequest(textContent: string, pageBreaks: seq<int>)

  /** The fields of the function's JSON reply that are read; a missing or null field is `None`. */
  datatype ServiceData = ServiceData(
    error: Option<string>,
    title: Option<string>,
    hierarchy: Option<seq<HierarchyNode>>,
    statistics: Option<Statistics>,
    parseWarning: Option<string>)

  /** What `supabase.functions.invoke` resolves to: an error with its message, and the reply (`None` for null). */
  datatype Invocation = Invocation(error: Option<string>, data: Option<ServiceData>)

  /** What one attempt does: the statuses it sets in order, the requests it sends, and the result it leaves. */
  datatype Attempt = Attempt(trace: seq<ProcessingStatus>, requests: seq<ServiceRequest>, result: Option<ExtractionResult>)

  const MinTextLength := 50
  const InsufficientText := "Could not extract sufficient text from PDF. The document may be image-based or protected."
  const AnalysisFailed := "Failed to analyze document"
  /** The `TypeError` a JavaScript engine (V8) raises for `data.title` when `data` is null. */
  const NullDataMessage := "Cannot read properties of null (reading 'title')"

  const IdleStatus := ProcessingStatus(Idle, 0, "")
  const Reading := ProcessingStatus(Uploading, 10, "Reading PDF file...")
  const ExtractingText := ProcessingStatus(Extracting, 30, "Extracting text content...")
  const AnalyzingStructure := ProcessingStatus(Analyzing, 60, "AI analyzing document structure...")
  const Building := ProcessingStatus(Analyzing, 90, "Building hierarchy tree...")
  const Completed := ProcessingStatus(Complete, 100, "Analysis complete!")
  const NoStatistics := Statistics(0, 0, 0, 0)

  function Extracted(pageCount: nat): ProcessingStatus {
    ProcessingStatus(Extracting, 50, "Extracted " + NatToString(pageCount) + " pages...")
  }

  function Failed(message: string): ProcessingStatus {
    ProcessingStatus(Error, 0, message)
  }

  /** The stages and progress values of a successful attempt, in order. */
  const PipelineStages := [Uploading, Extracting, Extracting, Analyzing, Analyzing, Complete]
  const PipelineProgress := [10, 30, 50, 60, 90, 100]

  /** A string option that JavaScript treats as true: present and non-empty. */
  predicate Truthy(s: Option<string>) {
    s.Some? && s.value != ""
  }

  /** `data.title || pdfResult.metadata?.title || file.name.replace('.pdf', '')`. */
  function ResolveTitle(serviceTitle: Option<string>, pdfTitle: Option<string>, fileName: string): (r: string)
    ensures Truthy(serviceTitle) ==> r == serviceTitle.value
    ensures !Truthy(serviceTitle) && Truthy(pdfTitle) ==> r == pdfTitle.value
    ensures !Truthy(serviceTitle) && !Truthy(pdfTitle) && !Contains(fileName, ".pdf") ==> r == fileName
    ensures !Truthy(serviceTitle) && !Truthy(pdfTitle) && Contains(fileName, ".pdf") ==>
              exists i: nat :: && OccursAt(fileName, ".pdf", i)
                               && (forall k: nat :: k < i ==> !OccursAt(fileName, ".pdf", k))
                               && r == fileName[..i] + fileName[i + 4..]
  {
    if Truthy(serviceTitle) then serviceTitle.value
    else if Truthy(pdfTitle) then pdfTitle.value
    else ReplaceFirst(fileName, ".pdf", "")
  }

  /** A file named `<stem>.pdf`, with no other `.pdf` in its name and no title from elsewhere, is titled `<stem>`. */
  lemma TitleFromFileName(serviceTitle: Option<string>, pdfTitle: Option<string>, stem: string)
    requires !Truthy(serviceTitle) && !Truthy(pdfTitle) && !Contains(stem, ".pdf")
    ensures ResolveTitle(serviceTitle, pdfTitle, stem + ".pdf") == stem
  {
    ReplaceFirstDropsSuffix(stem);
  }

  /** Only the first `.pdf` is removed, wherever it is: "a.pdf.b.pdf" is titled "a.b.pdf". */
  lemma TitleDropsFirstPdfOnly()
    ensures ResolveTitle(None, None, "a.pdf.b.pdf") == "a.b.pdf"
  {
    var name := "a.pdf.b.pdf";
    assert name[0..4][0] == 'a';
    assert !OccursAt(name, ".pdf", 0);
    assert OccursAt(name, ".pdf", 1);
    assert IndexOf(name, ".pdf", 0) == Some(1);
    assert name[..1] + "" + name[5..] == "a.b.pdf";
  }

  /** The final result: the service's outline and statistics when present, defaults otherwise. */
  function Merge(data: ServiceData, pdf: PdfExtractionResult, fileName: string): (r: ExtractionResult)
    ensures r.title == ResolveTitle(data.title, pdf.metadata.title, fileName)
    ensures data.hierarchy.Some? ==> r.hierarchy == data.hierarchy.value
    ensures data.hierarchy.None? ==> r.hierarchy == []
    ensures data.statistics.Some? ==> r.statistics == data.statistics.value
    ensures data.statistics.None? ==> r.statistics == NoStatistics
    ensures r.parseWarning == data.parseWarning
  {
    ExtractionResult(
      ResolveTitle(data.title, pdf.metadata.title, fileName),
      data.hierarchy.GetOr([]),
      data.statistics.GetOr(NoStatistics),
      data.parseWarning)
  }

  /** The message of the error thrown for a failed call: its own, or a default when that is empty. */
  function InvokeErrorMessage(message: string): (r: string)
    ensures r != ""
    ensures message != "" ==> r == message
  {
    if message == "" then AnalysisFailed else message
  }

  /**
   * What `processFile` does once the service has replied, from the status
   * after the call on: the statuses it sets and the result it leaves.
   */
  function Conclusion(reply: Invocation, p: PdfExtractionResult, fileName: string): (r: Attempt)
    ensures 1 <= |r.trace| <= 2 && r.requests == []
    ensures r.result.Some? <==> r.trace[|r.trace| - 1] == Completed
    ensures r.result.None? ==> r.trace[|r.trace| - 1].stage == Error && r.trace[|r.trace| - 1].progress == 0
    ensures |r.trace| == 2 ==> r.trace[0] == Building
  {
    if reply.error.Some? then
      Attempt([Failed(InvokeErrorMessage(reply.error.value))], [], None)
    else if reply.data.Some? && Truthy(reply.data.value.error) then
      Attempt([Failed(reply.data.value.error.value)], [], None)
    else if reply.data.None? then
      Attempt([Building, Failed(NullDataMessage)], [], None)
    else
      Attempt([Building, Completed], [], Some(Merge(reply.data.value, p, fileName)))
  }

  /** What `processFile` does from the extracted text on: check its length, call the service, conclude. */
  function Analysis(p: PdfExtractionResult, fileName: string, invoke: ServiceRequest -> Invocation): Attempt {
    if |p.textContent| < MinTextLength then
      Attempt([Failed(InsufficientText)], [], None)
    else
      var request := ServiceRequest(p.textContent, p.pageBreaks);
      var rest := Conclusion(invoke(request), p, fileName);
      Attempt([Extracted(p.pageCount), AnalyzingStructure] + rest.trace, [request], rest.result)
  }

  /** What `processFile` does once the file has been read: the extractor's outcome decides. */
  function AfterReading(pdf: Result<PdfExtractionResult>, fileName: string, invoke: ServiceRequest -> Invocation): Attempt {
    match pdf
    case Err(m) => Attempt([Failed(m)], [], None)
    case Ok(p) => Analysis(p, fileName, invoke)
  }

  /** The specification of one attempt of `processFile`. */
  function Run(file: File, pdf: Result<PdfExtractionResult>, invoke: ServiceRequest -> Invocation): Attempt {
    var rest := AfterReading(pdf, file.name, invoke);
    Attempt([Reading, ExtractingText] + rest.trace, rest.requests, rest.result)
  }

  // ---------------------------------------------------------------------------
  // What every attempt promises

  /**
   * Every attempt walks the fixed pipeline and stops at its first error: all
   * but its last status are the successful attempt's, in order, and the last
   * is either completion (with a result) or an error at progress 0 (without).
   */
  lemma RunFollowsPipeline(file: File, pdf: Result<PdfExtractionResult>, invoke: ServiceRequest -> Invocation)
    ensures var a := Run(file, pdf, invoke);
      && 3 <= |a.trace| <= |PipelineStages|
      && (forall i :: 0 <= i < |a.trace| - 1 ==>
            a.trace[i].stage == PipelineStages[i] && a.trace[i].progress == PipelineProgress[i])
      && (a.result.Some? <==> a.trace[|a.trace| - 1] == Completed)
      && (a.result.Some? ==> |a.trace| == |PipelineStages|)
      && (a.result.None? ==> a.trace[|a.trace| - 1].stage == Error && a.trace[|a.trace| - 1].progress == 0)
  {
  }

  /** On success the stages are uploading, extracting twice, analyzing twice, complete, and progress never falls. */
  lemma SuccessfulRunOrdered(file: File, pdf: Result<PdfExtractionResult>, invoke: ServiceRequest -> Invocation)
    requires Run(file, pdf, invoke).result.Some?
    ensures var t := Run(file, pdf, invoke).trace;
      && |t| == 6
      && (forall i :: 0 <= i < 6 ==> t[i].stage == PipelineStages[i] && t[i].progress == PipelineProgress[i])
      && (forall i, j :: 0 <= i <= j < 6 ==> t[i].progress <= t[j].progress)
  {
  }

  /** Too little text ends the attempt in an error, and the service is never called. */
  lemma ShortTextNeverInvokes(file: File, p: PdfExtractionResult, i1: ServiceRequest -> Invocation, i2: ServiceRequest -> Invocation)
    requires |p.textContent| < MinTextLength
    ensures Run(file, Ok(p), i1) == Run(file, Ok(p), i2)
    ensures Run(file, Ok(p), i1) == Attempt([Reading, ExtractingText, Failed(InsufficientText)], [], None)
  {
  }

  /** With enough text the service is called exactly once, with the extracted text and page breaks. */
  lemma ServiceCalledWithExtraction(file: File, p: PdfExtractionResult, invoke: ServiceRequest -> Invocation)
    requires |p.textContent| >= MinTextLength
    ensures Run(file, Ok(p), invoke).requests == [ServiceRequest(p.textContent, p.pageBreaks)]
  {
  }

  /** A failed call or an `error` in the reply ends the attempt with that message, at progress 0, with no result. */
  lemma ServiceErrorsSurfaced(file: File, p: PdfExtractionResult, invoke: ServiceRequest -> Invocation)
    requires |p.textContent| >= MinTextLength
    ensures var reply := invoke(ServiceRequest(p.textContent, p.pageBreaks));
      var a := Run(file, Ok(p), invoke);
      && (reply.error.Some? ==>
            a.trace[|a.trace| - 1] == Failed(InvokeErrorMessage(reply.error.value)) && a.result.None?)
      && (reply.error.None? && reply.data.Some? && Truthy(reply.data.value.error) ==>
            a.trace[|a.trace| - 1] == Failed(reply.data.value.error.value) && a.result.None?)
  {
  }

  /** A reply without error and with data completes, with the merged result. */
  lemma ServiceDataMerged(file: File, p: PdfExtractionResult, invoke: ServiceRequest -> Invocation, data: ServiceData)
    requires |p.textContent| >= MinTextLength
    requires invoke(ServiceRequest(p.textContent, p.pageBreaks)) == Invocation(None, Some(data))
    requires !Truthy(data.error)
    ensures Run(file, Ok(p), invoke).result == Some(Merge(data, p, file.name))
  {
  }

  /** Two statuses set one after the other, then a run of others. */
  lemma AppendTwo(h: seq<ProcessingStatus>, x: ProcessingStatus, y: ProcessingStatus, t: seq<ProcessingStatus>)
    ensures h + [x] + [y] + t == h + ([x, y] + t)
  {
    assert h + [x] + [y] == h + [x, y];
  }

  // ---------------------------------------------------------------------------
  // The hook's state

  class Hook {
    var status: ProcessingStatus
    var result: Option<ExtractionResult>
    var fileName: Option<string>
    /** Every status set since the hook was created, the initial one first. */
    ghost var history: seq<ProcessingStatus>
    /** Every request sent to the service since the hook was created. */
    ghost var requests: seq<ServiceRequest>

    /**
     * The status is the last one set; a result is held exactly when the
     * attempt completed; a file name is held exactly when the hook is not idle.
     */
    ghost predicate Valid()
      reads this
    {
      && history != [] && status == history[|history| - 1]
      && (result.Some? <==> status.stage == Complete)
      && (status.stage == Idle <==> fileName.None?)
      && (status.stage == Idle ==> status == IdleStatus)
      && 0 <= status.progress <= 100
    }

    constructor ()
      ensures Valid()
      ensures status == IdleStatus && result == None && fileName == None
      ensures history == [IdleStatus] && requests == []
    {
      status := IdleStatus;
      result := None;
      fileName := None;
      history := [IdleStatus];
      requests := [];
    }

    /** `setStatus`. */
    method SetStatus(s: ProcessingStatus)
      modifies this
      ensures status == s && history == old(history) + [s]
      ensures result == old(result) && fileName == old(fileName) && requests == old(requests)
    {
      status := s;
      history := history + [s];
    }

    /** `processFile`: one attempt, given what the extractor and the service call produce. */
    method ProcessFile(file: File, pdf: Result<PdfExtractionResult>, invoke: ServiceRequest -> Invocation)
      requires Valid()
      modifies this
      ensures Valid()
      ensures var a := Run(file, pdf, invoke);
        && history == old(history) + a.trace
        && requests == old(requests) + a.requests
        && result == a.result
        && fileName == Some(file.name)
    {
      result := None;
      fileName := Some(file.name);
      SetStatus(Reading);
      SetStatus(ExtractingText);
      ghost var rest := AfterReading(pdf, file.name, invoke);
      if pdf.Err? {
        SetStatus(Failed(pdf.message));
        assert requests == old(requests) + rest.requests;
      } else {
        Analyze(pdf.value, file.name, invoke);
      }
      AppendTwo(old(history), Reading, ExtractingText, rest.trace);
    }

    /** The part of `processFile` from the extracted text up to the service's reply. */
    method Analyze(pdfResult: PdfExtractionResult, name: string, invoke: ServiceRequest -> Invocation)
      requires result.None? && fileName.Some?
      modifies this
      ensures Valid()
      ensures var a := Analysis(pdfResult, name, invoke);
        && history == old(history) + a.trace
        && requests == old(requests) + a.requests
        && result == a.result
        && fileName == old(fileName)
    {
      if |pdfResult.textContent| < MinTextLength {
        SetStatus(Failed(InsufficientText));
      } else {
        SetStatus(Extracted(pdfResult.pageCount));
        SetStatus(AnalyzingStructure);
        var request := ServiceRequest(pdfResult.textContent, pdfResult.pageBreaks);
        requests := requests + [request];
        var reply := invoke(request);
        Conclude(reply, pdfResult, name);
        AppendTwo(old(history), Extracted(pdfResult.pageCount), AnalyzingStructure, Conclusion(reply, pdfResult, name).trace);
      }
    }

    /** The part of `processFile` after the service call: fail with its error, or build and keep the result. */
    method Conclude(reply: Invocation, pdfResult: PdfExtractionResult, name: string)
      requires result.None? && fileName.Some?
      modifies this
      ensures Valid()
      ensures var c := Conclusion(reply, pdfResult, name);
        && history == old(history) + c.trace
        && result == c.result
        && fileName == old(fileName) && requests == old(requests)
    {
      if reply.error.Some? {
        SetStatus(Failed(InvokeErrorMessage(reply.error.value)));
      } else if reply.data.Some? && Truthy(reply.data.value.error) {
        SetStatus(Failed(reply.data.value.error.value));
      } else {
        SetStatus(Building);
        if reply.data.None? {
          SetStatus(Failed(NullDataMessage));
        } else {
          result := Some(Merge(reply.data.value, pdfResult, name));
          SetStatus(Completed);
        }
      }
    }

    /** `reset`: back to idle with nothing held, whatever the state was. */
    method Reset()
      modifies this
      ensures Valid()
      ensures status == IdleStatus && result == None && fileName == None
      ensures history == old(history) + [IdleStatus] && requests == old(requests)
    {
      SetStatus(IdleStatus);
      result := None;
      fileName := None;
    }
  }
}
