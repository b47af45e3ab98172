/**
 * The `extract-hierarchy` edge function, as a pure decision from its inputs to
 * the HTTP response it returns. The environment lookup becomes a flag, the
 * call to the AI gateway an oracle from the user message to the gateway's
 * reply, and `JSON.parse` an oracle that either yields a value or fails.
 * Every exception the handler catches is represented by its message.
 */
module ExtractHierarchy {
  import opened Wrappers
  import opened JsStrings
  import opened Hierarchy

  /** The parsed request body: unreadable (`req.json()` throws), or its `textContent` field when that is a string. */
  datatype RequestBody = Unreadable(message: string) | Fields(textContent: Option<string>)

  datatype Request = Request(httpMethod: string, body: RequestBody)

  /**
   * Reading the gateway reply's body: it throws, or yields `choices[0].message.content`
   * when that is present and a string. For a reply that is not ok only whether
   * reading succeeded matters.
   */
  datatype ReplyBody = ReadFailed(message: string) | Read(content: Option<string>)

  /** The outcome of the `fetch` to the gateway: it throws, or answers with a status and a body. */
  datatype Reply = Threw(message: string) | Http(status: int, body: ReplyBody)

  /** The JSON the handler sends back; `J` is whatever `JSON.parse` produces. */
  datatype Body<J> = Empty | ErrorJson(error: string) | ModelJson(value: J) | StubJson(result: ExtractionResult)

  /** A response; a status of 200 is also what `new Response` uses when none is given. */
  datatype Response<J> = Response(status: int, body: Body<J>)

  const MaxDocumentLength := 50000
  const MaxPreviewLength := 500
  const Fence := "```"
  const PromptLead := "Analyze this document and extract its hierarchical structure:\n\n"

  const TextRequired := "Text content is required"
  const NotConfigured := "AI service not configured"
  const RateLimited := "Rate limit exceeded. Please try again in a moment."
  const CreditsExhausted := "AI usage limit reached. Please add credits to continue."
  const AnalysisFailed := "Failed to analyze document"
  const NoModelReply := "No response from AI service"
  const FallbackWarning := "AI response was not valid JSON, showing simplified structure"

  /** `s.slice(0, n)`: the first `n` characters, or all of `s` when it is shorter. */
  function Truncate(s: string, n: nat): (r: string)
    ensures |r| == (if |s| < n then |s| else n)
    ensures r == s[..|r|]
  {
    if |s| <= n then s else s[..n]
  }

  /** The user message sent to the model. */
  function UserMessage(text: string): string {
    PromptLead + Truncate(text, MaxDocumentLength)
  }

  /** The document part of the user message is the first min(length, 50000) characters of the text. */
  lemma ForwardedDocument(text: string)
    ensures UserMessage(text)[..|PromptLead|] == PromptLead
    ensures UserMessage(text)[|PromptLead|..] == text[..if |text| < MaxDocumentLength then |text| else MaxDocumentLength]
  {
  }

  /** `!textContent || typeof textContent !== 'string'` fails exactly when this holds. */
  predicate IsText(textContent: Option<string>) {
    textContent.Some? && textContent.value != ""
  }

  /** `response.ok`. */
  predicate IsOk(status: int) {
    200 <= status <= 299
  }

  /** The optional `json` info string after an opening fence. */
  function SkipJsonTag(s: string): (r: string)
    ensures |r| <= |s| && r == s[|s| - |r|..]
  {
    if |s| >= 4 && s[..4] == "json" then s[4..] else s
  }

  /**
   * The capture group of the first match of /```(?:json)?\s*([\s\S]*?)```/.
   * Matching always starts at the first fence: after it come an optional
   * `json` tag and as much white space as possible, and the capture runs to
   * the next fence. Backtracking cannot do better, since the tag and the white
   * space hold no backtick, so a later opening fence lies beyond where the
   * closing fence was looked for.
   */
  function FenceCapture(reply: string): (r: Option<string>)
    ensures r.Some? ==> Contains(reply, Fence)
    ensures r.Some? ==> |r.value| + 2 * |Fence| <= |reply| && !Contains(r.value, Fence)
  {
    match IndexOf(reply, Fence, 0)
    case None => None
    case Some(p) => CaptureAfterOpening(reply[p + |Fence|..])
  }

  /** The capture, given what follows the opening fence: up to the next fence, once the tag and white space are skipped. */
  function CaptureAfterOpening(after: string): (r: Option<string>)
    ensures r.Some? ==> |r.value| + |Fence| <= |after| && !Contains(r.value, Fence)
  {
    var rest := TrimStart(SkipJsonTag(after));
    match IndexOf(rest, Fence, 0)
    case None => None
    case Some(c) =>
      NoFenceInPrefix(rest, c);
      Some(rest[..c])
  }

  /** The text before the first fence holds no fence. */
  lemma NoFenceInPrefix(s: string, c: nat)
    requires c <= |s|
    requires forall k: nat :: k < c ==> !OccursAt(s, Fence, k)
    ensures !Contains(s[..c], Fence)
  {
    forall k: nat | k <= c ensures !OccursAt(s[..c], Fence, k) {
      if OccursAt(s[..c], Fence, k) {
        assert s[..c][k..k + 3] == s[k..k + 3];
        assert OccursAt(s, Fence, k);
      }
    }
  }

  /** The string handed to `JSON.parse`: the trimmed capture when there is a match, else the reply itself. */
  function JsonText(reply: string): (r: string)
    ensures |r| <= |reply|
  {
    match FenceCapture(reply)
    case None => reply
    case Some(body) => Trim(body)
  }

  /** The paragraph text of the fallback: the first 500 characters, with "..." when something was cut off. */
  function Preview(text: string): (r: string)
    ensures |text| <= MaxPreviewLength ==> r == text
    ensures |text| > MaxPreviewLength ==> r == text[..MaxPreviewLength] + "..."
    ensures |r| <= MaxPreviewLength + 3
  {
    Truncate(text, MaxPreviewLength) + (if |text| > MaxPreviewLength then "..." else "")
  }

  /** The two-node outline returned when the model's reply is not valid JSON. */
  function FallbackResult(text: string): ExtractionResult {
    var paragraph := HierarchyNode("p_1", 2, Paragraph, Preview(text), [], Some(NodeMetadata(None, Some(0.5), None)));
    var root := HierarchyNode("root_1", 1, Section, "Document Content", [paragraph], Some(NodeMetadata(None, Some(0.5), None)));
    ExtractionResult("Document", [root], Statistics(2, 1, 1, 2), Some(FallbackWarning))
  }

  /** The response for a non-ok gateway status whose body could be read. */
  function GatewayFailure<J>(status: int): (r: Response<J>)
    ensures r.body.ErrorJson?
    ensures r.status == 402 || r.status == 429 || r.status == 500
    ensures status == 402 || status == 429 ==> r.status == status
    ensures status != 402 && status != 429 ==> r.status == 500 && r.body.error == AnalysisFailed
  {
    if status == 429 then Response(429, ErrorJson(RateLimited))
    else if status == 402 then Response(402, ErrorJson(CreditsExhausted))
    else Response(500, ErrorJson(AnalysisFailed))
  }

  /** The handler passed to `serve`. */
  function Handle<J>(req: Request, keyPresent: bool, gateway: string -> Reply, parse: string -> Option<J>): (r: Response<J>)
    ensures req.httpMethod == "OPTIONS" ==> r == Response(200, Empty)
    ensures r.status == 200 || r.status == 400 || r.status == 402 || r.status == 429 || r.status == 500
    ensures r.body.ErrorJson? <==> r.status != 200
    ensures r.status == 400 <==> req.httpMethod != "OPTIONS" && req.body.Fields? && !IsText(req.body.textContent)
    ensures r.body.StubJson? ==>
              && req.body.Fields? && IsText(req.body.textContent)
              && r.body.result == FallbackResult(req.body.textContent.value)
  {
    if req.httpMethod == "OPTIONS" then Response(200, Empty)
    else
      match req.body
      case Unreadable(m) => Response(500, ErrorJson(m))
      case Fields(textContent) =>
        if !IsText(textContent) then Response(400, ErrorJson(TextRequired))
        else if !keyPresent then Response(500, ErrorJson(NotConfigured))
        else
          var text := textContent.value;
          match gateway(UserMessage(text))
          case Threw(m) => Response(500, ErrorJson(m))
          case Http(status, body) =>
            if body.ReadFailed? then Response(500, ErrorJson(body.message))
            else if !IsOk(status) then GatewayFailure(status)
            else if !IsText(body.content) then Response(500, ErrorJson(NoModelReply))
            else
              match parse(JsonText(body.content.value))
              case Some(v) => Response(200, ModelJson(v))
              case None => Response(200, StubJson(FallbackResult(text)))
  }

  // ---------------------------------------------------------------------------
  // The decision chain, step by step

  /** Without usable text the answer is 400, whatever the key, the gateway or the parser would do. */
  lemma TextCheckedBeforeKey<J>(req: Request, keyPresent: bool, gateway: string -> Reply, parse: string -> Option<J>)
    requires req.httpMethod != "OPTIONS" && req.body.Fields? && !IsText(req.body.textContent)
    ensures Handle(req, keyPresent, gateway, parse) == Response(400, ErrorJson(TextRequired))
  {
  }

  /** With usable text but no key the answer is 500 and the gateway is not consulted. */
  lemma MissingKeyRejected<J>(req: Request, gateway: string -> Reply, parse: string -> Option<J>)
    requires req.httpMethod != "OPTIONS" && req.body.Fields? && IsText(req.body.textContent)
    ensures Handle(req, false, gateway, parse) == Response(500, ErrorJson(NotConfigured))
  {
  }

  /** The gateway is consulted at one point only: the user message built from the truncated text. */
  lemma GatewaySeesTruncatedText<J>(req: Request, keyPresent: bool, g1: string -> Reply, g2: string -> Reply, parse: string -> Option<J>)
    requires req.body.Fields? && IsText(req.body.textContent)
    requires g1(UserMessage(req.body.textContent.value)) == g2(UserMessage(req.body.textContent.value))
    ensures Handle(req, keyPresent, g1, parse) == Handle(req, keyPresent, g2, parse)
  {
  }

  /** A non-ok gateway status maps 429 to 429, 402 to 402 and everything else to 500. */
  lemma GatewayStatusMapped<J>(req: Request, gateway: string -> Reply, parse: string -> Option<J>, status: int, content: Option<string>)
    requires req.httpMethod != "OPTIONS" && req.body.Fields? && IsText(req.body.textContent)
    requires gateway(UserMessage(req.body.textContent.value)) == Http(status, Read(content))
    requires !IsOk(status)
    ensures var r := Handle(req, true, gateway, parse);
      && (status == 429 ==> r == Response(429, ErrorJson(RateLimited)))
      && (status == 402 ==> r == Response(402, ErrorJson(CreditsExhausted)))
      && (status != 429 && status != 402 ==> r == Response(500, ErrorJson(AnalysisFailed)))
  {
  }

  /** An ok reply without model content is a 500. */
  lemma MissingContentRejected<J>(req: Request, gateway: string -> Reply, parse: string -> Option<J>, status: int, content: Option<string>)
    requires req.httpMethod != "OPTIONS" && req.body.Fields? && IsText(req.body.textContent)
    requires gateway(UserMessage(req.body.textContent.value)) == Http(status, Read(content))
    requires IsOk(status) && !IsText(content)
    ensures Handle(req, true, gateway, parse) == Response(500, ErrorJson(NoModelReply))
  {
  }

  /** An ok reply with content is always a success: the parsed value verbatim, or the fallback when parsing fails. */
  lemma ModelReplySucceeds<J>(req: Request, gateway: string -> Reply, parse: string -> Option<J>, status: int, reply: string)
    requires req.httpMethod != "OPTIONS" && req.body.Fields? && IsText(req.body.textContent)
    requires gateway(UserMessage(req.body.textContent.value)) == Http(status, Read(Some(reply)))
    requires IsOk(status) && reply != ""
    ensures var r := Handle(req, true, gateway, parse);
      && r.status == 200
      && (parse(JsonText(reply)).Some? ==> r.body == ModelJson(parse(JsonText(reply)).value))
      && (parse(JsonText(reply)).None? ==> r.body == StubJson(FallbackResult(req.body.textContent.value)))
  {
  }

  /** One of the awaited steps throws with message `m`: reading the request, the `fetch`, or reading its reply. */
  predicate ThrowsWith(req: Request, gateway: string -> Reply, m: string) {
    match req.body
    case Unreadable(message) => message == m
    case Fields(textContent) =>
      && IsText(textContent)
      && match gateway(UserMessage(textContent.value))
         case Threw(message) => message == m
         case Http(_, body) => body == ReadFailed(m)
  }

  /** Every exception caught by the handler becomes a 500 carrying the exception's message. */
  lemma ExceptionsBecome500<J>(req: Request, gateway: string -> Reply, parse: string -> Option<J>, m: string)
    requires req.httpMethod != "OPTIONS" && ThrowsWith(req, gateway, m)
    ensures Handle(req, true, gateway, parse) == Response(500, ErrorJson(m))
  {
  }

  // ---------------------------------------------------------------------------
  // The fallback outline

  /** The fallback is one section holding one paragraph, and its statistics describe it. */
  lemma FallbackShape(text: string)
    ensures var r := FallbackResult(text);
      && |r.hierarchy| == 1
      && r.hierarchy[0].nodeType == Section
      && |r.hierarchy[0].children| == 1
      && r.hierarchy[0].children[0].nodeType == Paragraph
      && r.hierarchy[0].children[0].children == []
      && r.hierarchy[0].children[0].text == Preview(text)
      && r.hierarchy[0].metadata.Some? && r.hierarchy[0].metadata.value.confidence == Some(0.5)
      && r.hierarchy[0].children[0].metadata.Some? && r.hierarchy[0].children[0].metadata.value.confidence == Some(0.5)
      && r.parseWarning.Some? && r.parseWarning.value != ""
      && Describes(r.statistics, r.hierarchy)
      && r.statistics.totalNodes == 2 && r.statistics.maxDepth == 2
      && r.statistics.headings == CountOf(r.hierarchy, Section) && CountOf(r.hierarchy, Heading) == 0
  {
    var r := FallbackResult(text);
    var root := r.hierarchy[0];
    var paragraph := root.children[0];
    assert [root][1..] == [];
    assert [paragraph][1..] == [];
    assert Size([paragraph]) == 1;
    assert Depth([paragraph]) == 1;
    assert CountOf([paragraph], Paragraph) == 1;
    assert CountOf([paragraph], Section) == 0;
    assert CountOf([paragraph], Heading) == 0;
  }

  // ---------------------------------------------------------------------------
  // Stripping the code fence

  /** A fence of `x + (Fence + y)` that starts inside `x` would already be one of `x + "``"`. */
  lemma NoFenceInside(x: string, y: string, k: nat)
    requires k < |x| && !OccursAt(x + "``", Fence, k)
    ensures !OccursAt(x + (Fence + y), Fence, k)
  {
    var s := x + (Fence + y);
    var xs := x + "``";
    forall i | k <= i < k + 3 ensures s[i] == xs[i] {
      if i < |x| {
        assert s[i] == x[i] == xs[i];
      } else {
        assert s[i] == Fence[i - |x|] == '`';
      }
    }
    assert s[k..k + 3] == xs[k..k + 3];
  }

  /** The fence placed after `x` occurs there. */
  lemma FenceAfter(x: string, y: string)
    ensures OccursAt(x + (Fence + y), Fence, |x|)
  {
    var s := x + (Fence + y);
    forall j | 0 <= j < 3 ensures s[|x| + j] == Fence[j] { }
  }

  /** No fence of `x + (Fence + y)` starts inside `x` when `x` cannot hide one. */
  lemma NoFenceBefore(x: string, y: string)
    requires !Contains(x + "``", Fence)
    ensures forall k: nat :: k < |x| ==> !OccursAt(x + (Fence + y), Fence, k)
  {
    forall k: nat | k < |x| ensures !OccursAt(x + (Fence + y), Fence, k) {
      assert !OccursAt(x + "``", Fence, k);
      NoFenceInside(x, y, k);
    }
  }

  /** The first fence of `x + (Fence + y)` is the one after `x`, when `x` cannot hide one. */
  lemma FirstFenceAt(x: string, y: string)
    requires !Contains(x + "``", Fence)
    ensures IndexOf(x + (Fence + y), Fence, 0) == Some(|x|)
  {
    FenceAfter(x, y);
    NoFenceBefore(x, y);
    IndexOfFirst(x + (Fence + y), Fence, |x|);
  }

  /** A suffix of a text without a fence has none either. */
  lemma SuffixWithoutFence(s: string, off: nat)
    requires off <= |s| && !Contains(s, Fence)
    ensures !Contains(s[off..], Fence)
  {
    forall k: nat | k <= |s[off..]| ensures !OccursAt(s[off..], Fence, k) {
      if OccursAt(s[off..], Fence, k) {
        assert s[off..][k..k + 3] == s[k + off..k + off + 3];
        assert OccursAt(s, Fence, k + off);
      }
    }
  }

  /** A reply without a fence is parsed as it is. */
  lemma UnfencedReplyUnchanged(reply: string)
    requires !Contains(reply, Fence)
    ensures JsonText(reply) == reply
  {
  }

  /** An opening fence without a closing one leaves the reply as it is. */
  lemma UnclosedFenceUnchanged(pre: string, post: string)
    requires !Contains(pre + "``", Fence)
    requires !Contains(post, Fence)
    ensures JsonText(pre + Fence + post) == pre + Fence + post
  {
    assert pre + Fence + post == pre + (Fence + post);
    JsonTextAfterFirstFence(pre, post);
    var tagless := SkipJsonTag(post);
    SuffixWithoutFence(post, |post| - |tagless|);
    var rest := TrimStart(tagless);
    SuffixWithoutFence(tagless, |tagless| - |rest|);
    assert IndexOf(rest, Fence, 0).None?;
  }

  /** The optional info string of the opening fence. */
  function Tag(tagged: bool): string {
    if tagged then "json" else ""
  }

  /** The `json` tag is skipped exactly when it is there. */
  lemma TagSkipped(tagged: bool, r: string)
    requires !tagged ==> !(|r| >= 4 && r[..4] == "json")
    ensures SkipJsonTag(Tag(tagged) + r) == r
  {
    if tagged {
      assert (Tag(tagged) + r)[..4] == "json";
      assert (Tag(tagged) + r)[4..] == r;
    } else {
      assert Tag(tagged) + r == r;
    }
  }

  /** What follows the opening fence does not start with `json` unless the tag is there. */
  lemma NoTagAfterOpening(ws: string, body: string, post: string)
    requires AllSpace(ws)
    requires ws == [] ==> !(|body| >= 4 && body[..4] == "json")
    ensures var r := ws + (body + (Fence + post)); !(|r| >= 4 && r[..4] == "json")
  {
    var r := ws + (body + (Fence + post));
    if ws != [] {
      assert r[0] == ws[0] && IsSpace(ws[0]);
    } else {
      assert r == body + (Fence + post);
      if |body| >= 4 {
        assert r[..4] == body[..4];
      } else {
        assert r[|body|] == '`' && "json"[|body|] != '`';
      }
    }
  }

  /** Dropping leading white space cannot create a fence. */
  lemma TrimStartKeepsNoFence(body: string)
    requires !Contains(body + "``", Fence)
    ensures !Contains(TrimStart(body) + "``", Fence)
  {
    var bodyT := TrimStart(body);
    var k := |body| - |bodyT|;
    assert (body + "``")[k..] == bodyT + "``";
    SuffixWithoutFence(body + "``", k);
  }

  /** What `JsonText` makes of a reply depends only on what follows its first fence. */
  lemma JsonTextAfterFirstFence(pre: string, after: string)
    requires !Contains(pre + "``", Fence)
    ensures FenceCapture(pre + (Fence + after)) == CaptureAfterOpening(after)
  {
    FirstFenceAt(pre, after);
    assert (pre + (Fence + after))[|pre| + |Fence|..] == after;
  }

  /** After the opening, skipping the tag and the white space lands on the body's first non-space. */
  lemma OpeningSkipped(tagged: bool, ws: string, body: string, post: string)
    requires AllSpace(ws)
    requires !tagged && ws == [] ==> !(|body| >= 4 && body[..4] == "json")
    ensures TrimStart(SkipJsonTag(Tag(tagged) + (ws + (body + (Fence + post))))) == TrimStart(body) + (Fence + post)
  {
    var tail := Fence + post;
    var r := ws + (body + tail);
    if !tagged {
      NoTagAfterOpening(ws, body, post);
    }
    TagSkipped(tagged, r);
    TrimStartSkipsSpace(ws, body + tail);
    assert tail[0] == '`';
    TrimStartAppend(body, tail);
  }

  /** Once the tag and white space are skipped, the capture runs to the first fence. */
  lemma CaptureUpToFence(after: string, bodyT: string, post: string)
    requires TrimStart(SkipJsonTag(after)) == bodyT + (Fence + post)
    requires !Contains(bodyT + "``", Fence)
    ensures CaptureAfterOpening(after) == Some(bodyT)
  {
    FirstFenceAt(bodyT, post);
    assert (bodyT + (Fence + post))[..|bodyT|] == bodyT;
  }

  /** After the opening, the capture is the body without its leading white space. */
  lemma CaptureOfFencedBody(tagged: bool, ws: string, body: string, post: string)
    requires AllSpace(ws)
    requires !Contains(body + "``", Fence)
    requires !tagged && ws == [] ==> !(|body| >= 4 && body[..4] == "json")
    ensures CaptureAfterOpening(Tag(tagged) + (ws + (body + (Fence + post)))) == Some(TrimStart(body))
  {
    OpeningSkipped(tagged, ws, body, post);
    TrimStartKeepsNoFence(body);
    CaptureUpToFence(Tag(tagged) + (ws + (body + (Fence + post))), TrimStart(body), post);
  }

  /**
   * Wrapping a body in a fence, with or without a `json` tag and with any white
   * space after the opening, and parsing the reply sees the trimmed body.
   */
  lemma FencedReplyParsed(pre: string, tagged: bool, ws: string, body: string, post: string)
    requires !Contains(pre + "``", Fence)
    requires AllSpace(ws)
    requires !Contains(body + "``", Fence)
    requires !tagged && ws == [] ==> !(|body| >= 4 && body[..4] == "json")
    ensures JsonText(pre + (Fence + (Tag(tagged) + (ws + (body + (Fence + post)))))) == Trim(body)
  {
    var after := Tag(tagged) + (ws + (body + (Fence + post)));
    JsonTextAfterFirstFence(pre, after);
    CaptureOfFencedBody(tagged, ws, body, post);
    assert TrimStart(TrimStart(body)) == TrimStart(body);
  }
}
