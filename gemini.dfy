/**
 * The request the advisor sends to the Gemini `generateContent` endpoint and the way it reads the
 * answer: the prompt text, the request body with its optional inline image, and the classification
 * of the HTTP result into response text or an error.
 *
 * The network call, the `FileReader` that turns the image into a data URL and the printing of
 * numbers are outside the model: the data URL, the HTTP response and the number-to-text rendering
 * are parameters.
 */
module Gemini {
  import opened Wrappers
  import opened Text

  // ---------------------------------------------------------------------------
  // Form data
  // ---------------------------------------------------------------------------

  /** The selected image file: its MIME type and its size in bytes. */
  datatype ImageFile = ImageFile(mimeType: string, size: nat)

  /** What the form submits. */
  datatype AlgaeFormData = AlgaeFormData(
    ph: real,
    temperature: real,
    volume: real,
    harvestFrequency: string,
    image: Option<ImageFile>)

  // ---------------------------------------------------------------------------
  // The prompt
  // ---------------------------------------------------------------------------

  const PromptLead := "Act as an algae biofuel expert. For pH "
  const TemperatureLead := ", temperature "
  const VolumeLead := "\U{00B0}C, volume "
  const FrequencyLead := "L, and "

  /** The fixed task list, items a) to d), each ending its line. */
  const PromptTasks :=
    " harvesting:\n"
    + "a) Recommend top 3 algae strains in a markdown table with columns: Strain, Growth Rate, Lipid %, Ideal pH, Ideal Temp\n"
    + "b) Provide optimal harvesting schedule\n"
    + "c) Suggest lipid optimization techniques\n"
    + "d) Estimate biofuel yield potential\n"

  /** Item e), the last line of the prompt when an image is sent. */
  const ImageTask := "e) Analyze the uploaded algae image and provide insights"

  /** The pieces of the prompt template, in order: lead texts alternating with the parameters,
      then the task list and item e) or nothing. */
  function PromptPieces(d: AlgaeFormData, show: real -> string): (pieces: seq<string>)
    ensures |pieces| == 10
  {
    [PromptLead, show(d.ph), TemperatureLead, show(d.temperature), VolumeLead, show(d.volume),
     FrequencyLead, d.harvestFrequency, PromptTasks, if d.image.Some? then ImageTask else ""]
  }

  /** The prompt template; `show` is how a template literal prints a number. */
  function Prompt(d: AlgaeFormData, show: real -> string): (p: string)
  {
    Concat(PromptPieces(d, show))
  }

  /** Where piece `i` of the template starts in the prompt. */
  function PieceAt(d: AlgaeFormData, show: real -> string, i: nat): nat
    requires i <= 10
  {
    |Concat(PromptPieces(d, show)[..i])|
  }

  /** The prompt embeds pH, temperature, volume and harvest frequency, in that order, each right after
      its lead text, and the task list after them. */
  lemma PromptEmbedsParameters(d: AlgaeFormData, show: real -> string)
    ensures var p := Prompt(d, show);
      && StartsWith(p, PromptLead)
      && OccursAt(p, show(d.ph), PieceAt(d, show, 1))
      && OccursAt(p, TemperatureLead, PieceAt(d, show, 2))
      && OccursAt(p, show(d.temperature), PieceAt(d, show, 3))
      && OccursAt(p, VolumeLead, PieceAt(d, show, 4))
      && OccursAt(p, show(d.volume), PieceAt(d, show, 5))
      && OccursAt(p, FrequencyLead, PieceAt(d, show, 6))
      && OccursAt(p, d.harvestFrequency, PieceAt(d, show, 7))
      && OccursAt(p, PromptTasks, PieceAt(d, show, 8))
      && PieceAt(d, show, 1) < PieceAt(d, show, 3) < PieceAt(d, show, 5) < PieceAt(d, show, 7)
  {
    var pieces := PromptPieces(d, show);
    assert pieces[..0] == [];
    forall i | 0 <= i < 9
      ensures OccursAt(Prompt(d, show), pieces[i], PieceAt(d, show, i))
      ensures PieceAt(d, show, i + 1) == PieceAt(d, show, i) + |pieces[i]|
    {
      ConcatPiece(pieces, i);
    }
  }

  /** The prompt is the text up to the task list, the task list, then item e) or nothing. */
  lemma PromptTail(d: AlgaeFormData, show: real -> string)
    ensures Prompt(d, show) ==
      Concat(PromptPieces(d, show)[..8]) + PromptTasks + (if d.image.Some? then ImageTask else "")
  {
    var pieces := PromptPieces(d, show);
    var tail := [PromptTasks, if d.image.Some? then ImageTask else ""];
    assert pieces == pieces[..8] + tail;
    ConcatAppend(pieces[..8], tail);
    assert Concat(tail) == tail[0] + Concat(tail[1..]);
    assert Concat(tail[1..]) == tail[1] + Concat([]);
  }

  /** Sending an image only appends item e): the rest of the prompt is the same. */
  lemma PromptWithImage(d: AlgaeFormData, show: real -> string, f: ImageFile)
    ensures Prompt(d.(image := Some(f)), show) == Prompt(d.(image := None), show) + ImageTask
  {
    PromptTail(d.(image := Some(f)), show);
    PromptTail(d.(image := None), show);
    assert PromptPieces(d.(image := Some(f)), show)[..8] == PromptPieces(d.(image := None), show)[..8];
  }

  /** Item e) closes the prompt exactly when an image is sent; without one the prompt ends with the task list. */
  lemma PromptImageTaskIff(d: AlgaeFormData, show: real -> string)
    ensures EndsWith(Prompt(d, show), ImageTask) <==> d.image.Some?
    ensures d.image.None? ==> EndsWith(Prompt(d, show), PromptTasks)
  {
    PromptTail(d, show);
    var p := Prompt(d, show);
    if d.image.None? {
      assert p[|p| - 1] == '\n';
    }
  }

  // ---------------------------------------------------------------------------
  // The request body
  // ---------------------------------------------------------------------------

  /** `inlineData`; `data` is None where `split(',')[1]` is `undefined`. */
  datatype InlineData = InlineData(mimeType: string, data: Option<string>)

  datatype Part = TextPart(text: string) | InlineDataPart(inlineData: InlineData)

  datatype Content = Content(parts: seq<Part>)

  datatype GenerationConfig = GenerationConfig(temperature: real, topP: real, topK: nat, maxOutputTokens: nat)

  datatype RequestBody = RequestBody(contents: seq<Content>, generationConfig: GenerationConfig)

  const Config := GenerationConfig(0.4, 0.8, 40, 2048)

  /** `dataUrl.split(',')[1]`: the text between the first and the second comma (or the end). */
  function InlinePayload(dataUrl: string): Option<string>
  {
    var fields := Split(dataUrl, ',');
    if |fields| > 1 then Some(fields[1]) else None
  }

  /** A data URL `<header>,<payload>` yields its payload. */
  lemma InlinePayloadOfDataUrl(header: string, payload: string)
    requires ',' !in header && ',' !in payload
    ensures InlinePayload(header + "," + payload) == Some(payload)
  {
    SplitAfterField(header, ',', payload);
    SplitNoSeparator(payload, ',');
  }

  /** The payload is `undefined` exactly when there is no comma. */
  lemma InlinePayloadNoneIff(dataUrl: string)
    ensures InlinePayload(dataUrl).None? <==> ',' !in dataUrl
  {
  }

  /** Otherwise it is the segment after the first comma, up to the next comma or the end. */
  lemma InlinePayloadSegment(dataUrl: string)
    requires ',' in dataUrl
    ensures InlinePayload(dataUrl).Some?
    ensures var c := |Split(dataUrl, ',')[0]|; var payload := InlinePayload(dataUrl).value;
      && c < |dataUrl| && dataUrl[c] == ',' && ',' !in dataUrl[..c]
      && c + 1 + |payload| <= |dataUrl| && payload == dataUrl[c + 1..c + 1 + |payload|] && ',' !in payload
      && (c + 1 + |payload| < |dataUrl| ==> dataUrl[c + 1 + |payload|] == ',')
  {
    SplitAtFirst(dataUrl, ',');
    var c := |Split(dataUrl, ',')[0]|;
    SplitFirstField(dataUrl[c + 1..], ',');
  }

  /** The body before the image is considered: one content entry holding the prompt. */
  method BuildRequest(formData: AlgaeFormData, show: real -> string, imageData: Option<string>)
    returns (body: RequestBody)
    ensures |body.contents| == 1 && body.generationConfig == Config
    ensures var parts := body.contents[0].parts;
      && 1 <= |parts| <= 2
      && parts[0] == TextPart(Prompt(formData, show))
      && (|parts| == 2 <==> imageData.Some? && imageData.value != "" && formData.image.Some?)
      && (|parts| == 2 ==>
            parts[1] == InlineDataPart(InlineData(formData.image.value.mimeType, InlinePayload(imageData.value))))
  {
    var prompt := Prompt(formData, show);
    var parts := [TextPart(prompt)];
    if imageData.Some? && imageData.value != "" && formData.image.Some? {
      parts := parts + [InlineDataPart(InlineData(formData.image.value.mimeType, InlinePayload(imageData.value)))];
    }
    body := RequestBody([Content(parts)], Config);
  }

  // ---------------------------------------------------------------------------
  // The response
  // ---------------------------------------------------------------------------

  /** The parsed JSON answer, each level optional as the optional chaining treats it. */
  datatype ReplyPart = ReplyPart(text: Option<string>)

  datatype CandidateContent = CandidateContent(parts: Option<seq<ReplyPart>>)

  datatype Candidate = Candidate(content: Option<CandidateContent>)

  datatype Reply = Reply(candidates: Option<seq<Candidate>>)

  /** The HTTP response: its status, the error body as `JSON.stringify` prints it, and the parsed reply. */
  datatype HttpResponse = HttpResponse(status: nat, errorJson: string, reply: Reply)

  predicate Ok(resp: HttpResponse)
  {
    200 <= resp.status <= 299
  }

  datatype ApiError = StatusError(status: nat, detail: string) | UnexpectedFormat

  /** The message of the thrown error. */
  function ErrorMessage(e: ApiError): (m: string)
    ensures e.StatusError? <==> StartsWith(m, "API error: ")
  {
    match e
    case StatusError(status, detail) => "API error: " + NatToString(status) + " - " + detail
    case UnexpectedFormat =>
      assert "Unexpected API response format"[0] != 'A';
      "Unexpected API response format"
  }

  /** The status in an error message reads back as the status that caused it. */
  lemma ErrorMessageStatus(status: nat, detail: string)
    ensures var m := ErrorMessage(StatusError(status, detail)); var n := |NatToString(status)|;
      && 11 + n + 3 <= |m|
      && (forall i :: 11 <= i < 11 + n ==> IsDigit(m[i]))
      && DecimalValue(m[11..11 + n]) == status
      && m[11 + n..11 + n + 3] == " - "
      && m[11 + n + 3..] == detail
  {
    var m := ErrorMessage(StatusError(status, detail));
    var s := NatToString(status);
    assert m == "API error: " + s + " - " + detail;
    assert m[11..11 + |s|] == s;
    DecimalValueOfNatToString(status);
  }

  /** `data.candidates && data.candidates[0]?.content?.parts?.length > 0`. */
  predicate HasFirstPart(r: Reply)
  {
    && r.candidates.Some? && |r.candidates.value| > 0
    && r.candidates.value[0].content.Some?
    && r.candidates.value[0].content.value.parts.Some?
    && |r.candidates.value[0].content.value.parts.value| > 0
  }

  /** `data.candidates[0].content.parts[0]`. */
  function FirstPart(r: Reply): ReplyPart
    requires HasFirstPart(r)
  {
    r.candidates.value[0].content.value.parts.value[0]
  }

  /** A reply carrying one candidate with the given parts. */
  function ReplyWith(parts: seq<ReplyPart>): Reply
  {
    Reply(Some([Candidate(Some(CandidateContent(Some(parts))))]))
  }

  /** What `processAlgaeData` resolves to (its text, which is `undefined` when the first part has none)
      or the error it throws. */
  function HandleResponse(resp: HttpResponse): (r: Result<Option<string>, ApiError>)
    ensures r == Failure(StatusError(resp.status, resp.errorJson)) <==> !Ok(resp)
    ensures r == Failure(UnexpectedFormat) <==> Ok(resp) && !HasFirstPart(resp.reply)
    ensures r.Success? <==> Ok(resp) && HasFirstPart(resp.reply)
    ensures r.Success? ==> r.value == FirstPart(resp.reply).text
  {
    if !Ok(resp) then Failure(StatusError(resp.status, resp.errorJson))
    else if HasFirstPart(resp.reply) then Success(FirstPart(resp.reply).text)
    else Failure(UnexpectedFormat)
  }

  /** The text of a successful reply is what comes back, whatever parts follow the first. */
  lemma HandleResponseReturnsText(status: nat, errorJson: string, text: string, more: seq<ReplyPart>)
    requires 200 <= status <= 299
    ensures HandleResponse(HttpResponse(status, errorJson, ReplyWith([ReplyPart(Some(text))] + more))) == Success(Some(text))
  {
  }

  /** A reply without candidates, or with an empty parts list, is an unexpected format. */
  lemma HandleResponseEmptyReply(status: nat, errorJson: string)
    requires 200 <= status <= 299
    ensures HandleResponse(HttpResponse(status, errorJson, Reply(None))) == Failure(UnexpectedFormat)
    ensures HandleResponse(HttpResponse(status, errorJson, Reply(Some([])))) == Failure(UnexpectedFormat)
    ensures HandleResponse(HttpResponse(status, errorJson, ReplyWith([]))) == Failure(UnexpectedFormat)
  {
  }

  /** `processAlgaeData`: the request it sends and what it resolves to. `dataUrl` is what the file
      reader produces for the image; it is read only when an image was selected. */
  method ProcessAlgaeData(formData: AlgaeFormData, show: real -> string, dataUrl: string, response: HttpResponse)
    returns (request: RequestBody, result: Result<Option<string>, ApiError>)
    ensures |request.contents| == 1 && request.generationConfig == Config
    ensures var parts := request.contents[0].parts;
      && 1 <= |parts| <= 2
      && parts[0] == TextPart(Prompt(formData, show))
      && (|parts| == 2 <==> formData.image.Some? && dataUrl != "")
      && (|parts| == 2 ==> parts[1] == InlineDataPart(InlineData(formData.image.value.mimeType, InlinePayload(dataUrl))))
    ensures result == HandleResponse(response)
  {
    var imageData: Option<string> := None;
    if formData.image.Some? {
      imageData := Some(dataUrl);
    }
    request := BuildRequest(formData, show, imageData);
    result := HandleResponse(response);
  }
}
