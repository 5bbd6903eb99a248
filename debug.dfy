/** The `/debug` endpoint of the backend (backend/main.py, `debug_code`):
    build the prompt, ask the model, reject a reply without text, clean the
    text, and return either the parsed JSON or a synthesized result; any
    exception on the way becomes an HTTP 500 carrying the exception message.

    The model call and `json.loads` are outside the model: both are
    parameters, the first a function from the prompt to what the call
    produced, the second a parser that yields `None` where `json.loads`
    raises `JSONDecodeError`. */
module Debug {
  import opened Wrappers
  import opened PyStr
  import opened Cleaning
  import opened Prompt

  /** The request body. `translate` may be left out; it then reads false. */
  datatype CodeInput = CodeInput(code: string, translate: bool)

  /** Validation of a request body in which `translate` may be absent. */
  function NewCodeInput(code: string, translate: Option<bool>): (r: CodeInput)
    ensures r.code == code
    ensures r.translate <==> translate == Some(true)
  {
    CodeInput(code, translate.GetOr(false))
  }

  /** The parts of the model's reply this handler looks at:
      `response.candidates[i].content.parts[j].text`. */
  datatype Part = Part(text: string)
  datatype Candidate = Candidate(parts: seq<Part>)
  datatype GenerateResponse = GenerateResponse(candidates: seq<Candidate>)

  /** What creating the model and calling it produced: a reply, or an
      exception with its message. */
  datatype Generation = Returned(response: GenerateResponse) | Raised(message: string)

  /** A JSON document as `json.loads` returns it. Numbers keep their literal. */
  datatype Json =
    | Null
    | Bool(b: bool)
    | Number(literal: string)
    | Str(s: string)
    | Array(items: seq<Json>)
    | Object(members: seq<(string, Json)>)

  /** The body the handler builds itself when the reply is not JSON. */
  datatype AnalysisResult = AnalysisResult(hasErrors: bool, explanation: string, correctedCode: string)

  /** How a request ends: the parsed reply, the synthesized result, or an
      HTTP error with its status and detail. */
  datatype Outcome =
    | Ok(value: Json)
    | Fallback(result: AnalysisResult)
    | HttpError(status: int, detail: string)

  const InternalServerError := 500
  const NoTextMessage: string := "No valid text response from Gemini."
  // the single literal of the source, split only so that the verifier can index into it
  const FallbackExplanation: string :=
    "AI returned a response that " + "could not be parsed as JSON, even after cleaning."

  /** The text of the first part of the first candidate, when the reply has
      a candidate and that candidate has a part. */
  function FirstText(response: GenerateResponse): (r: Option<string>)
    ensures r.Some? <==> |response.candidates| > 0 && |response.candidates[0].parts| > 0
    ensures r.Some? ==> r.value == response.candidates[0].parts[0].text
  {
    if |response.candidates| > 0 && |response.candidates[0].parts| > 0
    then Some(response.candidates[0].parts[0].text)
    else None
  }

  /** The inner `try`: the parsed value when the cleaned text is JSON, the
      synthesized result otherwise. */
  function ShapeCleaned(cleaned: string, parse: string -> Option<Json>): (r: Outcome)
    ensures !r.HttpError?
    ensures r.Ok? <==> parse(cleaned).Some?
    ensures r.Ok? ==> r.value == parse(cleaned).value
    ensures r.Fallback? ==> r.result == AnalysisResult(true, FallbackExplanation, cleaned)
  {
    match parse(cleaned)
    case Some(v) => Ok(v)
    case None => Fallback(AnalysisResult(true, FallbackExplanation, cleaned))
  }

  /** Everything after the prompt is built: validate the reply, clean its text
      and shape the outcome; an exception becomes an HTTP 500. */
  function HandleGeneration(g: Generation, parse: string -> Option<Json>): (r: Outcome)
    ensures r.HttpError? ==> r.status == InternalServerError
  {
    match g
    case Raised(message) => HttpError(InternalServerError, message)
    case Returned(response) =>
      match FirstText(response)
      case None => HttpError(InternalServerError, NoTextMessage)
      case Some(text) => ShapeCleaned(Clean(text), parse)
  }

  /** The whole handler. */
  function DebugCode(data: CodeInput, generate: string -> Generation, parse: string -> Option<Json>): (r: Outcome)
    ensures r.HttpError? ==> r.status == InternalServerError
  {
    HandleGeneration(generate(BuildPrompt(data.code, data.translate)), parse)
  }

  /** An exception from the model call ends the request with an HTTP 500
      whose detail is the exception's message. */
  lemma RaisedIsHttpError(message: string, parse: string -> Option<Json>)
    ensures HandleGeneration(Raised(message), parse) == HttpError(InternalServerError, message)
  {
  }

  /** A reply without a candidate, or whose first candidate has no part, ends
      as an HTTP 500 with the fixed message, and the parser is never consulted. */
  lemma NoTextIsHttpError(response: GenerateResponse, p1: string -> Option<Json>, p2: string -> Option<Json>)
    requires |response.candidates| == 0 || |response.candidates[0].parts| == 0
    ensures HandleGeneration(Returned(response), p1) == HttpError(InternalServerError, NoTextMessage)
    ensures HandleGeneration(Returned(response), p1) == HandleGeneration(Returned(response), p2)
  {
  }

  /** The outcome is the parsed value exactly when the reply has text and its
      cleaned form parses, and the value is returned unchanged. */
  lemma OkCharacterization(g: Generation, parse: string -> Option<Json>, v: Json)
    ensures HandleGeneration(g, parse) == Ok(v) <==>
      g.Returned? && FirstText(g.response).Some? && parse(Clean(FirstText(g.response).value)) == Some(v)
  {
  }

  /** The outcome is the synthesized result exactly when the reply has text
      whose cleaned form does not parse; that result reports errors, carries
      the fixed explanation and has the cleaned text, without surrounding
      whitespace, as corrected code. */
  lemma FallbackCharacterization(g: Generation, parse: string -> Option<Json>)
    ensures HandleGeneration(g, parse).Fallback? <==>
      g.Returned? && FirstText(g.response).Some? && parse(Clean(FirstText(g.response).value)).None?
    ensures HandleGeneration(g, parse).Fallback? ==>
      var res := HandleGeneration(g, parse).result;
      && res.hasErrors
      && res.explanation == FallbackExplanation
      && res.correctedCode == Clean(FirstText(g.response).value)
      && IsStripped(res.correctedCode)
  {
  }

  /** An HTTP error comes from an exception or from a reply without text,
      never from a reply whose text fails to parse. */
  lemma HttpErrorCharacterization(g: Generation, parse: string -> Option<Json>)
    ensures HandleGeneration(g, parse).HttpError? <==> g.Raised? || FirstText(g.response).None?
    ensures g.Raised? ==> HandleGeneration(g, parse).detail == g.message
    ensures g.Returned? && FirstText(g.response).None? ==> HandleGeneration(g, parse).detail == NoTextMessage
  {
  }

  /** End to end: when the model answers with one candidate whose first part
      is a "```json" block, the client receives what the parser makes of the
      block's stripped content, or the synthesized result carrying that
      content. */
  lemma FencedReplyEndToEnd(data: CodeInput, generate: string -> Generation, parse: string -> Option<Json>,
                            s: string, rest: seq<Part>, others: seq<Candidate>)
    requires generate(BuildPrompt(data.code, data.translate))
      == Returned(GenerateResponse([Candidate([Part(JsonFence + s + Fence)] + rest)] + others))
    ensures DebugCode(data, generate, parse) ==
      if parse(Strip(s)).Some?
      then Ok(parse(Strip(s)).value)
      else Fallback(AnalysisResult(true, FallbackExplanation, Strip(s)))
  {
    var text := JsonFence + s + Fence;
    var response := GenerateResponse([Candidate([Part(text)] + rest)] + others);
    assert FirstText(response) == Some(text);
    assert Clean(text) == Strip(s) by {
      CleanJsonRoundTrip("", s, "");
      var e: string := [];
      assert e + JsonFence == JsonFence;
      assert text + e == text;
    }
    assert DebugCode(data, generate, parse) == ShapeCleaned(Strip(s), parse);
  }
}
