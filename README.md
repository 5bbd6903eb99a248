# PySleuth debugger backend: the `/debug` handler

The backend of PySleuth exposes one working endpoint, `POST /debug`
(`debug_code` in backend/main.py). It takes the user's Python code and a
`translate` flag, and builds a prompt that asks a Gemini model for a JSON
verdict. It then turns the model's raw reply into the response body:

1. A reply with no candidate, or whose first candidate has no part, is an
   error.
2. The reply's text is stripped of surrounding whitespace. If it opens with
   "```json", the first 7 and last 3 characters are sliced off; if it opens
   with "```", 3 at each end. The rest is stripped again.
3. If the cleaned text parses as JSON, the parsed value is returned as it is.
   Otherwise the handler returns its own result: `has_errors` true, a fixed
   explanation, and the cleaned text as `corrected_code`.
4. Any exception on the way becomes HTTP 500, with the exception's message
   as its detail.

The model is in five modules:

- `Wrappers` (wrappers.dfy): `Option`.
- `PyStr` (pystr.dfy): the Python string operations the handler uses, with
  Python's semantics. These are `str.isspace` (the Unicode whitespace set
  Python uses), `strip`, `startswith`, and slicing with negative and
  out-of-range bounds. `Strip` comes with an independent reference
  definition, `IsStripOf`, and a proof that the two agree.
- `Cleaning` (cleaning.dfy): the fence-stripping step, with its case analysis
  and round trips.
- `Prompt` (prompt.dfy): the prompt template, copied exactly, and the
  translation instruction.
- `Debug` (debug.dfy): the request body, the parts of the model's reply that
  are read, the outcome datatype (`Ok`, `Fallback`, `HttpError`) and the
  handler.

Two things the handler calls are parameters of the model:

- The Gemini call is a function from the prompt to a `Generation`: either
  the reply, or the exception the call raised.
- `json.loads` is a function from text to `Option<Json>`. `None` stands for
  `JSONDecodeError`.

## Model

| member | source | states |
|---|---|---|
| PyStr.IsSpace | backend/main.py:94 | Python's `str.isspace` character set, the characters `str.strip()` removes; FenceAndJsonCharsNotSpace states what it excludes |
| PyStr.FenceAndJsonCharsNotSpace | backend/main.py:94-98 | the fence backtick, letters, digits and JSON brackets and quotes are never whitespace, so stripping never cuts into a fence or the JSON inside it |
| PyStr.StartsWith | backend/main.py:95-97 | `str.startswith`; StartsWithCharwise states its meaning |
| PyStr.StartsWithCharwise | backend/main.py:95-97 | `startswith` is true exactly when the prefix is no longer than the text and agrees with it character by character |
| PyStr.PySlice | backend/main.py:96-98 | `s[start:stop]`: the characters between the resolved bounds, and empty when they cross; PySliceDropEnds gives its closed form for `[7:-3]` and `[3:-3]` |
| PyStr.LStrip | backend/main.py:94 | drops a whitespace-only prefix; what is left is a suffix of the input that is empty or starts with a non-whitespace character |
| PyStr.RStrip | backend/main.py:94 | drops a whitespace-only suffix; what is left is a prefix of the input that is empty or ends with a non-whitespace character |
| PyStr.Strip | backend/main.py:94 | `str.strip()`: the result neither starts nor ends with whitespace and is no longer than the input |
| PyStr.StripCharacterization | backend/main.py:94 | a string is the strip of `s` if and only if it is the part of `s` between a whitespace-only prefix and a whitespace-only suffix and has no whitespace at its ends |
| PyStr.StripFixpoint | backend/main.py:94 | stripping leaves a string unchanged exactly when the string has no whitespace at either end |
| PyStr.StripIdempotent | backend/main.py:94 | stripping an already stripped text changes nothing: strip is idempotent |
| PyStr.StripPadded | backend/main.py:94 | whitespace added around a stripped string is exactly what stripping removes |
| PyStr.StripIsInfix | backend/main.py:94 | stripping only removes characters: the result is a contiguous piece of the input |
| PyStr.PyIndex | backend/main.py:96-98 | Python slice-bound resolution: a negative bound counts from the end, and the result is clamped to the string's length |
| PyStr.PySliceIsInfix | backend/main.py:96-98 | a slice is a contiguous piece of the sliced string |
| PyStr.PySliceDropEnds | backend/main.py:96-98 | `s[a:-b]` is `s` without `a` leading and `b` trailing characters, and empty when `s` has `a + b` characters or fewer |
| Cleaning.Clean | backend/main.py:94-98 | the cleaned text has no leading or trailing whitespace, whichever branch is taken |
| Cleaning.JsonFenceOpensFence | backend/main.py:95-97 | every text that opens with "```json" also opens with "```", so the order of the two tests decides the branch |
| Cleaning.CleanUnfenced | backend/main.py:94-98 | a reply whose stripped text does not open with "```" cleans to exactly its stripped text |
| Cleaning.CleanJsonFenced | backend/main.py:95-96 | a stripped reply that opens with "```json" takes the "```json" branch, although it also opens with "```". It cleans to the strip of its 8th to 4th-last characters, or to the empty string when it is 10 characters long or shorter |
| Cleaning.CleanPlainFenced | backend/main.py:97-98 | a stripped reply that opens with "```" but not "```json" cleans to the strip of its 4th to 4th-last characters, or to the empty string when it is 6 characters long or shorter |
| Cleaning.CleanJsonRoundTrip | backend/main.py:94-96 | for all `s` and any surrounding whitespace, cleaning "```json" + s + "```" gives strip(s) |
| Cleaning.CleanFenceRoundTrip | backend/main.py:94-98 | for all `s` not starting with "json" and any surrounding whitespace, cleaning "```" + s + "```" gives strip(s) |
| Cleaning.UnclosedJsonFence | backend/main.py:95-96 | for content that is not empty and does not end in whitespace, a "```json" block with no closing fence still loses its last three characters: it cleans to the strip of the content without its last 3 characters, and to the empty string when the content has 3 characters or fewer |
| Cleaning.CleanIsInfix | backend/main.py:94-98 | cleaning only cuts: the cleaned text is one contiguous piece of the raw reply |
| Prompt.TranslationInstruction | backend/main.py:53-55 | the translation instruction is empty if and only if `translate` is false |
| Prompt.BuildPrompt | backend/main.py:58-72 | the f-string prompt, piece by piece; PromptEmbedsCode, PromptEmbedsInstruction and BuildPromptInjective state what it promises |
| Prompt.PromptEmbedsCode | backend/main.py:58-72 | the user's code appears verbatim in the prompt, right after the line that opens the "```python" fence and right before the closing fence, which ends the prompt |
| Prompt.PromptEmbedsInstruction | backend/main.py:58-66 | the prompt starts with the fixed preamble, and the translation instruction comes right after it |
| Prompt.BuildPromptInjective | backend/main.py:53-72 | two prompts are equal only when their code and their `translate` flag are equal, so the prompt determines the request |
| Debug.NewCodeInput | backend/main.py:38-40 | the code is kept as given; `translate` is true only when it is given as true, so it defaults to false |
| Debug.FirstText | backend/main.py:88-91 | there is a text exactly when the reply has a candidate and its first candidate has a part, and the text is that of the first part |
| Debug.ShapeCleaned | backend/main.py:100-110 | the result is never an HTTP error. It is the parsed value, unchanged, exactly when the cleaned text parses. Otherwise it is `{has_errors: true, the fixed explanation, corrected_code: the cleaned text}` |
| Debug.HandleGeneration | backend/main.py:82-115 | every HTTP error the handler produces has status 500 |
| Debug.DebugCode | backend/main.py:48-115 | the whole handler, prompt to outcome; every HTTP error it produces has status 500 |
| Debug.RaisedIsHttpError | backend/main.py:112-115 | an exception from the model call ends as HTTP 500 whose detail is the exception's message |
| Debug.NoTextIsHttpError | backend/main.py:88-89 | a reply with no candidate, or whose first candidate has no part, ends as HTTP 500 with the fixed "No valid text" message, whatever the parser would say |
| Debug.OkCharacterization | backend/main.py:91-102 | the outcome is `Ok(v)` if and only if the reply has text and the parser returns `v` for its cleaned form |
| Debug.FallbackCharacterization | backend/main.py:103-110 | the synthesized result comes back if and only if the reply has text whose cleaned form does not parse. It has `has_errors` true, the fixed explanation, and the cleaned text, with no surrounding whitespace, as corrected code |
| Debug.HttpErrorCharacterization | backend/main.py:82-115 | the outcome is an HTTP error if and only if the call raised or the reply has no text. The detail is the exception's message in the first case and the fixed message in the second |
| Debug.FencedReplyEndToEnd | backend/main.py:48-115 | when the model answers with a "```json" block, the client gets the parser's value for the block's stripped content, or the synthesized result carrying that content |

## Left out

- The Gemini client is not modelled: its configuration, the model name, the safety settings and the network call itself. A reply is modelled only as candidates and parts, and a failed call only as the message of the exception it raised.
- The internals of `json.loads` are not modelled; the parser is a parameter. Its other exceptions (a `RecursionError` on deeply nested input) are not modelled.
- Reading `.text` from a part is assumed to succeed. An SDK part that raises there would end, like any exception, as HTTP 500.
- FastAPI setup, routing, the CORS origins, `load_dotenv`, the `GOOGLE_API_KEY` check and the `GET /` endpoint are framework and environment plumbing.
- Pydantic's rejection of a malformed request body (HTTP 422) happens before the handler runs. Only the default value of `translate` is modelled.
- The `print` logging is not modelled.
- How FastAPI serializes an outcome is not modelled. That covers both the returned JSON and the `{"detail": ...}` body of an HTTP error.
- Number values in `Json` keep their literal text; Python's conversion to `int` or `float` is not modelled.
- The frontend (frontend/src/App.jsx, frontend/src/main.jsx) is not modelled: it is rendering over React, an editor widget and Prism. Its `handleDebug` makes no request, so there is no request or speech state to model. The build and lint configuration files are not modelled either.
