# Still: transcription and reflection services, modelled in Dafny

The backend of Still turns a short voice recording into text and the text
into one "reflection" record. This project models the two services that do
that, `TranscriberService` and `ReflectorService`.

- `Reflector` (reflector.dfy) models `ReflectorService`.
  - The constructor reads four environment variables. It puts `https://` in
    front of a bare endpoint. It keeps a client only when key, endpoint and
    deployment name are all set and building the client does not raise.
  - `_call_model` is modelled as pure functions over `string`:
    - the reply is stripped;
    - every "```json" and then every "```" is removed;
    - the text is stripped again;
    - `json.loads` is tried on the whole text;
    - after a `JSONDecodeError`, `json.loads` is tried on the span that
      `re.search(r"\{[\s\S]*\}", …)` finds.
  - Every failure gives `None`.
  - `reflect` returns the decoded value when it is truthy. Otherwise it
    returns the fixed `SILENCE_FALLBACK` record.
- `Transcriber` (transcriber.dfy) models `TranscriberService`.
  - `__init__` builds a speech configuration only when both `SPEECH_KEY` and
    `SPEECH_REGION` are set.
  - `transcribe` is a method. It works on a `FileSystem` object whose
    `files` field is the set of existing paths. It returns:
    - a mock sentence when unconfigured;
    - a sentinel when the file is missing;
    - otherwise the text for the recognizer's outcome.
  - `transcribe` adopts `<audio>.wav` only after a completed re-encode, and
    removes the adopted file in its `finally` block.
- `Text` (text.dfy) holds the Python `str` operations used above:
  - `strip`, with Python's set of whitespace characters;
  - `startswith`, `find`, `in`;
  - `replace(p, "")`;
  - single-character `find`/`rfind`.
- `JsonValues` (json.dfy) holds the values `json.loads` returns and Python
  truthiness on them.
- `Wrappers` (wrappers.dfy) holds `Option`.

The external services are parameters. None of them is modelled:

- the chat completion: `chat: ChatRequest -> ChatOutcome`, giving a raised
  call, no choices, no content, or a content string;
- `json.loads`: `decode: string -> Decoded`, giving a value, a
  `JSONDecodeError`, or another exception;
- the ffmpeg run: a `Conversion` outcome;
- speech recognition: `recognize: string -> Recognition`, the outcome for
  the file the recognizer is handed;
- whether `os.remove` succeeds: a boolean.

Behaviour of the code worth knowing, each stated by a member below:

- Extraction is greedy from the first `{` to the last `}` and does not count
  brace depth, so `{"a": 1} {"b": 2}` is matched whole
  (`EmbeddedObjectIsExtracted`).
- The decoded value's shape is not checked. Any truthy JSON value is returned
  (`ReflectDoesNotCheckShape`), so only `SilenceFallback` is known to have a
  flashcard with three bullets.
- A missing file and a failed recognition return fixed sentences.
- A recognised result's text is returned as is, so `transcribe` can return
  the empty string. That is the only way it can (`Transcribe`'s last but one
  ensures).
- The code has three different fixed sentences:
  - the unconfigured mock;
  - the text for an invalid-header cancellation;
  - the text for an exception that names an invalid header or an error code.
  The model keeps the three apart.
- Cleanup removes only the adopted `.wav`. Suppose ffmpeg wrote the `.wav`
  and then exited non-zero, or a later step raised. Then the `.wav` is not
  the target and stays on disk (`UnadoptedWavRemains`).

## Model

| member | source | states |
|---|---|---|
| Reflector.HeldCard | api/reflector.py:82-85 | the fallback flashcard is a flashcard with title "Held" and the three bullets Spoken, Received, Released |
| Reflector.SilenceFallback | api/reflector.py:76-87 | the fallback record has the fixed reflection text, title "Held", bullets Spoken/Received/Released, confidence 0.1; it has the record shape and is truthy |
| Reflector.NormalizeEndpoint | api/reflector.py:100-102 | the endpoint is unchanged iff it is empty or starts with `http://` or `https://`; otherwise it becomes `"https://" + endpoint`; the result is empty iff the input is, and otherwise carries a scheme |
| Reflector.NormalizeEndpointIdempotent | api/reflector.py:101-102 | normalising twice equals normalising once |
| Reflector.ReflectorService.constructor | api/reflector.py:91-123 | a client exists iff api key, endpoint and deployment name are all set and client construction does not raise; it gets the key, the normalised endpoint and the API version (default "2024-12-01-preview"); model is the deployment name, token limit 800 |
| Reflector.RemoveAllTicksLeavesNone | api/reflector.py:154 | `replace("```", "")` leaves no "```" in its result |
| Reflector.Unfence | api/reflector.py:154 | after removing "```json" and then "```" no "```" remains |
| Reflector.Clean | api/reflector.py:149-154 | the cleaned text contains no "```" and neither starts nor ends with whitespace |
| Reflector.CleanKeepsPlainText | api/reflector.py:149-154 | text without backticks and without surrounding whitespace is left unchanged by cleaning |
| Reflector.FenceIsRemoved | api/reflector.py:149-154 | a body without backticks wrapped as "```json\n" + body + "\n```" cleans to the same text as the bare body |
| Reflector.SearchFrom | api/reflector.py:165 | `re.search` from a position, trying each start left to right: a match starts at or after that position, at a `{`, ends just after a `}` and has at least two characters |
| Reflector.BraceSpan | api/reflector.py:165 | a span exists iff some `}` follows some `{`; it starts at the first `{` of the text and ends just after its last `}` |
| Reflector.Backtrack | api/reflector.py:165 | the greedy `[\s\S]*\}` after a `{` ends at the last `}` before the end tried, and fails iff there is no `}` after the `{` |
| Reflector.RegexSearchIsBraceSpan | api/reflector.py:165 | the regex search (leftmost start, greedy end with backtracking) finds exactly the first-`{`-to-last-`}` span |
| Reflector.MatchGroup | api/reflector.py:165-166 | a match exists iff a `}` follows a `{`; the matched text starts with `{`, ends with `}` and has at least two characters |
| Reflector.EmbeddedObjectIsExtracted | api/reflector.py:165-168 | with no `{` before an object and no `}` after it, the match is exactly that object, whatever braces it contains |
| Reflector.ParseCleaned | api/reflector.py:156-176 | a successful direct decode is returned as it is; another exception from the direct decode gives None; after a `JSONDecodeError` a matched span that decodes is returned, and any other value returned is such a decode |
| Reflector.CallModel | api/reflector.py:125-181 | a raised call, no choices, no message content or empty content give None; non-empty content gives exactly the parse of the cleaned content |
| Reflector.CleanedReplyDecodes | api/reflector.py:145-160 | a non-empty reply whose cleaned text decodes gives that value, without looking for an embedded object |
| Reflector.DirectDecodeDecides | api/reflector.py:157-160 | once the cleaned text decodes, the result does not depend on what the decoder does with any other text |
| Reflector.FencedReplyReadsAsBare | api/reflector.py:149-160 | a non-empty body without backticks is read the same with or without a "```json" fence |
| Reflector.FencedJsonIsDecoded | api/reflector.py:149-160 | a fenced JSON text that decodes to v gives v |
| Reflector.ObjectInProseIsDecoded | api/reflector.py:161-170 | when the whole text fails with `JSONDecodeError` and the object inside the prose decodes, its value is returned |
| Reflector.ReflectAsksOnlyTheRequest | api/reflector.py:130-137 | the completion service is consulted only with the unchanged transcript, the deployment name and the token cap: two services that answer that one request alike give the same reflection |
| Reflector.ReflectorService.Reflect | api/reflector.py:183-193 | the result is always truthy; without a client it is the fallback; a result other than the fallback is the model's decoded value; the decoded value is returned iff it is truthy |
| Reflector.TruthyResultIsReturned | api/reflector.py:187-190 | with a client, a truthy value from `_call_model` is what `reflect` returns |
| Reflector.NoClientNoCall | api/reflector.py:184-185 | without a client the result is the fallback whatever the completion service would answer |
| Reflector.ReflectDoesNotCheckShape | api/reflector.py:187-190 | a truthy decoded value that is not a reflection record (a one-element list) is returned as it is |
| JsonValues.Truthy | api/reflector.py:189 | `if result:` is false exactly for `None`, `False`, `0`, `0.0`, `""`, `[]` and `{}` |
| Text.Strip | api/reflector.py:149 | the result of `strip()` neither starts nor ends with whitespace |
| Text.StripParts | api/reflector.py:149 | what `strip()` cuts off on either side is whitespace, and the input is that whitespace, the result, and that whitespace again |
| Text.StripUnique | api/reflector.py:154 | whitespace + trimmed text + whitespace strips to exactly that text |
| Text.StripIgnoresSurroundingSpace | api/reflector.py:154 | adding whitespace around a text does not change its `strip()` |
| Text.TrimmedIsFixed | api/reflector.py:154 | text that neither starts nor ends with whitespace is left as it is by `strip()` |
| Text.StripIdempotent | api/reflector.py:149-154 | stripping twice equals stripping once |
| Text.Find | api/transcriber.py:106 | `find` returns an index where the pattern occurs with no earlier occurrence, and None iff it occurs nowhere |
| Text.RemoveAll | api/reflector.py:154 | `replace(p, "")` never lengthens the text and leaves text without `p` unchanged |
| Text.RemoveAllLeading | api/reflector.py:154 | an occurrence at the very start is deleted and the rest is processed as if it stood alone |
| Transcriber.TranscriberService.constructor | api/transcriber.py:6-25 | a speech configuration exists iff both key and region are set and its construction does not raise; it has language "en-US" |
| Transcriber.ExceptionText | api/transcriber.py:114-120 | an exception gives the format-fallback sentence iff its message contains "SPXERR_INVALID_HEADER" or "error code", and otherwise "Speech recognition failed: " followed by the message; never empty |
| Transcriber.RecognitionText | api/transcriber.py:94-120 | recognised speech gives its text; every other outcome gives a non-empty text; no match gives "No speech detected in the audio."; any other reason gives "Speech recognition returned unexpected result."; a cancellation gives the header mock sentence iff it is an error whose details contain "SPXERR_INVALID_HEADER", and the generic failure sentence otherwise |
| Transcriber.WavPath | api/transcriber.py:43 | the conversion output path differs from the audio path |
| Transcriber.ConvertedFiles | api/transcriber.py:58-67 | the ffmpeg run adds at most the `.wav` and removes nothing; the `.wav` exists afterwards iff it existed before or ffmpeg wrote it |
| Transcriber.Target | api/transcriber.py:44-72 | the recognition target is the audio path or its `.wav` |
| Transcriber.TargetIsWavOnlyAfterCompletedConversion | api/transcriber.py:69-84 | the target is the `.wav` iff the conversion completed and the `.wav` exists afterwards; every conversion failure keeps the original |
| Transcriber.Cleanup | api/transcriber.py:121-128 | the `finally` block removes at most the target; the target is gone afterwards iff it existed, is not the original and its removal succeeds |
| Transcriber.FinalFiles | api/transcriber.py:43-128 | after conversion and cleanup the `.wav` exists iff it existed or ffmpeg wrote it, unless the conversion completed and its removal succeeded |
| Transcriber.OriginalSurvives | api/transcriber.py:121-128 | the original audio file is never removed |
| Transcriber.AdoptedWavRemoved | api/transcriber.py:121-128 | an adopted `.wav` is gone afterwards on every recognition outcome, when removal succeeds |
| Transcriber.OnlyWavChanges | api/transcriber.py:43-128 | no path other than the `.wav` is created or removed |
| Transcriber.UnadoptedWavRemains | api/transcriber.py:76-84 | a `.wav` written by a conversion that did not complete is not cleaned up |
| Transcriber.TranscriberService.Transcribe | api/transcriber.py:27-128 | unconfigured: the mock sentence, files untouched; missing file: the not-found sentinel, files untouched; otherwise the text for the recognizer's outcome on the target file (the `.wav` only after a completed conversion) and the files after conversion and cleanup; the text is empty only when recognising the target gives an empty result; the original file survives |

## Left out

- The system prompt (`STRICT_PROMPT`) is not modelled. It holds instructions to the remote model that nothing checks locally. `ChatRequest` carries the deployment name, the transcript and the token cap only.
- Logging, `print`, `traceback.print_exc` and `await asyncio.sleep(1)` are left out. They have no effect on results or files.
- `load_dotenv` is not modelled as a step. `Environment` holds what `os.getenv` returns after the reflector's constructor has loaded `api/.env`. The transcriber does not load it; its key and region are what `os.getenv` returns when it is built.
- `json.loads` is a parameter. Its grammar is not modelled. JSON floats are `real`, so `NaN`, which Python treats as truthy, has no counterpart.
- `SILENCE_FALLBACK` is one shared, mutable dict in Python. The model returns a value, so aliasing of that dict between requests is not captured.
- The Azure OpenAI client, the Azure Speech SDK and the ffmpeg subprocess are outcome parameters. Their internal behaviour is not modelled.
- The file system is a set of paths. Directories, permissions and files that change between two checks are not modelled, except through the outcome parameters.
- No timeout is applied to either remote call in the source, and none is modelled.
- `speechKey`/`speechRegion` printing and the partial key shown in the log are left out.
- `api/main.py`, `api/storage.py`, `api/reflector_broken.py`, the connection test scripts, `api/start_server.py` and the `web/` front end are not part of this model. They hold request plumbing, storage, an unparsable older copy of the reflector, scripts and UI.
