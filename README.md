# PDF-to-Word converter: the conversion orchestrator and the app's handlers

This project models, in Dafny, the two pieces of sequential logic of a small
web/mobile app that turns a PDF exam paper into a Word-compatible HTML
document with a remote generative model:

- `convertPdfToHtml` (services/geminiService.ts). It refuses files over
  10 MiB, picks the API key (the user's stored key if non-empty, else the
  deployment key), and reads the file. It then walks three model ids in
  order, with up to three attempts per model. Each failure is classified
  from its status and lower-cased message as not-found, quota, busy or
  network, or none of these; the class decides between giving the model up
  and waiting 12 s or `attempt * 2` s before retrying. The first non-empty
  reply is cleaned (code fences removed, whitespace trimmed) and returned.
  When every model fails, the last model's error is rethrown, or replaced by
  a fixed "servers busy" message when its message mentions "429" or
  "quota". An outer catch maps any error mentioning "429" or "quota" to a
  "retry later" message.
- The page state of App.tsx: the conversion status (`IDLE`, `PROCESSING`,
  `COMPLETE`, `ERROR`), the converted document, the error and save
  notices, and the three handlers that change them: choosing a file,
  resetting, and downloading. A download wraps the document in a fixed
  Word-HTML page; it writes that page as `<name>.doc` to a phone's Documents
  folder, or in a browser hands over a Word-typed blob that starts with a
  U+FEFF byte-order mark.

Files:

- `option.dfy`: `Optional.Option`, for values that may be absent (a missing
  stored key, no document, no last error).
- `strings.dfy`: the JavaScript string operations the code relies on.
  These are `includes`, `replace` with a string pattern (first occurrence),
  a global `replace` with an empty replacement, ASCII `toLowerCase` and
  `trim`, each with its properties.
- `gemini_service.dfy`: the converter. It is written twice. The first is a
  set of functions that define the run: the events (calls and waits) and the
  outcome. The second is the imperative loops of the source (`AttemptModel`,
  `AttemptModels`, `ConvertPdfToHtml`), each proved to produce exactly the
  run those functions define.
- `gemini_properties.dfy`: what the converter promises, proved about those
  functions.
- `app.dfy`: the types of types.ts, the Word page and the download payload
  as functions, and the page state as the class `App.AppState` with one
  method per handler.

The remote model is a parameter, `oracle(apiKey, modelId, attempt)`, that
returns either a text or a thrown value (`Fault`: whether it is an `Error`,
its status, its message). Waits are not performed: each is recorded as a
`Wait(ms)` event in a ghost trace, next to a `Call(model, attempt)` event
for each remote call. The stored key and the deployment key are parameters,
and so is whether reading the file succeeds.

## Model

| member | source | states |
|---|---|---|
| Strings.IndexFrom | App.tsx:45 | a found index is the first occurrence at or after the start; none means no occurrence from there on |
| Strings.ReplaceFirst | App.tsx:45 | without an occurrence the text is unchanged; otherwise exactly the first occurrence is replaced |
| Strings.RemoveAllAbsent | services/geminiService.ts:123-124 | a global replace of a pattern that does not occur changes nothing |
| Strings.RemoveFencesLeavesNone | services/geminiService.ts:124 | after removing every "```", no "```" remains, including ones the removal itself could have joined |
| Strings.FenceFreeIsNoFence | services/geminiService.ts:124 | having no three backticks at any position is the same as not containing "```" |
| Strings.ContainsTransitive | services/geminiService.ts:123-124 | a text containing a text that contains a pattern contains the pattern |
| Strings.ContainsHead | services/geminiService.ts:137 | a text containing a pattern contains the pattern's first character |
| Strings.LowerLeavesNoCapital | services/geminiService.ts:131 | a lower-cased text has no ASCII capital left, and lower-casing it again changes nothing |
| Strings.LowerNoUpper | services/geminiService.ts:131 | a text without ASCII capitals is its own lower case |
| Strings.TrimStartSpec | services/geminiService.ts:125 | the result is a suffix, what was cut is all whitespace, and the result does not start with whitespace |
| Strings.TrimEndSpec | services/geminiService.ts:125 | the result is a prefix, what was cut is all whitespace, and the result does not end with whitespace |
| Strings.TrimSpec | services/geminiService.ts:125 | the trimmed text has no whitespace at either end, occurs in the original, and a trimmed text is left as it is |
| GeminiService.ResolveKey | services/geminiService.ts:33-38 | the key is the stored key when non-empty, else the deployment key; there is no key exactly when neither is non-empty |
| GeminiService.ClassifyPriority | services/geminiService.ts:130-144 | each failure has one class; not-found is tested before quota, and quota before busy-or-network |
| GeminiService.NextAction | services/geminiService.ts:136-162 | retry exactly for quota or busy/network failures before the third attempt; quota waits 12000 ms, busy/network waits attempt × 2000 ms |
| GeminiService.CleanupSpec | services/geminiService.ts:122-125 | the cleaned reply contains no "```" and has no whitespace at either end |
| GeminiService.AttemptModel | services/geminiService.ts:100-163 | the attempt loop of one model makes the calls and waits, and ends with the outcome, that `RunModel` defines |
| GeminiService.AttemptModels | services/geminiService.ts:91-180 | the model loop and the all-failed mapping give the events and outcome that `RunModels` defines |
| GeminiService.ConvertPdfToHtml | services/geminiService.ts:24-189 | the whole converter gives the events and outcome that `Convert` defines |
| GeminiProperties.CountsAppend | services/geminiService.ts:94-100 | calls and waiting time add up over consecutive parts of a run |
| GeminiProperties.OversizeFileRefusedFirst | services/geminiService.ts:26-28 | a file over 10 MiB fails with the size error, before any call and without being remapped |
| GeminiProperties.OwnMessagesAreProse | services/geminiService.ts:37 | the converter's own messages (missing key, read failure, empty response, servers busy, unknown error) are Arabic prose |
| GeminiProperties.ProseNotQuota | services/geminiService.ts:174 | an Arabic-prose message contains neither "429" nor "quota" |
| GeminiProperties.MissingKeyRefusedBeforeCalls | services/geminiService.ts:33-38 | with no usable key the missing-key error comes out unchanged by the outer catch, and no model is called |
| GeminiProperties.UnreadableFileRefusedBeforeCalls | services/geminiService.ts:46-50 | a file that cannot be read gives the read error, unchanged, and no model is called |
| GeminiProperties.NotFoundAbandonsModel | services/geminiService.ts:137-139 | a not-found failure ends the model after that one call, with no wait |
| GeminiProperties.QuotaWaitsAndRetries | services/geminiService.ts:143-151 | a quota failure before the third attempt waits exactly 12000 ms, then tries the same model again |
| GeminiProperties.TransientWaitsAndRetries | services/geminiService.ts:144-157 | a busy, xhr or fetch failure before the third attempt waits attempt × 2000 ms, then tries the same model again |
| GeminiProperties.LastAttemptNeverWaits | services/geminiService.ts:146-162 | the third attempt is one call, never followed by a wait |
| GeminiProperties.UnclassifiedAbandonsModel | services/geminiService.ts:161-162 | a failure matching no test ends the model after that call |
| GeminiProperties.ProseLowerLacks | services/geminiService.ts:131 | lower-casing Arabic prose yields none of the characters the tests start with |
| GeminiProperties.ProseUnclassified | services/geminiService.ts:130-162 | an Arabic-prose `Error` with no status matches no test |
| GeminiProperties.EmptyResponseUnclassified | services/geminiService.ts:117-119 | the empty-response error matches no test |
| GeminiProperties.EmptyResponseAbandonsModel | services/geminiService.ts:116-119 | an empty reply is not retried: the model ends with the empty-response error |
| GeminiProperties.QuotaOnEveryAttempt | services/geminiService.ts:100-162 | a model whose every reply is a quota failure is called three times, waiting 12 s between calls, and fails with its last error |
| GeminiProperties.RunModelBounds | services/geminiService.ts:99-100 | one model makes at least one call and at most three; it waits at most 12 s per retry |
| GeminiProperties.RunModelInOrder | services/geminiService.ts:100 | a model's attempts are numbered 1, 2, 3 in order, one call each, with one wait between consecutive calls |
| GeminiProperties.RunModelStopsAtAccepted | services/geminiService.ts:116-127 | every call of a model but its last was refused; it converts, with that reply's cleaned text, exactly when the last reply was accepted |
| GeminiProperties.RunModelsBounds | services/geminiService.ts:94-100 | at most three calls and 24 s of waiting per model |
| GeminiProperties.ConvertBounds | services/geminiService.ts:24-189 | the whole conversion makes at most nine calls and waits at most 72 s |
| GeminiProperties.RunModelsInOrder | services/geminiService.ts:43 | models are tried strictly in list order, each from its first attempt |
| GeminiProperties.FailedRunTriesEveryModel | services/geminiService.ts:94-171 | a model's failure is caught and the next model is tried: the run fails exactly when every model fails, and a failed run is every model's attempt run in list order, with at least one call per model |
| GeminiProperties.FirstAcceptedReplyWins | services/geminiService.ts:127 | every call but the last was refused; the run converts, with that reply's cleaned text, exactly when the last reply was accepted |
| GeminiProperties.NotFoundMovesOn | services/geminiService.ts:165-168 | a not-found failure on a model's first attempt moves on to the next model with no wait |
| GeminiProperties.OnlyLastModelErrorMatters | services/geminiService.ts:172-178 | when every model fails, the error is the last model's error as mapped by the all-failed rule, never the unknown-error message |
| GeminiProperties.ExhaustedNotQuota | services/geminiService.ts:173-180 | the error after all models failed never mentions "429" or "quota" |
| GeminiProperties.RunModelsFailsExhausted | services/geminiService.ts:172-180 | a failed run of the models fails with the all-failed mapping of some last error |
| GeminiProperties.OuterCatchNeverRemaps | services/geminiService.ts:182-187 | the outer catch changes nothing: its retry-later message is never produced |
| GeminiProperties.QuotaStatusAloneIsRethrown | services/geminiService.ts:129-177 | a failure with status 429 that is not a not-found and whose message says neither "429" nor "quota" is classed as quota, but rethrown as it is after all models fail |
| GeminiProperties.CapitalQuotaIsRethrown | services/geminiService.ts:130-177 | a message "QUOTA" is classed as quota, because the classifier lower-cases it, but is rethrown as it is, because the final mapping does not |
| GeminiProperties.CleanupIdempotent | services/geminiService.ts:122-125 | cleaning a cleaned reply changes nothing |
| GeminiProperties.ConvertedHtmlIsClean | services/geminiService.ts:122-127 | a converted document holds no "```", has no whitespace at either end, and is unchanged by a second clean-up |
| App.WordShellSlots | App.tsx:58-77 | the page has the title in its title slot and the HTML verbatim in the `Section1` division |
| App.SectionAroundBody | App.tsx:74 | the text before the HTML ends with the opening `Section1` tag, and the text after it starts with `</div>` |
| App.WordShellInjective | App.tsx:58-77 | different documents with titles of equal length never give the same page |
| App.ExportCarriesDocument | App.tsx:79-105 | both platforms save under name + ".doc" with the name as title and the HTML verbatim; only the web blob starts with U+FEFF and is typed application/msword |
| App.BaseNameDropsExtension | App.tsx:45 | a name whose stem has no ".pdf" loses exactly its final ".pdf" |
| App.BaseNameKeepsOtherNames | App.tsx:45 | a name without ".pdf" is kept as it is |
| App.BaseNameFirstOnly | App.tsx:45 | only the first ".pdf" is removed ("a.pdf.pdf" gives "a.pdf") |
| App.BaseNameCaseSensitive | App.tsx:45 | an upper-case ".PDF" is not removed |
| App.AppState.constructor | App.tsx:16-21 | the page starts idle, with no document and no notices |
| App.AppState.SetOnline | App.tsx:24-25 | the online events set the online flag and nothing else |
| App.AppState.HandleFileSelect | App.tsx:34-53 | offline, only the offline notice is set; online, `PROCESSING` with no error while converting, then `COMPLETE` with the document named after the file, or `ERROR` with the error's message or the generic one |
| App.AppState.HandleReset | App.tsx:121-126 | back to idle, with no document and both notices empty |
| App.AppState.HandleDownload | App.tsx:55-110 | without a document nothing happens; otherwise the document is handed over as `Export` builds it, and a successful phone write sets the saved notice; in the completed state a document is always handed over |

## Left out

- Reading the file as base64 (`fileToGenerativePart`, with `FileReader`) is not modelled. Only whether it succeeds is modelled, as `PdfFile.readable`.
- The SDK client and its call (`new GoogleGenAI`, `generateContent`) are replaced by the oracle. The same goes for the prompt text, `maxOutputTokens` and `temperature`. A constructor that throws is not modelled.
- `localStorage` and `process.env` become the two key parameters.
- `wait`'s timer becomes a recorded `Wait` event.
- Console logging has no effect on the outcome and is left out.
- Every thrown value is a `Fault`, and a missing `message` or `status` is modelled as the empty text or 0. Two kinds of thrown value are not modelled:
  - `null` or `undefined`: reading its `status` (services/geminiService.ts:129) throws a `TypeError`, which the per-model catch records as the last error and which is rethrown at the end.
  - `0`, `""`, `false` or `NaN` thrown by the last model: the last error is then falsy, and the unknown-error message is thrown instead (services/geminiService.ts:180).
- Strings.Lower: lowers only ASCII letters. Full Unicode lower-casing gives the same result for every pattern the classifier searches for: no other character lowers to one of their characters.
- The platform side of a download is not modelled: the Capacitor file write, `Blob`, `URL.createObjectURL`, the anchor click and the `alert`s. The write's success is a parameter. The 4-second timer that clears the saved notice is not modelled.
- Registering and removing the online/offline listeners is not modelled; only their effect is, as `SetOnline`.
- Handlers run one at a time, and each is modelled as a method that runs to its end. `handleFileSelect` awaits the conversion; while it waits the page shows `PROCESSING` and offers no control that starts another handler. `HandleFileSelect` reports that intermediate state through its ghost result `startedWith`.
- `handleCopy` (clipboard), printing, the toolbar and all rendering are left out. So are the Navbar component and the build configuration. The UI shows the upload control only in `IDLE` and the reset button only in `COMPLETE` and `ERROR`; the handlers in the model can be called in any state.
- Where the code's behaviour could be expected to differ, the model follows the code:
  - every per-model failure is caught (services/geminiService.ts:165-168) and the next model is tried; no failure class aborts the whole model list;
  - the document is not rewritten in any way beyond the clean-up of the reply; there is no graphics step;
  - the limit is 10 MiB;
  - an empty response is not retried;
  - after all models fail, the last model's own error is shown unless its message, as written and not lower-cased, mentions "429" or "quota".

  One consequence: a failure with status 429 whose message says neither is retried as a quota error, but its raw message is shown at the end (`QuotaStatusAloneIsRethrown`). So is a message that says "QUOTA" in capitals (`CapitalQuotaIsRethrown`). The outer catch's retry-later message is never produced (`OuterCatchNeverRemaps`).
