/**
 * The conversion orchestrator of services/geminiService.ts (`convertPdfToHtml`):
 * the size check, the API-key choice, the walk over three model ids with up
 * to three attempts each, the classification of every failure into an
 * action, the waits between attempts, the clean-up of a successful reply and
 * the mapping of the final error.
 *
 * The remote model is an oracle giving, for an API key, a model id and an
 * attempt number, either a response text or a thrown value. Waiting is not
 * real time: each wait is recorded, with each call, in a trace of events.
 */
module GeminiService {
  import opened Optional
  import opened Strings

  /** The part of a browser `File` the converter uses; `readable` is false when reading it as a data URL fails. */
  datatype PdfFile = PdfFile(name: string, size: nat, readable: bool)

  /**
   * A thrown value: whether it is an `Error` instance, its `status`
   * (0 when absent) and its `message` ("" when absent).
   */
  datatype Fault = Fault(isError: bool, status: int, message: string)

  /** What one remote call yields: the response text ("" when empty or missing) or a thrown value. */
  datatype Reply = Text(text: string) | Thrown(fault: Fault)

  /** The remote model: the reply to the call made with an API key, a model id and an attempt number. */
  type Oracle = (string, string, nat) -> Reply

  /** A remote call, or a pause of `ms` milliseconds. */
  datatype Event = Call(model: string, attempt: nat) | Wait(ms: nat)

  /** The converter either returns the cleaned HTML or throws. */
  datatype Outcome = Converted(html: string) | Failed(fault: Fault)

  /** An outcome with the calls and waits that led to it. */
  datatype Run = Run(outcome: Outcome, events: seq<Event>)

  /** Files above 10 MiB are refused. */
  const MaxFileSize: nat := 10 * 1024 * 1024
  /** The model ids, in the order they are tried. */
  const Models: seq<string> := ["gemini-2.0-flash-exp", "gemini-3-pro-preview", "gemini-3-flash-preview"]
  /** Attempts per model. */
  const MaxRetries: nat := 3
  /** The pause after a quota error. */
  const QuotaWaitMs: nat := 12000
  /** The pause after a busy or network error is this many milliseconds times the attempt number. */
  const BackoffStepMs: nat := 2000

  // The user-facing messages. The longer ones are written as short pieces
  // so that the verifier can look at their characters one piece at a time.
  const FileTooLargeMessage: string := "عذراً، حجم الملف كبير جداً. يرجى استخدام ملف أقل من 10 ميجابايت لضمان سرعة واستقرار المعالجة."
  const MissingKeyMessage: string := MissingKeyPart1 + MissingKeyPart2
  const MissingKeyPart1: string := "لم يتم العثور على مفتاح API. "
  const MissingKeyPart2: string := "يرجى إضافة مفتاحك في الإعدادات."
  const ReadFailedMessage: string := "فشل في قراءة الملف من الجهاز."
  const EmptyResponseMessage: string := EmptyResponsePart1 + EmptyResponsePart2
  const EmptyResponsePart1: string := "لم يتم استرجاع أي "
  const EmptyResponsePart2: string := "بيانات من الخادم."
  const ServersBusyMessage: string := ServersBusyPart1 + ServersBusyPart2 + ServersBusyPart3 + ServersBusyPart4
  const ServersBusyPart1: string := "السيرفر مشغول جداً حالياً "
  const ServersBusyPart2: string := "بسبب ضغط الملفات الكبيرة. يرجى "
  const ServersBusyPart3: string := "المحاولة بعد دقيقة أو استخدام "
  const ServersBusyPart4: string := "مفتاح API خاص في الإعدادات."
  const UnknownErrorMessage: string := "حدث خطأ غير معروف أثناء المعالجة."
  const RetryLaterMessage: string := "عفواً، الخوادم مشغولة جداً الآن (429). جرب استخدام مفتاحك الخاص من الإعدادات."

  /** `new Error(message)`: an `Error` without a status. */
  function NewError(message: string): Fault {
    Fault(true, 0, message)
  }

  /**
   * `userKey || process.env.API_KEY`, where an absent or empty key does not
   * count: the stored user key wins when it is non-empty, else the
   * deployment key; None when neither is usable.
   */
  function ResolveKey(userKey: Option<string>, envKey: Option<string>): (key: Option<string>)
    ensures key.Some? ==> key.value != "" && (key == userKey || key == envKey)
    ensures userKey.Some? && userKey.value != "" ==> key == userKey
    ensures key.None? <==> (userKey.None? || userKey.value == "") && (envKey.None? || envKey.value == "")
  {
    if userKey.Some? && userKey.value != "" then userKey
    else if envKey.Some? && envKey.value != "" then envKey
    else None
  }

  // The four tests of the inner catch, on the status and the lower-cased message.

  predicate IsNotFound(f: Fault) {
    f.status == 404 || Contains(Lower(f.message), "not found")
  }

  predicate IsQuota(f: Fault) {
    var m := Lower(f.message);
    f.status == 429 || Contains(m, "429") || Contains(m, "quota")
  }

  predicate IsServerBusy(f: Fault) {
    var m := Lower(f.message);
    f.status == 503 || Contains(m, "503") || Contains(m, "overloaded")
  }

  predicate IsNetworkGlitch(f: Fault) {
    var m := Lower(f.message);
    Contains(m, "xhr") || Contains(m, "fetch")
  }

  datatype ErrorClass = NotFound | QuotaExceeded | Transient | Unclassified

  /**
   * The class of a failure: not-found is tested first, then quota, then
   * busy-or-network.
   */
  function Classify(f: Fault): ErrorClass {
    if IsNotFound(f) then NotFound
    else if IsQuota(f) then QuotaExceeded
    else if IsServerBusy(f) || IsNetworkGlitch(f) then Transient
    else Unclassified
  }

  /**
   * Each failure has exactly one class, and a failure that matches several
   * tests takes the first in the order not-found, quota, busy-or-network.
   */
  lemma ClassifyPriority(f: Fault)
    ensures Classify(f) == NotFound <==> IsNotFound(f)
    ensures Classify(f) == QuotaExceeded <==> !IsNotFound(f) && IsQuota(f)
    ensures Classify(f) == Transient <==> !IsNotFound(f) && !IsQuota(f) && (IsServerBusy(f) || IsNetworkGlitch(f))
    ensures Classify(f) == Unclassified <==> !IsNotFound(f) && !IsQuota(f) && !IsServerBusy(f) && !IsNetworkGlitch(f)
  {
  }

  /** What follows a failed attempt: give the model up, or wait and try it again. */
  datatype Action = Abandon | RetryAfter(ms: nat)

  /**
   * The action for a failure of class `c` on attempt `attempt`: only quota
   * and transient failures are retried, and only before the last attempt;
   * quota waits a fixed 12 s, transient failures wait two seconds per
   * attempt made.
   */
  function NextAction(c: ErrorClass, attempt: nat): (a: Action)
    ensures a.RetryAfter? <==> attempt < MaxRetries && (c == QuotaExceeded || c == Transient)
    ensures a.RetryAfter? && c == QuotaExceeded ==> a.ms == QuotaWaitMs
    ensures a.RetryAfter? && c == Transient ==> a.ms == attempt * BackoffStepMs
  {
    if c == NotFound then Abandon
    else if attempt < MaxRetries && c == QuotaExceeded then RetryAfter(QuotaWaitMs)
    else if attempt < MaxRetries && c == Transient then RetryAfter(attempt * BackoffStepMs)
    else Abandon
  }

  /** A reply the converter accepts: a non-empty text. */
  predicate Succeeds(r: Reply) {
    r.Text? && r.text != ""
  }

  /** What the inner catch receives for a reply that is not accepted: an empty text raises the empty-response error. */
  function FaultOf(r: Reply): Fault {
    if r.Text? then NewError(EmptyResponseMessage) else r.fault
  }

  /** `text.replace(/```html/g, '').replace(/```/g, '').trim()`. */
  function Cleanup(text: string): string {
    Trim(RemoveAll(RemoveAll(text, "```html"), Fence))
  }

  /** The cleaned text holds no code fence and no whitespace at either end. */
  lemma CleanupSpec(text: string)
    ensures !Contains(Cleanup(text), Fence)
    ensures Trimmed(Cleanup(text))
  {
    var unfenced := RemoveAll(RemoveAll(text, "```html"), Fence);
    RemoveFencesLeavesNone(RemoveAll(text, "```html"));
    FenceFreeIsNoFence(unfenced);
    TrimSpec(unfenced);
    if Contains(Cleanup(text), Fence) {
      ContainsTransitive(unfenced, Cleanup(text), Fence);
    }
  }

  /**
   * Driving one model from attempt `attempt` on: the call; on an accepted
   * reply the cleaned text; otherwise the failure's action decides between
   * giving the model up with that failure and a wait followed by the next
   * attempt.
   */
  function RunModel(oracle: Oracle, key: string, model: string, attempt: nat): (r: Run)
    requires 1 <= attempt <= MaxRetries
    decreases MaxRetries - attempt
  {
    var reply := oracle(key, model, attempt);
    if Succeeds(reply) then
      Run(Converted(Cleanup(reply.text)), [Call(model, attempt)])
    else
      match NextAction(Classify(FaultOf(reply)), attempt)
      case Abandon =>
        Run(Failed(FaultOf(reply)), [Call(model, attempt)])
      case RetryAfter(ms) =>
        var rest := RunModel(oracle, key, model, attempt + 1);
        Run(rest.outcome, [Call(model, attempt), Wait(ms)] + rest.events)
  }

  /**
   * The error thrown once every model has failed: the fixed busy message
   * when the last model's error message (as written, not lower-cased)
   * mentions "429" or "quota", that error itself otherwise, and the
   * unknown-error message when no model recorded an error.
   */
  function Exhausted(lastError: Option<Fault>): Fault {
    match lastError
    case None => NewError(UnknownErrorMessage)
    case Some(e) =>
      if Contains(e.message, "429") || Contains(e.message, "quota") then NewError(ServersBusyMessage) else e
  }

  /**
   * Driving `models[i..]` in order, `lastError` being the error of the model
   * tried last: the first model that converts ends the run; each failed
   * model's error becomes the last error.
   */
  function RunModels(oracle: Oracle, key: string, models: seq<string>, i: nat, lastError: Option<Fault>): (r: Run)
    requires i <= |models|
    decreases |models| - i
  {
    if i == |models| then
      Run(Failed(Exhausted(lastError)), [])
    else
      var m := RunModel(oracle, key, models[i], 1);
      if m.outcome.Converted? then m
      else
        var rest := RunModels(oracle, key, models, i + 1, Some(m.outcome.fault));
        Run(rest.outcome, m.events + rest.events)
  }

  /** The outer catch: a message mentioning "429" or "quota" becomes the retry-later message. */
  function OuterCatch(f: Fault): Fault {
    if Contains(f.message, "429") || Contains(f.message, "quota") then NewError(RetryLaterMessage) else f
  }

  /** The body of the outer `try`: key check, file read, then the models. */
  function InTry(file: PdfFile, userKey: Option<string>, envKey: Option<string>, oracle: Oracle): Run {
    match ResolveKey(userKey, envKey)
    case None => Run(Failed(NewError(MissingKeyMessage)), [])
    case Some(key) =>
      if !file.readable then Run(Failed(NewError(ReadFailedMessage)), [])
      else RunModels(oracle, key, Models, 0, None)
  }

  /** `convertPdfToHtml` as a function of its inputs: the size check outside the `try`, then the `try` and its catch. */
  function Convert(file: PdfFile, userKey: Option<string>, envKey: Option<string>, oracle: Oracle): Run {
    if file.size > MaxFileSize then
      Run(Failed(NewError(FileTooLargeMessage)), [])
    else
      var inner := InTry(file, userKey, envKey, oracle);
      match inner.outcome
      case Converted(_) => inner
      case Failed(f) => Run(Failed(OuterCatch(f)), inner.events)
  }

  /** One step of RunModel, spelled out for the loop below. */
  lemma RunModelUnfold(oracle: Oracle, key: string, model: string, attempt: nat)
    requires 1 <= attempt <= MaxRetries
    ensures var reply := oracle(key, model, attempt);
      var r := RunModel(oracle, key, model, attempt);
      !Succeeds(reply) ==>
        match NextAction(Classify(FaultOf(reply)), attempt)
        case Abandon => r == Run(Failed(FaultOf(reply)), [Call(model, attempt)])
        case RetryAfter(ms) =>
          r.outcome == RunModel(oracle, key, model, attempt + 1).outcome
          && r.events == [Call(model, attempt), Wait(ms)] + RunModel(oracle, key, model, attempt + 1).events
  {
  }

  /**
   * The inner loop of `convertPdfToHtml` for one model: up to three
   * attempts, each failure classified; a return of the cleaned text on the
   * first accepted reply, or the failure that ends the model. `events`
   * records the calls and the waits in the order they happen.
   */
  method AttemptModel(oracle: Oracle, key: string, modelId: string)
    returns (outcome: Outcome, ghost events: seq<Event>)
    ensures outcome == RunModel(oracle, key, modelId, 1).outcome
    ensures events == RunModel(oracle, key, modelId, 1).events
  {
    events := [];
    ghost var model := RunModel(oracle, key, modelId, 1);
    var modelError: Option<Fault> := None;
    var attempt := 1;
    while attempt <= MaxRetries && modelError.None?
      invariant 1 <= attempt
      invariant modelError.None? ==> (attempt <= MaxRetries
        && model.outcome == RunModel(oracle, key, modelId, attempt).outcome
        && model.events == events + RunModel(oracle, key, modelId, attempt).events)
      invariant modelError.Some? ==> model == Run(Failed(modelError.value), events)
      decreases MaxRetries - attempt, if modelError.None? then 1 else 0
    {
      ghost var before := events;
      events := events + [Call(modelId, attempt)];
      var reply := oracle(key, modelId, attempt);
      if reply.Text? && reply.text != "" {
        return Converted(Cleanup(reply.text)), events;
      }
      var innerError := if reply.Text? then NewError(EmptyResponseMessage) else reply.fault;
      var errorClass := Classify(innerError);
      RunModelUnfold(oracle, key, modelId, attempt);
      if errorClass == NotFound {
        modelError := Some(innerError);
      } else if attempt < MaxRetries && errorClass == QuotaExceeded {
        events := events + [Wait(QuotaWaitMs)];
        AppendTwo(before, Call(modelId, attempt), Wait(QuotaWaitMs), RunModel(oracle, key, modelId, attempt + 1).events);
        attempt := attempt + 1;
      } else if attempt < MaxRetries && errorClass == Transient {
        events := events + [Wait(attempt * BackoffStepMs)];
        AppendTwo(before, Call(modelId, attempt), Wait(attempt * BackoffStepMs), RunModel(oracle, key, modelId, attempt + 1).events);
        attempt := attempt + 1;
      } else {
        modelError := Some(innerError);
      }
    }
    outcome := Failed(modelError.value);
  }

  // Regrouping a trace: the loops extend `events` at the front of what is
  // still to come.

  lemma AppendAssoc<T>(a: seq<T>, b: seq<T>, c: seq<T>)
    ensures a + b + c == a + (b + c)
  {
  }

  lemma AppendTwo<T>(a: seq<T>, x: T, y: T, c: seq<T>)
    ensures a + [x] + [y] + c == a + ([x, y] + c)
  {
    assert [x] + [y] == [x, y];
  }

  /**
   * The outer loop of `convertPdfToHtml`: the models in order, each
   * model's failure kept as the last error, then the mapping of the last
   * error once all have failed.
   */
  method AttemptModels(oracle: Oracle, key: string)
    returns (outcome: Outcome, ghost events: seq<Event>)
    ensures outcome == RunModels(oracle, key, Models, 0, None).outcome
    ensures events == RunModels(oracle, key, Models, 0, None).events
  {
    events := [];
    ghost var whole := RunModels(oracle, key, Models, 0, None);
    var lastError: Option<Fault> := None;
    var i := 0;
    while i < |Models|
      invariant 0 <= i <= |Models|
      invariant whole.outcome == RunModels(oracle, key, Models, i, lastError).outcome
      invariant whole.events == events + RunModels(oracle, key, Models, i, lastError).events
    {
      var modelOutcome;
      ghost var modelEvents;
      modelOutcome, modelEvents := AttemptModel(oracle, key, Models[i]);
      ghost var before := events;
      events := events + modelEvents;
      if modelOutcome.Converted? {
        return modelOutcome, events;
      }
      ghost var rest := RunModels(oracle, key, Models, i + 1, Some(modelOutcome.fault));
      AppendAssoc(before, modelEvents, rest.events);
      lastError := Some(modelOutcome.fault);
      i := i + 1;
    }
    if lastError.Some? {
      var e := lastError.value;
      if Contains(e.message, "429") || Contains(e.message, "quota") {
        outcome := Failed(NewError(ServersBusyMessage));
      } else {
        outcome := Failed(e);
      }
    } else {
      outcome := Failed(NewError(UnknownErrorMessage));
    }
  }

  /**
   * `convertPdfToHtml`: the size check, then, inside the outer `try`, the
   * key, the file read and the models, and the outer catch on whatever the
   * `try` throws.
   */
  method ConvertPdfToHtml(file: PdfFile, userKey: Option<string>, envKey: Option<string>, oracle: Oracle)
    returns (outcome: Outcome, ghost events: seq<Event>)
    ensures outcome == Convert(file, userKey, envKey, oracle).outcome
    ensures events == Convert(file, userKey, envKey, oracle).events
  {
    events := [];
    if file.size > MaxFileSize {
      outcome := Failed(NewError(FileTooLargeMessage));
      return;
    }
    var thrown: Fault;
    var apiKey := ResolveKey(userKey, envKey);
    if apiKey.None? {
      thrown := NewError(MissingKeyMessage);
    } else if !file.readable {
      thrown := NewError(ReadFailedMessage);
    } else {
      outcome, events := AttemptModels(oracle, apiKey.value);
      if outcome.Converted? {
        return;
      }
      thrown := outcome.fault;
    }
    // The outer catch.
    if Contains(thrown.message, "429") || Contains(thrown.message, "quota") {
      outcome := Failed(NewError(RetryLaterMessage));
    } else {
      outcome := Failed(thrown);
    }
  }
}
