/**
 * What `convertPdfToHtml` promises, proved about the functions of
 * GeminiService that the method is verified against: the checks before any
 * call, the order and number of calls, the waits, the classification of
 * failures, the clean-up of the returned text and the final error.
 */
module GeminiProperties {
  import opened Optional
  import opened Strings
  import opened GeminiService

  /** The number of remote calls in a trace. */
  function CallCount(events: seq<Event>): nat {
    if events == [] then 0 else (if events[0].Call? then 1 else 0) + CallCount(events[1..])
  }

  /** The total time spent waiting in a trace, in milliseconds. */
  function TotalWait(events: seq<Event>): nat {
    if events == [] then 0 else (if events[0].Wait? then events[0].ms else 0) + TotalWait(events[1..])
  }

  lemma {:induction false} CountsAppend(a: seq<Event>, b: seq<Event>)
    ensures CallCount(a + b) == CallCount(a) + CallCount(b)
    ensures TotalWait(a + b) == TotalWait(a) + TotalWait(b)
  {
    if a != [] {
      assert (a + b)[0] == a[0];
      assert (a + b)[1..] == a[1..] + b;
      CountsAppend(a[1..], b);
    } else {
      assert a + b == b;
    }
  }

  // ---------------------------------------------------------------------
  // Before any call

  /** A file over 10 MiB is refused with the size error, before the key, the file or any model is touched. */
  lemma OversizeFileRefusedFirst(file: PdfFile, userKey: Option<string>, envKey: Option<string>, oracle: Oracle)
    requires file.size > MaxFileSize
    ensures Convert(file, userKey, envKey, oracle) == Run(Failed(NewError(FileTooLargeMessage)), [])
  {
  }

  /**
   * Every character is Arabic (U+0600 and above), a space, a full stop or
   * one of the capitals of "API": the shape of the converter's own messages.
   */
  predicate ArabicProse(s: string) {
    forall i :: 0 <= i < |s| ==> s[i] >= '\U{0600}' || s[i] in " .API"
  }

  lemma ProseAppend(a: string, b: string)
    requires ArabicProse(a) && ArabicProse(b)
    ensures ArabicProse(a + b)
  {
    forall i | 0 <= i < |a + b|
      ensures (a + b)[i] >= '\U{0600}' || (a + b)[i] in " .API"
    {
      if i >= |a| {
        assert (a + b)[i] == b[i - |a|];
      }
    }
  }

  lemma MissingKeyPart1IsProse() ensures ArabicProse(MissingKeyPart1) {}
  lemma MissingKeyPart2IsProse() ensures ArabicProse(MissingKeyPart2) {}
  lemma EmptyResponsePart1IsProse() ensures ArabicProse(EmptyResponsePart1) {}
  lemma EmptyResponsePart2IsProse() ensures ArabicProse(EmptyResponsePart2) {}
  lemma ServersBusyPart1IsProse() ensures ArabicProse(ServersBusyPart1) {}
  lemma ServersBusyPart2IsProse() ensures ArabicProse(ServersBusyPart2) {}
  lemma ServersBusyPart3IsProse() ensures ArabicProse(ServersBusyPart3) {}
  lemma ServersBusyPart4IsProse() ensures ArabicProse(ServersBusyPart4) {}
  lemma ReadFailedIsProse() ensures ArabicProse(ReadFailedMessage) {}
  lemma UnknownErrorIsProse() ensures ArabicProse(UnknownErrorMessage) {}

  /** The messages the converter raises itself are all Arabic prose. */
  lemma OwnMessagesAreProse()
    ensures ArabicProse(MissingKeyMessage) && ArabicProse(ReadFailedMessage)
    ensures ArabicProse(EmptyResponseMessage) && ArabicProse(ServersBusyMessage)
    ensures ArabicProse(UnknownErrorMessage)
  {
    MissingKeyPart1IsProse();
    MissingKeyPart2IsProse();
    ProseAppend(MissingKeyPart1, MissingKeyPart2);
    EmptyResponsePart1IsProse();
    EmptyResponsePart2IsProse();
    ProseAppend(EmptyResponsePart1, EmptyResponsePart2);
    ServersBusyPart1IsProse();
    ServersBusyPart2IsProse();
    ServersBusyPart3IsProse();
    ServersBusyPart4IsProse();
    ProseAppend(ServersBusyPart1, ServersBusyPart2);
    ProseAppend(ServersBusyPart1 + ServersBusyPart2, ServersBusyPart3);
    ProseAppend(ServersBusyPart1 + ServersBusyPart2 + ServersBusyPart3, ServersBusyPart4);
    ReadFailedIsProse();
    UnknownErrorIsProse();
  }

  /** A character that is neither Arabic nor in " .API" does not occur in Arabic prose. */
  lemma ProseLacks(s: string, c: char)
    requires ArabicProse(s) && c < '\U{0600}' && c !in " .API"
    ensures c !in s
  {
    forall i | 0 <= i < |s|
      ensures s[i] != c
    {
      assert s[i] >= '\U{0600}' || s[i] in " .API";
    }
  }

  /** "429" and "quota" never occur in Arabic prose. */
  lemma ProseNotQuota(s: string)
    requires ArabicProse(s)
    ensures !Contains(s, "429") && !Contains(s, "quota")
  {
    ProseLacks(s, '4');
    ProseLacks(s, 'q');
    if Contains(s, "429") { ContainsHead(s, "429"); }
    if Contains(s, "quota") { ContainsHead(s, "quota"); }
  }

  /**
   * Without a usable key (no non-empty stored key and no non-empty
   * deployment key) the missing-key error comes out unchanged and no model
   * is called.
   */
  lemma MissingKeyRefusedBeforeCalls(file: PdfFile, userKey: Option<string>, envKey: Option<string>, oracle: Oracle)
    requires file.size <= MaxFileSize
    requires userKey.None? || userKey.value == ""
    requires envKey.None? || envKey.value == ""
    ensures Convert(file, userKey, envKey, oracle) == Run(Failed(NewError(MissingKeyMessage)), [])
  {
    OwnMessagesAreProse();
    ProseNotQuota(MissingKeyMessage);
  }

  /** A file that cannot be read gives the read error, unchanged, and no model is called. */
  lemma UnreadableFileRefusedBeforeCalls(file: PdfFile, userKey: Option<string>, envKey: Option<string>, oracle: Oracle)
    requires file.size <= MaxFileSize && !file.readable
    requires ResolveKey(userKey, envKey).Some?
    ensures Convert(file, userKey, envKey, oracle) == Run(Failed(NewError(ReadFailedMessage)), [])
  {
    OwnMessagesAreProse();
    ProseNotQuota(ReadFailedMessage);
  }

  // ---------------------------------------------------------------------
  // One model's attempts

  /** A reply that is not accepted and whose failure is not-found ends the model at once, without a wait. */
  lemma NotFoundAbandonsModel(oracle: Oracle, key: string, model: string, attempt: nat)
    requires 1 <= attempt <= MaxRetries
    requires var reply := oracle(key, model, attempt);
      !Succeeds(reply) && IsNotFound(FaultOf(reply))
    ensures RunModel(oracle, key, model, attempt)
      == Run(Failed(FaultOf(oracle(key, model, attempt))), [Call(model, attempt)])
  {
  }

  /** A quota failure before the last attempt waits 12 s and tries the same model again. */
  lemma QuotaWaitsAndRetries(oracle: Oracle, key: string, model: string, attempt: nat)
    requires 1 <= attempt < MaxRetries
    requires var reply := oracle(key, model, attempt);
      !Succeeds(reply) && !IsNotFound(FaultOf(reply)) && IsQuota(FaultOf(reply))
    ensures var next := RunModel(oracle, key, model, attempt + 1);
      RunModel(oracle, key, model, attempt)
      == Run(next.outcome, [Call(model, attempt), Wait(12000)] + next.events)
  {
    ClassifyPriority(FaultOf(oracle(key, model, attempt)));
  }

  /**
   * A busy-server or network failure (503, "overloaded", "xhr", "fetch")
   * before the last attempt waits two seconds per attempt made and tries
   * the same model again.
   */
  lemma TransientWaitsAndRetries(oracle: Oracle, key: string, model: string, attempt: nat)
    requires 1 <= attempt < MaxRetries
    requires var f := FaultOf(oracle(key, model, attempt));
      !Succeeds(oracle(key, model, attempt)) && !IsNotFound(f) && !IsQuota(f)
      && (IsServerBusy(f) || IsNetworkGlitch(f))
    ensures var next := RunModel(oracle, key, model, attempt + 1);
      RunModel(oracle, key, model, attempt)
      == Run(next.outcome, [Call(model, attempt), Wait(attempt * 2000)] + next.events)
  {
    ClassifyPriority(FaultOf(oracle(key, model, attempt)));
  }

  /** The third attempt is never followed by a wait: whatever it returns ends the model. */
  lemma LastAttemptNeverWaits(oracle: Oracle, key: string, model: string)
    ensures RunModel(oracle, key, model, MaxRetries).events == [Call(model, MaxRetries)]
  {
  }

  /** A failure none of the tests recognises ends the model after that one call. */
  lemma UnclassifiedAbandonsModel(oracle: Oracle, key: string, model: string, attempt: nat)
    requires 1 <= attempt <= MaxRetries
    requires var f := FaultOf(oracle(key, model, attempt));
      !Succeeds(oracle(key, model, attempt))
      && !IsNotFound(f) && !IsQuota(f) && !IsServerBusy(f) && !IsNetworkGlitch(f)
    ensures RunModel(oracle, key, model, attempt)
      == Run(Failed(FaultOf(oracle(key, model, attempt))), [Call(model, attempt)])
  {
    ClassifyPriority(FaultOf(oracle(key, model, attempt)));
  }

  /** Lower-casing Arabic prose leaves none of the characters the tests start with. */
  lemma ProseLowerLacks(s: string, c: char)
    requires ArabicProse(s) && c < '\U{0600}' && c !in " .APIapi"
    ensures c !in Lower(s)
  {
    forall i | 0 <= i < |s|
      ensures Lower(s)[i] != c
    {
      assert s[i] >= '\U{0600}' || s[i] in " .API";
    }
  }

  /** An error without a status whose message is Arabic prose matches none of the tests. */
  lemma ProseUnclassified(m: string)
    requires ArabicProse(m)
    ensures Classify(NewError(m)) == Unclassified
  {
    var l := Lower(m);
    ProseLowerLacks(m, 'n');
    ProseLowerLacks(m, '4');
    ProseLowerLacks(m, 'q');
    ProseLowerLacks(m, '5');
    ProseLowerLacks(m, 'o');
    ProseLowerLacks(m, 'x');
    ProseLowerLacks(m, 'f');
    if Contains(l, "not found") { ContainsHead(l, "not found"); }
    if Contains(l, "429") { ContainsHead(l, "429"); }
    if Contains(l, "quota") { ContainsHead(l, "quota"); }
    if Contains(l, "503") { ContainsHead(l, "503"); }
    if Contains(l, "overloaded") { ContainsHead(l, "overloaded"); }
    if Contains(l, "xhr") { ContainsHead(l, "xhr"); }
    if Contains(l, "fetch") { ContainsHead(l, "fetch"); }
  }

  /** The empty-response error matches none of the tests. */
  lemma EmptyResponseUnclassified()
    ensures Classify(NewError(EmptyResponseMessage)) == Unclassified
  {
    OwnMessagesAreProse();
    ProseUnclassified(EmptyResponseMessage);
  }

  /** An empty response is not retried: the model ends with the empty-response error after that call. */
  lemma EmptyResponseAbandonsModel(oracle: Oracle, key: string, model: string, attempt: nat)
    requires 1 <= attempt <= MaxRetries
    requires oracle(key, model, attempt) == Text("")
    ensures RunModel(oracle, key, model, attempt)
      == Run(Failed(NewError(EmptyResponseMessage)), [Call(model, attempt)])
  {
    EmptyResponseUnclassified();
  }

  /** A model whose every reply is a quota failure: three calls, 12 s between them, then its last failure. */
  lemma QuotaOnEveryAttempt(oracle: Oracle, key: string, model: string)
    requires forall a :: 1 <= a <= MaxRetries ==>
      oracle(key, model, a).Thrown? && !IsNotFound(oracle(key, model, a).fault) && IsQuota(oracle(key, model, a).fault)
    ensures RunModel(oracle, key, model, 1) == Run(Failed(oracle(key, model, MaxRetries).fault),
      [Call(model, 1), Wait(12000), Call(model, 2), Wait(12000), Call(model, 3)])
  {
    QuotaWaitsAndRetries(oracle, key, model, 1);
    QuotaWaitsAndRetries(oracle, key, model, 2);
  }

  /** One model makes between one and `MaxRetries - attempt + 1` calls and waits at most 12 s per retry. */
  lemma {:induction false} RunModelBounds(oracle: Oracle, key: string, model: string, attempt: nat)
    requires 1 <= attempt <= MaxRetries
    ensures var r := RunModel(oracle, key, model, attempt);
      1 <= CallCount(r.events) <= MaxRetries - attempt + 1
      && TotalWait(r.events) <= QuotaWaitMs * (MaxRetries - attempt)
    decreases MaxRetries - attempt
  {
    var reply := oracle(key, model, attempt);
    var r := RunModel(oracle, key, model, attempt);
    if !Succeeds(reply) && NextAction(Classify(FaultOf(reply)), attempt).RetryAfter? {
      var ms := NextAction(Classify(FaultOf(reply)), attempt).ms;
      var rest := RunModel(oracle, key, model, attempt + 1);
      RunModelBounds(oracle, key, model, attempt + 1);
      CountsAppend([Call(model, attempt), Wait(ms)], rest.events);
      assert ms <= QuotaWaitMs;
    }
  }

  /** Shape of one model's events: a call, then, if retried, a wait and the next attempt's events. */
  ghost predicate IsAttemptRun(events: seq<Event>, model: string, attempt: nat)
    decreases |events|
  {
    && 1 <= attempt <= MaxRetries
    && |events| > 0 && events[0] == Call(model, attempt)
    && (|events| == 1 || (|events| >= 3 && events[1].Wait? && IsAttemptRun(events[2..], model, attempt + 1)))
  }

  /** A model's attempts are numbered from `attempt` up, one call each, with one wait between consecutive calls. */
  lemma {:induction false} RunModelInOrder(oracle: Oracle, key: string, model: string, attempt: nat)
    requires 1 <= attempt <= MaxRetries
    ensures IsAttemptRun(RunModel(oracle, key, model, attempt).events, model, attempt)
    decreases MaxRetries - attempt
  {
    var reply := oracle(key, model, attempt);
    if !Succeeds(reply) && NextAction(Classify(FaultOf(reply)), attempt).RetryAfter? {
      RunModelInOrder(oracle, key, model, attempt + 1);
      var r := RunModel(oracle, key, model, attempt);
      assert r.events[2..] == RunModel(oracle, key, model, attempt + 1).events;
    }
  }

  /** The call made for `e` got an accepted reply. */
  predicate AcceptedCall(oracle: Oracle, key: string, e: Event) {
    e.Call? && Succeeds(oracle(key, e.model, e.attempt))
  }

  /**
   * Every call of one model but its last got a reply that was not accepted;
   * the last call decides: the model converts, with that reply's cleaned
   * text, exactly when its reply was accepted.
   */
  lemma {:induction false} RunModelStopsAtAccepted(oracle: Oracle, key: string, model: string, attempt: nat)
    requires 1 <= attempt <= MaxRetries
    ensures var r := RunModel(oracle, key, model, attempt);
      var last := r.events[|r.events| - 1];
      && |r.events| > 0 && last.Call?
      && (forall j :: 0 <= j < |r.events| - 1 ==> !AcceptedCall(oracle, key, r.events[j]))
      && (r.outcome.Converted? <==> AcceptedCall(oracle, key, last))
      && (r.outcome.Converted? ==> r.outcome.html == Cleanup(oracle(key, last.model, last.attempt).text))
    decreases MaxRetries - attempt
  {
    var reply := oracle(key, model, attempt);
    if !Succeeds(reply) && NextAction(Classify(FaultOf(reply)), attempt).RetryAfter? {
      RunModelStopsAtAccepted(oracle, key, model, attempt + 1);
      var r := RunModel(oracle, key, model, attempt);
      var rest := RunModel(oracle, key, model, attempt + 1);
      assert r.events == [Call(model, attempt), r.events[1]] + rest.events;
      forall j | 0 <= j < |r.events| - 1
        ensures !AcceptedCall(oracle, key, r.events[j])
      {
        if j >= 2 {
          assert r.events[j] == rest.events[j - 2];
        }
      }
    }
  }

  // ---------------------------------------------------------------------
  // The list of models

  /** At most three calls per model and at most 24 s of waiting per model. */
  lemma {:induction false} RunModelsBounds(oracle: Oracle, key: string, models: seq<string>, i: nat, lastError: Option<Fault>)
    requires i <= |models|
    ensures var r := RunModels(oracle, key, models, i, lastError);
      CallCount(r.events) <= MaxRetries * (|models| - i)
      && TotalWait(r.events) <= 24000 * (|models| - i)
    decreases |models| - i
  {
    if i < |models| {
      var m := RunModel(oracle, key, models[i], 1);
      RunModelBounds(oracle, key, models[i], 1);
      if m.outcome.Failed? {
        var rest := RunModels(oracle, key, models, i + 1, Some(m.outcome.fault));
        RunModelsBounds(oracle, key, models, i + 1, Some(m.outcome.fault));
        CountsAppend(m.events, rest.events);
      }
    }
  }

  /** The whole conversion makes at most nine remote calls and waits at most 72 s. */
  lemma ConvertBounds(file: PdfFile, userKey: Option<string>, envKey: Option<string>, oracle: Oracle)
    ensures var r := Convert(file, userKey, envKey, oracle);
      CallCount(r.events) <= 9 && TotalWait(r.events) <= 72000
  {
    var key := ResolveKey(userKey, envKey);
    if file.size <= MaxFileSize && key.Some? && file.readable {
      RunModelsBounds(oracle, key.value, Models, 0, None);
    }
  }

  /** The events are one attempt run per model tried, for `models[0]`, `models[1]`, … in that order. */
  ghost predicate IsModelSequence(events: seq<Event>, models: seq<string>)
    decreases |models|
  {
    events == [] || (|models| > 0 && exists n :: (0 < n <= |events|
      && IsAttemptRun(events[..n], models[0], 1) && IsModelSequence(events[n..], models[1..])))
  }

  /** Models are tried strictly in list order, each from its first attempt. */
  lemma {:induction false} RunModelsInOrder(oracle: Oracle, key: string, models: seq<string>, i: nat, lastError: Option<Fault>)
    requires i <= |models|
    ensures IsModelSequence(RunModels(oracle, key, models, i, lastError).events, models[i..])
    decreases |models| - i
  {
    if i < |models| {
      var r := RunModels(oracle, key, models, i, lastError);
      var m := RunModel(oracle, key, models[i], 1);
      RunModelInOrder(oracle, key, models[i], 1);
      var n := |m.events|;
      assert models[i..][0] == models[i];
      if m.outcome.Converted? {
        assert r.events[..n] == m.events && r.events[n..] == [];
      } else {
        var rest := RunModels(oracle, key, models, i + 1, Some(m.outcome.fault));
        RunModelsInOrder(oracle, key, models, i + 1, Some(m.outcome.fault));
        assert r.events[..n] == m.events && r.events[n..] == rest.events;
        assert models[i..][1..] == models[i + 1..];
      }
      assert IsAttemptRun(r.events[..n], models[i..][0], 1);
    }
  }

  /** Every model's attempt run, from `models[i]` to the last, one after another. */
  ghost function ModelRuns(oracle: Oracle, key: string, models: seq<string>, i: nat): seq<Event>
    requires i <= |models|
    decreases |models| - i
  {
    if i == |models| then [] else RunModel(oracle, key, models[i], 1).events + ModelRuns(oracle, key, models, i + 1)
  }

  /**
   * A failed model never ends the run: the run fails exactly when every
   * model fails, and then every model was tried in turn, from its first
   * attempt, so there is at least one call per model.
   */
  lemma {:induction false} FailedRunTriesEveryModel(oracle: Oracle, key: string, models: seq<string>, i: nat, lastError: Option<Fault>)
    requires i <= |models|
    ensures RunModels(oracle, key, models, i, lastError).outcome.Failed?
      <==> forall j :: i <= j < |models| ==> RunModel(oracle, key, models[j], 1).outcome.Failed?
    ensures var r := RunModels(oracle, key, models, i, lastError);
      r.outcome.Failed? ==> r.events == ModelRuns(oracle, key, models, i) && CallCount(r.events) >= |models| - i
    decreases |models| - i
  {
    if i < |models| {
      var m := RunModel(oracle, key, models[i], 1);
      if m.outcome.Failed? {
        var rest := RunModels(oracle, key, models, i + 1, Some(m.outcome.fault));
        FailedRunTriesEveryModel(oracle, key, models, i + 1, Some(m.outcome.fault));
        RunModelBounds(oracle, key, models[i], 1);
        CountsAppend(m.events, rest.events);
      }
    }
  }

  /**
   * The first accepted reply ends the whole run: every call but the last
   * was refused, and the run converts, with that reply's cleaned text,
   * exactly when the last call's reply was accepted.
   */
  lemma {:induction false} FirstAcceptedReplyWins(oracle: Oracle, key: string, models: seq<string>, i: nat, lastError: Option<Fault>)
    requires i < |models|
    ensures var r := RunModels(oracle, key, models, i, lastError);
      var last := r.events[|r.events| - 1];
      && |r.events| > 0 && last.Call?
      && (forall j :: 0 <= j < |r.events| - 1 ==> !AcceptedCall(oracle, key, r.events[j]))
      && (r.outcome.Converted? <==> AcceptedCall(oracle, key, last))
      && (r.outcome.Converted? ==> r.outcome.html == Cleanup(oracle(key, last.model, last.attempt).text))
    decreases |models| - i
  {
    var r := RunModels(oracle, key, models, i, lastError);
    var m := RunModel(oracle, key, models[i], 1);
    RunModelStopsAtAccepted(oracle, key, models[i], 1);
    if m.outcome.Failed? && i + 1 < |models| {
      var rest := RunModels(oracle, key, models, i + 1, Some(m.outcome.fault));
      FirstAcceptedReplyWins(oracle, key, models, i + 1, Some(m.outcome.fault));
      assert r.events == m.events + rest.events;
      forall j | 0 <= j < |r.events| - 1
        ensures !AcceptedCall(oracle, key, r.events[j])
      {
        if j < |m.events| {
          assert r.events[j] == m.events[j];
        } else {
          assert r.events[j] == rest.events[j - |m.events|];
        }
      }
    } else if m.outcome.Failed? {
      assert RunModels(oracle, key, models, i + 1, Some(m.outcome.fault)).events == [];
      assert r.events == m.events + [];
    }
  }

  /** A not-found failure on a model's first attempt moves on to the next model with no wait. */
  lemma NotFoundMovesOn(oracle: Oracle, key: string, models: seq<string>, i: nat, lastError: Option<Fault>)
    requires i < |models|
    requires var reply := oracle(key, models[i], 1);
      !Succeeds(reply) && IsNotFound(FaultOf(reply))
    ensures var f := FaultOf(oracle(key, models[i], 1));
      var next := RunModels(oracle, key, models, i + 1, Some(f));
      RunModels(oracle, key, models, i, lastError) == Run(next.outcome, [Call(models[i], 1)] + next.events)
  {
    NotFoundAbandonsModel(oracle, key, models[i], 1);
  }

  /**
   * When every model fails, only the last model's error matters: the
   * thrown error is that error as mapped by `Exhausted`, whatever the
   * earlier models threw.
   */
  lemma {:induction false} OnlyLastModelErrorMatters(oracle: Oracle, key: string, models: seq<string>, i: nat, lastError: Option<Fault>)
    requires i < |models|
    requires RunModels(oracle, key, models, i, lastError).outcome.Failed?
    ensures var last := RunModel(oracle, key, models[|models| - 1], 1);
      && last.outcome.Failed?
      && RunModels(oracle, key, models, i, lastError).outcome.fault == Exhausted(Some(last.outcome.fault))
    decreases |models| - i
  {
    var m := RunModel(oracle, key, models[i], 1);
    if i + 1 < |models| {
      OnlyLastModelErrorMatters(oracle, key, models, i + 1, Some(m.outcome.fault));
    }
  }

  /** The final error never mentions "429" or "quota", so the outer catch passes it on unchanged. */
  lemma ExhaustedNotQuota(lastError: Option<Fault>)
    ensures !Contains(Exhausted(lastError).message, "429")
    ensures !Contains(Exhausted(lastError).message, "quota")
  {
    OwnMessagesAreProse();
    ProseNotQuota(ServersBusyMessage);
    ProseNotQuota(UnknownErrorMessage);
  }

  /** A run of the models that fails fails with `Exhausted` of some last error. */
  lemma {:induction false} RunModelsFailsExhausted(oracle: Oracle, key: string, models: seq<string>, i: nat, lastError: Option<Fault>)
    requires i <= |models|
    requires RunModels(oracle, key, models, i, lastError).outcome.Failed?
    ensures exists e :: RunModels(oracle, key, models, i, lastError).outcome.fault == Exhausted(e)
    decreases |models| - i
  {
    if i < |models| {
      var m := RunModel(oracle, key, models[i], 1);
      RunModelsFailsExhausted(oracle, key, models, i + 1, Some(m.outcome.fault));
    } else {
      assert RunModels(oracle, key, models, i, lastError).outcome.fault == Exhausted(lastError);
    }
  }

  /**
   * The outer catch changes nothing: every error the `try` can throw
   * already lacks "429" and "quota", so its retry-later message is never
   * produced.
   */
  lemma OuterCatchNeverRemaps(file: PdfFile, userKey: Option<string>, envKey: Option<string>, oracle: Oracle)
    requires file.size <= MaxFileSize
    ensures Convert(file, userKey, envKey, oracle) == InTry(file, userKey, envKey, oracle)
  {
    OwnMessagesAreProse();
    ProseNotQuota(MissingKeyMessage);
    ProseNotQuota(ReadFailedMessage);
    var key := ResolveKey(userKey, envKey);
    if key.Some? && file.readable {
      var r := RunModels(oracle, key.value, Models, 0, None);
      if r.outcome.Failed? {
        RunModelsFailsExhausted(oracle, key.value, Models, 0, None);
        var e :| r.outcome.fault == Exhausted(e);
        ExhaustedNotQuota(e);
      }
    }
  }

  /**
   * The all-models-failed mapping reads the error message as written, not
   * lower-cased, and ignores the status: a 429 that is not a not-found and
   * whose message says neither "429" nor "quota" is retried as a quota
   * failure, yet rethrown as it is, not as the busy message.
   */
  lemma QuotaStatusAloneIsRethrown(f: Fault)
    requires f.status == 429 && !IsNotFound(f)
    requires !Contains(f.message, "429") && !Contains(f.message, "quota")
    ensures Classify(f) == QuotaExceeded
    ensures Exhausted(Some(f)) == f
  {
  }

  /**
   * The same holds for a message that says "QUOTA" in capitals: the
   * classifier lower-cases it and retries, the final mapping does not and
   * rethrows it.
   */
  lemma CapitalQuotaIsRethrown()
    ensures Classify(Fault(true, 0, "QUOTA")) == QuotaExceeded
    ensures Exhausted(Some(Fault(true, 0, "QUOTA"))) == Fault(true, 0, "QUOTA")
  {
    var m := "QUOTA";
    assert Lower(m) == "quota";
    assert OccursAt(Lower(m), "quota", 0);
    assert 'n' !in Lower(m) && '4' !in m && 'q' !in m;
    if Contains(Lower(m), "not found") { ContainsHead(Lower(m), "not found"); }
    if Contains(m, "429") { ContainsHead(m, "429"); }
    if Contains(m, "quota") { ContainsHead(m, "quota"); }
  }

  // ---------------------------------------------------------------------
  // The returned text

  lemma FenceInHtmlFence()
    ensures Contains("```html", Fence)
  {
    assert OccursAt("```html", Fence, 0);
  }

  /** Cleaning an already cleaned text changes nothing. */
  lemma CleanupIdempotent(text: string)
    ensures Cleanup(Cleanup(text)) == Cleanup(text)
  {
    var c := Cleanup(text);
    CleanupSpec(text);
    FenceInHtmlFence();
    if Contains(c, "```html") {
      ContainsTransitive(c, "```html", Fence);
    }
    RemoveAllAbsent(c, "```html");
    RemoveAllAbsent(c, Fence);
    TrimSpec(c);
  }

  /**
   * A converted document holds no code fence, has no whitespace at either
   * end and is left as it is by a second clean-up.
   */
  lemma ConvertedHtmlIsClean(file: PdfFile, userKey: Option<string>, envKey: Option<string>, oracle: Oracle)
    requires Convert(file, userKey, envKey, oracle).outcome.Converted?
    ensures var html := Convert(file, userKey, envKey, oracle).outcome.html;
      !Contains(html, Fence) && Trimmed(html) && Cleanup(html) == html
  {
    var key := ResolveKey(userKey, envKey).value;
    var r := RunModels(oracle, key, Models, 0, None);
    FirstAcceptedReplyWins(oracle, key, Models, 0, None);
    var last := r.events[|r.events| - 1];
    var text := oracle(key, last.model, last.attempt).text;
    CleanupSpec(text);
    CleanupIdempotent(text);
  }
}
