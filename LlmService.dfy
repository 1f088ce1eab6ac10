/**
 * `LlmService` of `src/llm-service.js`: the normalisation of a prompt or a
 * chat history into Gemini `contents`, and the control flow of `chat`: the
 * availability check, the cache lookup, and up to four attempts with
 * error classification and jittered exponential backoff. The API call, the
 * cache store and `Math.random` are parameters.
 */
module LlmService {
  import opened Common
  import opened Strings
  import opened PropertyGraphs

  // ---------------------------------------------------------------------------
  // _normalizeContents

  /** A part of a message: a text, or an element of a caller's `parts` array passed through as is. */
  datatype Part = Text(text: string) | Given(json: string)

  datatype Message = Message(role: string, parts: seq<Part>)

  /**
   * One element of a history array: a string, an object, or anything else.
   * For an object, `role` is `None` when missing or falsy, `parts` is `None`
   * unless it is an array, `content` is `None` when null or undefined and
   * otherwise its `toString()`, and `json` is `JSON.stringify` of the element.
   */
  datatype Entry =
    | EntryText(s: string)
    | EntryObject(role: Option<string>, parts: Option<seq<Part>>, content: Option<string>, json: string)
    | EntryOther(json: string)

  /** The input of `chat`: a string, an array, or another value, each with its `JSON.stringify` text. */
  datatype Input =
    | InputText(s: string, json: string)
    | InputList(entries: seq<Entry>)
    | InputOther(json: string)

  function UserText(t: string): Message {
    Message("user", [Text(t)])
  }

  /** "assistant" becomes Gemini's "model"; other roles are kept. */
  function GeminiRole(r: string): (g: string)
    ensures g != "assistant"
    ensures r != "assistant" ==> g == r
  {
    if r == "assistant" then "model" else r
  }

  function NormalizeEntry(e: Entry): (m: Message)
    ensures m.role != "assistant"
  {
    match e
    case EntryText(s) => UserText(s)
    case EntryObject(role, parts, content, json) =>
      if role.None? then UserText(json)
      else if parts.Some? then Message(GeminiRole(role.value), parts.value)
      else Message(GeminiRole(role.value), [Text(if content.Some? then content.value else "")])
    case EntryOther(json) => UserText(json)
  }

  /** `_normalizeContents`. */
  function NormalizeContents(input: Input): (r: seq<Message>)
    ensures input.InputList? ==> |r| == |input.entries|
    ensures !input.InputList? ==> |r| == 1
  {
    match input
    case InputText(s, json) => if !IsBlank(s) then [UserText(s)] else [UserText(json)]
    case InputList(es) => seq(|es|, i requires 0 <= i < |es| => NormalizeEntry(es[i]))
    case InputOther(json) => [UserText(json)]
  }

  /** What each kind of input becomes. */
  lemma NormalizeLaws(input: Input)
    ensures forall m :: m in NormalizeContents(input) ==> m.role != "assistant"
    ensures input.InputText? && !IsBlank(input.s) ==> NormalizeContents(input) == [UserText(input.s)]
    ensures input.InputText? && IsBlank(input.s) ==> NormalizeContents(input) == [UserText(input.json)]
    ensures input.InputOther? ==> NormalizeContents(input) == [UserText(input.json)]
    ensures input.InputList? ==> forall i :: 0 <= i < |input.entries| ==>
      NormalizeContents(input)[i] == NormalizeEntry(input.entries[i])
  {
  }

  /** Per element: strings and role-less values become user messages; a role keeps its `parts` or wraps its content. */
  lemma EntryLaws(e: Entry)
    ensures e.EntryText? ==> NormalizeEntry(e) == UserText(e.s)
    ensures (e.EntryOther? || (e.EntryObject? && e.role.None?)) ==> NormalizeEntry(e) == UserText(e.json)
    ensures e.EntryObject? && e.role.Some? ==> NormalizeEntry(e).role == GeminiRole(e.role.value)
    ensures e.EntryObject? && e.role.Some? && e.parts.Some? ==> NormalizeEntry(e).parts == e.parts.value
    ensures e.EntryObject? && e.role.Some? && e.parts.None? ==>
      NormalizeEntry(e).parts == [Text(if e.content.Some? then e.content.value else "")]
  {
  }

  // ---------------------------------------------------------------------------
  // chat

  const MaxRetries := 4

  /**
   * What one attempt's race between the API call and the timeout gives: the
   * response text, or the error, with its `status` (empty when unset or
   * falsy), its `message` (`None` when missing, possibly empty otherwise)
   * and its `String()` text.
   */
  datatype Outcome = Ok(text: string) | Fail(status: string, message: Option<string>, shown: string)

  /** `${err?.status || ""} ${err?.message || err}`: a missing or empty message falls back to `String(err)`. */
  function ErrorText(o: Outcome): (msg: string)
    requires o.Fail?
    ensures o.message.Some? && o.message.value != [] ==> msg == o.status + " " + o.message.value
    ensures (o.message.None? || o.message.value == []) ==> msg == o.status + " " + o.shown
  {
    o.status + " " + (if o.message.Some? && o.message.value != [] then o.message.value else o.shown)
  }

  /** `${err.message}` in the timeout reply: `undefined` when missing, the text (maybe empty) otherwise. */
  function MessageText(o: Outcome): (t: string)
    requires o.Fail?
    ensures o.message.Some? ==> t == o.message.value
    ensures o.message.None? ==> t == "undefined"
  {
    Render(o.message)
  }

  /** How `chat` treats an error, in the order it tests them. */
  datatype Kind = InvalidKey | Timeout | Retriable | Fatal

  function Classify(msg: string): Kind
  {
    if Contains(msg, "API key not valid") || Contains(msg, "INVALID_ARGUMENT") then InvalidKey
    else if Contains(msg, "timeout") then Timeout
    else if Contains(msg, "UNAVAILABLE") || Contains(msg, "DEADLINE_EXCEEDED")
         || Contains(msg, "ECONNRESET") || Contains(msg, "ETIMEDOUT") then Retriable
    else Fatal
  }

  /** The tests apply in order: a key error beats a timeout, which beats a retriable code. */
  lemma ClassifyOrder(msg: string)
    ensures Classify(msg) == InvalidKey <==> Contains(msg, "API key not valid") || Contains(msg, "INVALID_ARGUMENT")
    ensures Classify(msg) == Timeout <==>
      !(Contains(msg, "API key not valid") || Contains(msg, "INVALID_ARGUMENT")) && Contains(msg, "timeout")
    ensures Classify(msg) == Retriable <==>
      !(Contains(msg, "API key not valid") || Contains(msg, "INVALID_ARGUMENT")) && !Contains(msg, "timeout")
      && (Contains(msg, "UNAVAILABLE") || Contains(msg, "DEADLINE_EXCEEDED")
          || Contains(msg, "ECONNRESET") || Contains(msg, "ETIMEDOUT"))
  {
  }

  const UnavailableReply := "Error: LLM service is not available. Please set GEMINI_API_KEY."
  const InvalidKeyReply := "API密鑰無效，無法處理此請求"
  const TimeoutPrefix := "Error: LLM 呼叫超時。請稍後再試，或檢查網路連線。詳細資訊: "
  const FailedPrefix := "Error: LLM call failed. Details: "

  function Pow2(n: nat): (r: nat)
    ensures r >= 1
  {
    if n == 0 then 1 else 2 * Pow2(n - 1)
  }

  /** `400 * Math.pow(2, attempt) + Math.floor(Math.random() * 200)`, `u` being the random draw. */
  function Backoff(attempt: nat, u: real): (ms: int)
    requires 0.0 <= u < 1.0
    ensures 400 * Pow2(attempt) <= ms <= 400 * Pow2(attempt) + 199
  {
    400 * Pow2(attempt) + (u * 200.0).Floor
  }

  /**
   * What `chat` does with one attempt's outcome: return `reply` (writing it
   * to the cache when `store`), or try again, returning `reply` if no
   * attempt is left.
   */
  datatype Step = Final(reply: string, store: bool) | Again(reply: string)

  function StepOf(o: Outcome): Step {
    match o
    case Ok(text) => Final(text, true)
    case Fail(_, _, _) =>
      var msg := ErrorText(o);
      match Classify(msg)
      case InvalidKey => Final(InvalidKeyReply, false)
      case Timeout => Final(TimeoutPrefix + MessageText(o), false)
      case Fatal => Final(FailedPrefix + msg, false)
      case Retriable => Again(FailedPrefix + msg)
  }

  /** Only a success is cached, and only a retriable error is retried. */
  lemma StepLaws(o: Outcome)
    ensures o.Ok? ==> StepOf(o) == Final(o.text, true)
    ensures StepOf(o).Final? && StepOf(o).store ==> o.Ok?
    ensures StepOf(o).Again? <==> o.Fail? && Classify(ErrorText(o)) == Retriable
    ensures o.Fail? && Classify(ErrorText(o)) == InvalidKey ==> StepOf(o).reply == InvalidKeyReply
    ensures o.Fail? && Classify(ErrorText(o)) == Timeout ==> StepOf(o).reply == TimeoutPrefix + MessageText(o)
    ensures o.Fail? && Classify(ErrorText(o)) in {Retriable, Fatal} ==> StepOf(o).reply == FailedPrefix + ErrorText(o)
  {
  }

  /** Each attempt's step. */
  function StepsOf(api: nat -> Outcome): nat -> Step {
    (k: nat) => StepOf(api(k))
  }

  /**
   * The result of a `chat` call: the reply, the number of API calls, the
   * waits between them, and the text written to the cache, if any.
   */
  datatype Run = Run(reply: string, calls: nat, waits: seq<int>, stored: Option<string>)

  /** The attempts from `attempt` on; `step(k)` and `draw(k)` are attempt `k`'s step and random draw. */
  function Attempts(step: nat -> Step, draw: nat -> real, cacheOn: bool, attempt: nat): Run
    requires attempt < MaxRetries && forall k :: 0.0 <= draw(k) < 1.0
    decreases MaxRetries - attempt
  {
    match step(attempt)
    case Final(reply, store) => Run(reply, 1, [], if store && cacheOn then Some(reply) else None)
    case Again(reply) =>
      if attempt == MaxRetries - 1 then Run(reply, 1, [], None)
      else
        var rest := Attempts(step, draw, cacheOn, attempt + 1);
        Run(rest.reply, rest.calls + 1, [Backoff(attempt, draw(attempt))] + rest.waits, rest.stored)
  }

  /**
   * `chat`: `ready` is whether the client could be set up, `cached` what the
   * cache holds for the request's key (`None` when the cache is off or has
   * nothing), `cacheOn` whether a reply is written back, `api(k)` the outcome
   * of attempt `k`.
   */
  function ChatRun(ready: bool, cached: Option<string>, cacheOn: bool, api: nat -> Outcome, draw: nat -> real): Run
    requires forall k :: 0.0 <= draw(k) < 1.0
  {
    if !ready then Run(UnavailableReply, 0, [], None)
    else if cached.Some? && cached.value != [] then Run(cached.value, 0, [], None)
    else Attempts(StepsOf(api), draw, cacheOn, 0)
  }

  /** Between one and `4 - attempt` calls, with one wait before each call but the first. */
  lemma {:induction false} AttemptsCalls(step: nat -> Step, draw: nat -> real, cacheOn: bool, attempt: nat)
    requires attempt < MaxRetries && forall k :: 0.0 <= draw(k) < 1.0
    ensures 1 <= Attempts(step, draw, cacheOn, attempt).calls <= MaxRetries - attempt
    ensures |Attempts(step, draw, cacheOn, attempt).waits| == Attempts(step, draw, cacheOn, attempt).calls - 1
    decreases MaxRetries - attempt
  {
    if step(attempt).Again? && attempt < MaxRetries - 1 {
      AttemptsCalls(step, draw, cacheOn, attempt + 1);
    }
  }

  /** The wait before call `attempt + n + 1` lies in [400·2^(attempt+n), 400·2^(attempt+n) + 199]. */
  lemma {:induction false} AttemptsBackoff(step: nat -> Step, draw: nat -> real, cacheOn: bool, attempt: nat)
    requires attempt < MaxRetries && forall k :: 0.0 <= draw(k) < 1.0
    ensures forall n :: 0 <= n < |Attempts(step, draw, cacheOn, attempt).waits| ==>
      400 * Pow2(attempt + n) <= Attempts(step, draw, cacheOn, attempt).waits[n] <= 400 * Pow2(attempt + n) + 199
    decreases MaxRetries - attempt
  {
    if step(attempt).Again? && attempt < MaxRetries - 1 {
      AttemptsBackoff(step, draw, cacheOn, attempt + 1);
      BackoffStep(attempt, Backoff(attempt, draw(attempt)), Attempts(step, draw, cacheOn, attempt + 1).waits);
    }
  }

  /** A wait for `attempt` in front of the waits from `attempt + 1` on keeps each wait in its band. */
  lemma BackoffStep(attempt: nat, first: int, rest: seq<int>)
    requires 400 * Pow2(attempt) <= first <= 400 * Pow2(attempt) + 199
    requires forall n :: 0 <= n < |rest| ==> 400 * Pow2(attempt + 1 + n) <= rest[n] <= 400 * Pow2(attempt + 1 + n) + 199
    ensures forall n :: 0 <= n < |[first] + rest| ==>
      400 * Pow2(attempt + n) <= ([first] + rest)[n] <= 400 * Pow2(attempt + n) + 199
  {
    var w := [first] + rest;
    forall n | 0 <= n < |w|
      ensures 400 * Pow2(attempt + n) <= w[n] <= 400 * Pow2(attempt + n) + 199
    {
      if n > 0 {
        assert w[n] == rest[n - 1] && attempt + n == attempt + 1 + (n - 1);
      }
    }
  }

  /** Another call follows only a step that asks for one. */
  lemma {:induction false} AttemptsRetried(step: nat -> Step, draw: nat -> real, cacheOn: bool, attempt: nat, k: nat)
    requires attempt < MaxRetries && forall k :: 0.0 <= draw(k) < 1.0
    requires attempt <= k < attempt + Attempts(step, draw, cacheOn, attempt).calls - 1
    ensures step(k).Again?
    decreases MaxRetries - attempt
  {
    if k > attempt {
      AttemptsRetried(step, draw, cacheOn, attempt + 1, k);
    }
  }

  /** The last call decides the reply, and only a final step that asks for it is cached. */
  lemma {:induction false} AttemptsLast(step: nat -> Step, draw: nat -> real, cacheOn: bool, attempt: nat)
    requires attempt < MaxRetries && forall k :: 0.0 <= draw(k) < 1.0
    ensures var r := Attempts(step, draw, cacheOn, attempt);
            var last := step(attempt + r.calls - 1);
            r.reply == last.reply
            && r.stored == (if last.Final? && last.store && cacheOn then Some(last.reply) else None)
            && (last.Again? ==> attempt + r.calls == MaxRetries)
    decreases MaxRetries - attempt
  {
    if step(attempt).Again? && attempt < MaxRetries - 1 {
      AttemptsLast(step, draw, cacheOn, attempt + 1);
    }
  }

  /** No client: the fixed message and no call. A cache hit: the cached text and no call. */
  lemma ChatShortcuts(ready: bool, cached: Option<string>, cacheOn: bool, api: nat -> Outcome, draw: nat -> real)
    requires forall k :: 0.0 <= draw(k) < 1.0
    ensures !ready ==> ChatRun(ready, cached, cacheOn, api, draw) == Run(UnavailableReply, 0, [], None)
    ensures ready && cached.Some? && cached.value != [] ==> ChatRun(ready, cached, cacheOn, api, draw) == Run(cached.value, 0, [], None)
    ensures ready && (cached.None? || cached.value == []) ==>
      1 <= ChatRun(ready, cached, cacheOn, api, draw).calls <= MaxRetries
  {
    if ready && (cached.None? || cached.value == []) {
      AttemptsCalls(StepsOf(api), draw, cacheOn, 0);
    }
  }

  /** Every call of `chat` but the last met a retriable error; a cached reply is a call's response text. */
  lemma ChatRetries(ready: bool, cached: Option<string>, cacheOn: bool, api: nat -> Outcome, draw: nat -> real, k: nat)
    requires forall k :: 0.0 <= draw(k) < 1.0
    requires k + 1 < ChatRun(ready, cached, cacheOn, api, draw).calls
    ensures api(k).Fail? && Classify(ErrorText(api(k))) == Retriable
  {
    var step := StepsOf(api);
    AttemptsRetried(step, draw, cacheOn, 0, k);
    StepLaws(api(k));
  }

  /** The run after `k` attempts and waits `w`, continued by `r`. */
  function After(k: nat, w: seq<int>, r: Run): Run {
    Run(r.reply, k + r.calls, w + r.waits, r.stored)
  }

  /** One more attempt and wait moves from the rest of the run into its prefix. */
  lemma AfterStep(k: nat, waits: seq<int>, backoff: int, cur: Run, next: Run, total: Run)
    requires After(k, waits, cur) == total && cur == After(1, [backoff], next)
    ensures After(k + 1, waits + [backoff], next) == total
  {
    ConcatAssoc(waits, [backoff], next.waits);
  }

  /** The `catch` of one attempt: the reply for an error, and whether the error may be retried. */
  method OnError(outcome: Outcome) returns (reply: string, retry: bool)
    requires outcome.Fail?
    ensures StepOf(outcome) == if retry then Again(reply) else Final(reply, false)
  {
    var msg := ErrorText(outcome);
    ghost var kind := Classify(msg);
    retry := false;
    if Contains(msg, "API key not valid") || Contains(msg, "INVALID_ARGUMENT") {
      assert kind == InvalidKey;
      reply := InvalidKeyReply;
      return;
    }
    if Contains(msg, "timeout") {
      assert kind == Timeout;
      reply := TimeoutPrefix + MessageText(outcome);
      return;
    }
    retry := Contains(msg, "UNAVAILABLE") || Contains(msg, "DEADLINE_EXCEEDED")
             || Contains(msg, "ECONNRESET") || Contains(msg, "ETIMEDOUT");
    assert retry <==> kind == Retriable;
    reply := FailedPrefix + msg;
  }

  /**
   * One pass of the retry loop: call the API, and either finish with a
   * reply (and what to cache) or compute the wait before the next attempt.
   */
  method AttemptOnce(api: nat -> Outcome, draw: nat -> real, cacheOn: bool, attempt: nat)
    returns (done: bool, reply: string, stored: Option<string>, backoff: int)
    requires attempt < MaxRetries && forall k :: 0.0 <= draw(k) < 1.0
    ensures done ==> Attempts(StepsOf(api), draw, cacheOn, attempt) == Run(reply, 1, [], stored)
    ensures !done ==> attempt < MaxRetries - 1
    ensures !done ==> Attempts(StepsOf(api), draw, cacheOn, attempt)
                      == After(1, [backoff], Attempts(StepsOf(api), draw, cacheOn, attempt + 1))
  {
    var outcome := api(attempt);
    assert StepsOf(api)(attempt) == StepOf(outcome);
    stored, backoff := None, 0;
    if outcome.Ok? {
      done, reply := true, outcome.text;
      if cacheOn {
        stored := Some(reply);
      }
      return;
    }
    var retry;
    reply, retry := OnError(outcome);
    if !retry || attempt == MaxRetries - 1 {
      done := true;
      return;
    }
    done := false;
    backoff := Backoff(attempt, draw(attempt));
  }

  /** The retry loop of `chat`: attempts 0 to 3, each returning early unless its error is retriable. */
  method Retry(api: nat -> Outcome, draw: nat -> real, cacheOn: bool)
    returns (reply: string, calls: nat, waits: seq<int>, stored: Option<string>)
    requires forall k :: 0.0 <= draw(k) < 1.0
    ensures Run(reply, calls, waits, stored) == Attempts(StepsOf(api), draw, cacheOn, 0)
  {
    calls, waits := 0, [];
    ghost var total := Attempts(StepsOf(api), draw, cacheOn, 0);
    var attempt := 0;
    while attempt < MaxRetries
      invariant 0 <= attempt < MaxRetries && calls == attempt
      invariant After(attempt, waits, Attempts(StepsOf(api), draw, cacheOn, attempt)) == total
      decreases MaxRetries - attempt
    {
      var done, backoff;
      done, reply, stored, backoff := AttemptOnce(api, draw, cacheOn, attempt);
      calls := calls + 1;
      if done {
        return;
      }
      AfterStep(attempt, waits, backoff, Attempts(StepsOf(api), draw, cacheOn, attempt),
                Attempts(StepsOf(api), draw, cacheOn, attempt + 1), total);
      waits := waits + [backoff];
      attempt := attempt + 1;
    }
    assert false;
  }

  /**
   * `chat(promptOrHistory)`. The request's contents are normalised for the
   * API and the cache key; the timer race is part of `api`.
   */
  method Chat(input: Input, ready: bool, cached: Option<string>, cacheOn: bool, api: nat -> Outcome, draw: nat -> real)
    returns (reply: string, contents: seq<Message>, calls: nat, waits: seq<int>, stored: Option<string>)
    requires forall k :: 0.0 <= draw(k) < 1.0
    ensures Run(reply, calls, waits, stored) == ChatRun(ready, cached, cacheOn, api, draw)
    ensures contents == if ready then NormalizeContents(input) else []
  {
    calls, waits, stored, contents := 0, [], None, [];
    if !ready {
      reply := UnavailableReply;
      return;
    }
    contents := NormalizeContents(input);
    if cached.Some? && cached.value != [] {
      reply := cached.value;
      return;
    }
    reply, calls, waits, stored := Retry(api, draw, cacheOn);
  }
}
