/** The retry policy of `call_gemini_api`: a request is repeated only while the service
    answers 429 (Too Many Requests, section 4 of RFC 6585), with a doubling delay, and at
    most three requests are made. The transport is a list of replies, one per request;
    the delays are returned instead of slept. */
module GeminiClient {

  /** The key the application ships with until the user configures a real one. */
  const PlaceholderKey: string := "VOTRE_CLE_API_GEMINI_ICI"

  /** `max_retries`: the number of requests that may be answered with 429. */
  const MaxRetries: nat := 3

  /** `base_delay`, in seconds. */
  const BaseDelay: nat := 1

  const ConfigError: string := "Erreur de configuration de l'API."
  const UnexpectedShape: string := "Désolé, la réponse de l'IA est inattendue."
  const HttpFailure: string := "Désolé, une erreur est survenue lors de la communication avec l'IA."
  const OtherFailure: string := "Désolé, une erreur inattendue est survenue."
  const GaveUp: string := "Échec de la requête API après plusieurs tentatives."

  /** A decoded JSON value, as `response.json()` hands it to the code. */
  datatype Json =
    | JNull
    | JBool(b: bool)
    | JNum(n: real)
    | JStr(s: string)
    | JArr(items: seq<Json>)
    | JObj(fields: map<string, Json>)

  /** The body of an answer: JSON, or something `response.json()` refuses. */
  datatype Body = Unreadable | Parsed(value: Json)

  /** What one request gives: an exception from the transport itself (connection
      refused, timeout, ...), or an HTTP status with a body. */
  datatype Reply = Raised | Answered(status: int, body: Body)

  /** A Python expression's value, or the exception it raises. */
  datatype Eval = Value(v: Json) | Raises

  /** Python truthiness of a JSON value. */
  predicate Truthy(v: Json)
  {
    match v
    case JNull => false
    case JBool(b) => b
    case JNum(n) => n != 0.0
    case JStr(s) => s != []
    case JArr(items) => items != []
    case JObj(fields) => fields != map[]
  }

  /** `v.get(key)`: a dictionary gives the value or `None`; anything else has no `get`. */
  function Get(v: Json, key: string): (e: Eval)
    ensures e.Raises? <==> !v.JObj?
    ensures v.JObj? && key !in v.fields ==> e == Value(JNull)
  {
    match v
    case JObj(fields) => if key in fields then Value(fields[key]) else Value(JNull)
    case _ => Raises
  }

  /** `v[0]`: the first item of a list, the first character of a string; an empty list or
      string raises `IndexError`, a dictionary `KeyError` (JSON keys are strings), anything
      else `TypeError`. */
  function First(v: Json): (e: Eval)
    ensures e.Value? <==> (v.JArr? && v.items != []) || (v.JStr? && v.s != [])
  {
    match v
    case JArr(items) => if items == [] then Raises else Value(items[0])
    case JStr(s) => if s == [] then Raises else Value(JStr(s[..1]))
    case _ => Raises
  }

  /** `v[key]` with a string key: only a dictionary holding the key answers. */
  function Lookup(v: Json, key: string): (e: Eval)
    ensures e.Value? <==> v.JObj? && key in v.fields
  {
    match v
    case JObj(fields) => if key in fields then Value(fields[key]) else Raises
    case _ => Raises
  }

  /** What a request leads to: another attempt, or the value the function returns. */
  datatype Step = Retry | Return(answer: Json)

  /** The success branch: `result['candidates'][0]['content']['parts'][0]['text']` when each
      of `candidates`, `content` and `parts` is present and truthy; a falsy one gives the
      unexpected-shape message; any lookup that raises lands in the generic handler. */
  function ReadAnswer(result: Json): (s: Step)
    ensures s.Return?
    ensures !result.JObj? ==> s == Return(JStr(OtherFailure))
    ensures result.JObj? && ("candidates" !in result.fields || !Truthy(result.fields["candidates"]))
      ==> s == Return(JStr(UnexpectedShape))
  {
    match Get(result, "candidates")
    case Raises => Return(JStr(OtherFailure))
    case Value(candidates) =>
      if !Truthy(candidates) then Return(JStr(UnexpectedShape))
      else match First(candidates)
        case Raises => Return(JStr(OtherFailure))
        case Value(candidate) =>
          match Get(candidate, "content")
          case Raises => Return(JStr(OtherFailure))
          case Value(content) =>
            if !Truthy(content) then Return(JStr(UnexpectedShape))
            else match Get(content, "parts")
              case Raises => Return(JStr(OtherFailure))
              case Value(parts) =>
                if !Truthy(parts) then Return(JStr(UnexpectedShape))
                else match First(parts)
                  case Raises => Return(JStr(OtherFailure))
                  case Value(part) =>
                    match Lookup(part, "text")
                    case Raises => Return(JStr(OtherFailure))
                    case Value(text) => Return(text)
  }

  /** `raise_for_status()` raises for the 4xx and 5xx statuses. */
  predicate IsHttpError(status: int)
  {
    400 <= status < 600
  }

  /** One pass of the loop body: 429 is retried, any other HTTP error and any exception
      end the call with their message, a successful answer is read. */
  function Handle(reply: Reply): (s: Step)
    ensures s.Retry? <==> reply.Answered? && reply.status == 429
    ensures reply.Raised? ==> s == Return(JStr(OtherFailure))
    ensures reply.Answered? && IsHttpError(reply.status) && reply.status != 429 ==> s == Return(JStr(HttpFailure))
    ensures reply.Answered? && !IsHttpError(reply.status) && reply.body.Unreadable? ==> s == Return(JStr(OtherFailure))
    ensures reply.Answered? && !IsHttpError(reply.status) && reply.body.Parsed? ==> s == ReadAnswer(reply.body.value)
  {
    match reply
    case Raised => Return(JStr(OtherFailure))
    case Answered(status, body) =>
      if IsHttpError(status) then
        if status == 429 then Retry else Return(JStr(HttpFailure))
      else match body
        case Unreadable => Return(JStr(OtherFailure))
        case Parsed(result) => ReadAnswer(result)
  }

  /** `2 ** k`. */
  function Pow2(k: nat): (p: nat)
    ensures p >= 1
  {
    if k == 0 then 1 else 2 * Pow2(k - 1)
  }

  /** The delays slept after the first `n` 429 answers: `base_delay * 2 ** (k - 1)` after
      the k-th. */
  function Backoffs(n: nat): (ds: seq<nat>)
    ensures |ds| == n && forall k :: 0 <= k < n ==> ds[k] == BaseDelay * Pow2(k)
  {
    if n == 0 then [] else Backoffs(n - 1) + [BaseDelay * Pow2(n - 1)]
  }

  /** The key is neither empty nor the placeholder. */
  predicate Configured(key: string)
  {
    key != [] && key != PlaceholderKey
  }

  /** How a call ends: what it returns, how many requests it made, the delays it slept. */
  datatype Call = Call(answer: Json, requests: nat, delays: seq<nat>)

  /** The call once `made` requests have all been answered 429. */
  function Attempts(replies: seq<Reply>, made: nat): (c: Call)
    requires made <= MaxRetries <= |replies|
    decreases MaxRetries - made
  {
    if made == MaxRetries then Call(JStr(GaveUp), made, Backoffs(made))
    else match Handle(replies[made])
      case Retry => Attempts(replies, made + 1)
      case Return(answer) => Call(answer, made + 1, Backoffs(made))
  }

  /** `call_gemini_api(prompt)`, given the key and the replies its requests would get. */
  function Expected(key: string, replies: seq<Reply>): Call
    requires MaxRetries <= |replies|
  {
    if !Configured(key) then Call(JStr(ConfigError), 0, []) else Attempts(replies, 0)
  }

  /** Only 429 answers are retried: every request but the last was answered 429, one delay
      was slept after each of them, and the call made at most three requests. */
  lemma {:induction false} AttemptsRetryOnlyRateLimits(replies: seq<Reply>, made: nat)
    requires made <= MaxRetries <= |replies|
    requires forall j :: 0 <= j < made ==> Handle(replies[j]).Retry?
    ensures var c := Attempts(replies, made);
      made <= c.requests <= MaxRetries
      && c.delays == Backoffs(|c.delays|) && |c.delays| <= c.requests
      && forall j :: 0 <= j < |c.delays| ==> Handle(replies[j]).Retry?
    decreases MaxRetries - made
  {
    if made < MaxRetries && Handle(replies[made]).Retry? {
      AttemptsRetryOnlyRateLimits(replies, made + 1);
    }
  }

  /** The call stops at the first reply that is not 429 and returns what that reply leads to. */
  lemma {:induction false} AttemptsStopAtFirstAnswer(replies: seq<Reply>, made: nat, k: nat)
    requires made <= k < MaxRetries <= |replies|
    requires forall j :: made <= j < k ==> Handle(replies[j]).Retry?
    requires Handle(replies[k]).Return?
    ensures Attempts(replies, made) == Call(Handle(replies[k]).answer, k + 1, Backoffs(k))
    decreases k - made
  {
    if made < k {
      AttemptsStopAtFirstAnswer(replies, made + 1, k);
    }
  }

  /** Three 429 answers in a row: delays of 1, 2 and 4 seconds, then the give-up message. */
  lemma {:induction false} ThreeRateLimitsGiveUp(key: string, replies: seq<Reply>)
    requires Configured(key) && MaxRetries <= |replies|
    requires forall j :: 0 <= j < MaxRetries ==> replies[j].Answered? && replies[j].status == 429
    ensures Expected(key, replies) == Call(JStr(GaveUp), 3, [1, 2, 4])
  {
    assert Handle(replies[0]).Retry? && Handle(replies[1]).Retry? && Handle(replies[2]).Retry?;
    assert Backoffs(3) == [1, 2, 4];
  }

  /** Without a usable key no request is made. */
  lemma UnconfiguredKeySendsNothing(replies: seq<Reply>)
    requires MaxRetries <= |replies|
    ensures Expected([], replies) == Call(JStr(ConfigError), 0, [])
    ensures Expected(PlaceholderKey, replies) == Call(JStr(ConfigError), 0, [])
  {
  }

  /** `result` holds the path the code reads: a non-empty `candidates` list whose first
      item is a dictionary with a `content` dictionary, holding a non-empty `parts` list
      whose first item is a dictionary with `text`. Other keys may be present anywhere. */
  predicate CarriesText(result: Json, text: Json)
  {
    && result.JObj? && "candidates" in result.fields
    && var candidates := result.fields["candidates"];
    && candidates.JArr? && candidates.items != []
    && var candidate := candidates.items[0];
    && candidate.JObj? && "content" in candidate.fields
    && var content := candidate.fields["content"];
    && content.JObj? && "parts" in content.fields
    && var parts := content.fields["parts"];
    && parts.JArr? && parts.items != []
    && var part := parts.items[0];
    && part.JObj? && "text" in part.fields && part.fields["text"] == text
  }

  /** A body holding the path is answered with `parts[0]['text']`. */
  lemma ReadAnswerReturnsText(result: Json, text: Json)
    requires CarriesText(result, text)
    ensures ReadAnswer(result) == Return(text)
  {
  }

  /** Reading a body gives one of two things. One is the `text` at the path the code
      reads, when the body carries it. The other is a fixed message: unexpected shape
      for a falsy link, the generic one for a link of the wrong type or a missing `text`. */
  lemma ReadAnswerIsTextOrMessage(result: Json)
    ensures var s := ReadAnswer(result);
      s == Return(JStr(UnexpectedShape)) || s == Return(JStr(OtherFailure)) || CarriesText(result, s.answer)
  {
  }

  /** A first candidate whose `content` is missing or falsy, or a `content` whose `parts`
      is missing or falsy, gives the unexpected-shape message. */
  lemma ReadAnswerUnexpectedShape(result: Json)
    requires result.JObj? && "candidates" in result.fields
    requires result.fields["candidates"].JArr? && result.fields["candidates"].items != []
    requires result.fields["candidates"].items[0].JObj?
    requires var candidate := result.fields["candidates"].items[0].fields;
      "content" !in candidate || !Truthy(candidate["content"])
      || (candidate["content"].JObj?
          && ("parts" !in candidate["content"].fields || !Truthy(candidate["content"].fields["parts"])))
    ensures ReadAnswer(result) == Return(JStr(UnexpectedShape))
  {
  }

  /** A successful answer (any status outside 400..599) holding the path is returned as its
      text, after the 429s before it. */
  lemma WellFormedAnswerIsReturned(key: string, replies: seq<Reply>, k: nat, text: Json)
    requires Configured(key) && k < MaxRetries <= |replies|
    requires forall j :: 0 <= j < k ==> replies[j].Answered? && replies[j].status == 429
    requires replies[k].Answered? && !IsHttpError(replies[k].status) && replies[k].body.Parsed?
    requires CarriesText(replies[k].body.value, text)
    ensures Expected(key, replies) == Call(text, k + 1, Backoffs(k))
  {
    ReadAnswerReturnsText(replies[k].body.value, text);
    AttemptsStopAtFirstAnswer(replies, 0, k);
  }

  /** The call returns one of its fixed messages or the `text` a successful reply carries
      at the path the code reads; in particular nothing is raised to the caller. */
  lemma AnswerIsTextOrMessage(key: string, replies: seq<Reply>)
    requires MaxRetries <= |replies|
    ensures var a := Expected(key, replies).answer;
      a in {JStr(ConfigError), JStr(UnexpectedShape), JStr(HttpFailure), JStr(OtherFailure), JStr(GaveUp)}
      || exists k :: 0 <= k < MaxRetries && replies[k].Answered? && !IsHttpError(replies[k].status)
           && replies[k].body.Parsed? && CarriesText(replies[k].body.value, a)
  {
    if Configured(key) {
      AttemptsRetryOnlyRateLimits(replies, 0);
      var c := Attempts(replies, 0);
      if |c.delays| < c.requests {
        var k := |c.delays|;
        assert Handle(replies[k]).Return? by {
          AttemptsStopAtFirstAnswer(replies, 0, k);
        }
        if replies[k].Answered? && !IsHttpError(replies[k].status) && replies[k].body.Parsed? {
          ReadAnswerIsTextOrMessage(replies[k].body.value);
        }
      }
    }
  }

  /** `call_gemini_api(prompt)`: the loop over requests with its retry counter. */
  method CallGeminiApi(key: string, replies: seq<Reply>) returns (answer: Json, requests: nat, delays: seq<nat>)
    requires MaxRetries <= |replies|
    ensures Call(answer, requests, delays) == Expected(key, replies)
  {
    if !Configured(key) {
      return JStr(ConfigError), 0, [];
    }
    var retries: nat := 0;
    requests, delays := 0, [];
    while retries < MaxRetries
      invariant retries <= MaxRetries && requests == retries && delays == Backoffs(retries)
      invariant Attempts(replies, retries) == Expected(key, replies)
      decreases MaxRetries - retries
    {
      var reply := replies[requests];
      requests := requests + 1;
      match reply {
        case Raised =>
          return JStr(OtherFailure), requests, delays;
        case Answered(status, body) =>
          if IsHttpError(status) {
            if status == 429 {
              retries := retries + 1;
              var delay := BaseDelay * Pow2(retries - 1);
              delays := delays + [delay];
              continue;
            }
            return JStr(HttpFailure), requests, delays;
          }
          match body {
            case Unreadable =>
              return JStr(OtherFailure), requests, delays;
            case Parsed(result) =>
              return ReadAnswer(result).answer, requests, delays;
          }
      }
    }
    answer := JStr(GaveUp);
  }
}
